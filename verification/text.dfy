/** Searching a character sequence for one character, from the front
    (`strchr`, `std::string_view::find`) and from the back (`strrchr`,
    `rfind`). */
module Text {
  import opened Wrappers

  /** The position of the first `c`. */
  function IndexOf(s: seq<char>, c: char): (r: Option<nat>)
    ensures r.None? <==> c !in s
    ensures r.Some? ==> r.value < |s| && s[r.value] == c && c !in s[..r.value]
  {
    if |s| == 0 then None
    else if s[0] == c then Some(0)
    else match IndexOf(s[1..], c)
      case None => None
      case Some(i) =>
        assert s[1..][..i] == s[1..i + 1];
        Some(i + 1)
  }

  /** The first `c` is the one with no `c` before it. */
  lemma IndexOfAt(s: seq<char>, c: char, i: nat)
    requires i < |s| && s[i] == c && c !in s[..i]
    ensures IndexOf(s, c) == Some(i)
  {
  }

  /** The position of the last `c`. */
  function LastIndexOf(s: seq<char>, c: char): (r: Option<nat>)
    ensures r.None? <==> c !in s
    ensures r.Some? ==> r.value < |s| && s[r.value] == c && c !in s[r.value + 1..]
  {
    if |s| == 0 then None
    else if s[|s| - 1] == c then Some(|s| - 1)
    else
      var r := LastIndexOf(s[..|s| - 1], c);
      assert r.Some? ==> s[r.value + 1..] == s[..|s| - 1][r.value + 1..] + [s[|s| - 1]];
      assert s == s[..|s| - 1] + [s[|s| - 1]];
      r
  }

  /** `p` is where `s` starts. */
  predicate IsPrefix(p: seq<char>, s: seq<char>)
  {
    |p| <= |s| && s[..|p|] == p
  }

  /** The end of the run of characters satisfying `p` that starts at
      `from`. */
  function Span(p: char -> bool, s: seq<char>, from: nat): (n: nat)
    requires from <= |s|
    ensures from <= n <= |s|
    ensures forall i :: from <= i < n ==> p(s[i])
    ensures n < |s| ==> !p(s[n])
    decreases |s| - from
  {
    if from < |s| && p(s[from]) then Span(p, s, from + 1) else from
  }

  /** The run ends exactly where its characterization says. */
  lemma SpanIs(p: char -> bool, s: seq<char>, from: nat, n: nat)
    requires from <= n <= |s|
    requires forall i :: from <= i < n ==> p(s[i])
    requires n < |s| ==> !p(s[n])
    ensures Span(p, s, from) == n
  {
  }

  /** A text is what lies around one of its characters. */
  lemma Around(s: seq<char>, i: nat)
    requires i < |s|
    ensures s == s[..i] + [s[i]] + s[i + 1..]
  {
    assert s == s[..i] + s[i..];
  }

  /** A text is what lies around two of its characters. */
  lemma CutTwice(s: seq<char>, i: nat, j: nat)
    requires i < j < |s|
    ensures s == s[..i] + [s[i]] + s[i + 1..j] + [s[j]] + s[j + 1..]
  {
    assert s == s[..i] + s[i..];
    assert s[i..] == [s[i]] + s[i + 1..j] + s[j..];
    assert s[j..] == [s[j]] + s[j + 1..];
  }

  /** `isspace` in the C locale. */
  predicate IsSpace(c: char)
  {
    c == ' ' || '\t' <= c <= '\r'
  }

  predicate IsDecimal(c: char)
  {
    '0' <= c <= '9'
  }

  // ------------------------------------------------------------ splitting

  /* Splitting as `IterableSplitString` does it (its header is not part of
     this model): every separator ends a piece, empty pieces included, so a
     text with k separators has k + 1 pieces. */

  /** The pieces of `s` between the separators. */
  function Split(s: seq<char>, sep: char): (r: seq<seq<char>>)
    ensures |r| >= 1
    ensures forall i :: 0 <= i < |r| ==> sep !in r[i]
    decreases |s|
  {
    match IndexOf(s, sep)
    case None => [s]
    case Some(i) => [s[..i]] + Split(s[i + 1..], sep)
  }

  /** The pieces put back together, one separator between each two. */
  function Join(pieces: seq<seq<char>>, sep: char): (r: seq<char>)
    requires |pieces| >= 1
  {
    if |pieces| == 1 then pieces[0] else pieces[0] + [sep] + Join(pieces[1..], sep)
  }

  /** Splitting loses nothing: joining the pieces gives the text back. */
  lemma {:induction false} JoinSplit(s: seq<char>, sep: char)
    ensures Join(Split(s, sep), sep) == s
    decreases |s|
  {
    match IndexOf(s, sep)
    case None =>
    case Some(i) =>
      JoinSplit(s[i + 1..], sep);
      assert Split(s, sep)[1..] == Split(s[i + 1..], sep);
      assert s == s[..i] + [sep] + s[i + 1..];
  }

  /** Pieces free of the separator come back from their join. */
  lemma {:induction false} SplitJoin(pieces: seq<seq<char>>, sep: char)
    requires |pieces| >= 1 && forall i :: 0 <= i < |pieces| ==> sep !in pieces[i]
    ensures Split(Join(pieces, sep), sep) == pieces
    decreases |pieces|
  {
    var s := Join(pieces, sep);
    if |pieces| == 1 {
      assert IndexOf(s, sep).None?;
    } else {
      var rest := Join(pieces[1..], sep);
      assert s == pieces[0] + [sep] + rest;
      IndexOfAt(s, sep, |pieces[0]|) by {
        assert s[..|pieces[0]|] == pieces[0];
      }
      assert s[|pieces[0]| + 1..] == rest;
      SplitJoin(pieces[1..], sep);
      assert s[..|pieces[0]|] == pieces[0];
    }
  }

}
