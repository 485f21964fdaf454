/** `LineParser`: a tokenizer over one configuration line, held in a
    writable C string that it cuts into tokens by writing NULs.

    The model's parser state is the text from the cursor `p` to the line's
    NUL (`rest`).  A token is the C string that starts where the cursor was;
    the source ends it by overwriting the character after it with a NUL,
    which the model reflects by returning the token and the text after the
    overwritten character.  The character classes `IsWordChar`,
    `IsUnquotedChar` and `IsQuote` are declared in LineParser.hxx, which is
    not part of this model, so they are a parameter; whitespace is the
    `CharUtil` definition (codes 1 to 0x20). */
module LineParser {
  import opened Wrappers
  import opened Words
  import opened Numerals
  import opened Text

  datatype Syntax = Syntax(isWord: char -> bool, isUnquoted: char -> bool, isQuote: char -> bool)

  /** No class contains the NUL that ends the line. */
  predicate ValidSyntax(syn: Syntax)
  {
    !syn.isWord('\0') && !syn.isUnquoted('\0') && !syn.isQuote('\0')
  }

  predicate NoNul(s: seq<char>)
  {
    forall i :: 0 <= i < |s| ==> s[i] != '\0'
  }

  /** `IsWhitespaceNotNull`. */
  predicate IsWhitespace(c: char)
  {
    0 < c as int <= 0x20
  }

  /** `IsWhitespaceOrNull` / `IsWhitespaceFast`. */
  predicate IsWhitespaceOrNull(c: char)
  {
    c as int <= 0x20
  }

  predicate NotWhitespaceOrNull(c: char)
  {
    !IsWhitespaceOrNull(c)
  }

  predicate IsSuffix(a: seq<char>, b: seq<char>)
  {
    |a| <= |b| && b[|b| - |a|..] == a
  }

  /** `front()`: the character at the cursor, NUL at the end of the line. */
  function Front(rest: seq<char>): char
  {
    if |rest| == 0 then '\0' else rest[0]
  }

  /** `StripLeft`: skip whitespace. */
  function StripLeft(s: seq<char>): (r: seq<char>)
    ensures IsSuffix(r, s)
    ensures forall i :: 0 <= i < |s| - |r| ==> IsWhitespace(s[i])
    ensures |r| > 0 ==> !IsWhitespace(r[0])
  {
    if |s| > 0 && IsWhitespace(s[0]) then StripLeft(s[1..]) else s
  }

  /** `rest` is `token`, then whitespace only, then `after`, which does not
      start with whitespace: a step dropped nothing but separating blanks. */
  predicate Separates(rest: seq<char>, token: seq<char>, after: seq<char>)
  {
    && |token| + |after| <= |rest|
    && rest[..|token|] == token
    && rest[|rest| - |after|..] == after
    && (forall i :: |token| <= i < |rest| - |after| ==> IsWhitespace(rest[i]))
    && (|after| > 0 ==> !IsWhitespace(after[0]))
  }

  /** A parser step: what it returned, and the text after the cursor. */
  datatype Step<+T> = Step(value: T, rest: seq<char>)

  /** Skipping the whitespace after a token that ends at `n`, where the
      character at `n` (if any) is whitespace. */
  lemma SeparatesAfterStrip(rest: seq<char>, n: nat)
    requires n <= |rest|
    requires n < |rest| ==> IsWhitespace(rest[n])
    ensures Separates(rest, rest[..n], if n < |rest| then StripLeft(rest[n + 1..]) else [])
  {
    if n < |rest| {
      var tail := rest[n + 1..];
      SeparatesStripped(rest, n, tail, StripLeft(tail));
    } else {
      assert rest[..n] == rest;
    }
  }

  /** The step of `SeparatesAfterStrip` with the stripped text named. */
  lemma SeparatesStripped(rest: seq<char>, n: nat, tail: seq<char>, after: seq<char>)
    requires n < |rest| && IsWhitespace(rest[n]) && tail == rest[n + 1..]
    requires IsSuffix(after, tail)
    requires forall i :: 0 <= i < |tail| - |after| ==> IsWhitespace(tail[i])
    requires |after| > 0 ==> !IsWhitespace(after[0])
    ensures Separates(rest, rest[..n], after)
  {
    assert rest[|rest| - |after|..] == tail[|tail| - |after|..];
    forall i | n < i < |rest| - |after|
      ensures IsWhitespace(rest[i])
    {
      assert rest[i] == tail[i - n - 1];
    }
  }

  // ------------------------------------------------------------- SkipWord

  /** `SkipWord(word)`: succeeds when `word` starts the rest and is followed
      by the end of the line or whitespace; then the cursor moves past the
      word and the whitespace.  On failure the cursor stays. */
  method SkipWord(rest: seq<char>, word: seq<char>) returns (ok: bool, after: seq<char>)
    requires |word| > 0 && NoNul(word) && NoNul(rest)
    ensures ok <==> |word| <= |rest| && rest[..|word|] == word
                    && (|rest| == |word| || IsWhitespace(rest[|word|]))
    ensures ok ==> after == StripLeft(rest[|word|..])
    ensures !ok ==> after == rest
  {
    var q := 0;
    var w := 0;
    while true
      invariant w == q && w < |word|
      invariant q <= |rest| && rest[..q] == word[..q]
      decreases |word| - w
    {
      if q >= |rest| || rest[q] != word[w] {
        assert q < |rest| ==> rest[q] != word[q];
        assert q >= |rest| ==> |rest| < |word|;
        return false, rest;
      }
      q := q + 1;
      w := w + 1;
      if w == |word| {
        break;
      }
    }
    assert rest[..|word|] == word;
    if q == |rest| {
      return true, [];
    } else if IsWhitespaceOrNull(rest[q]) {
      assert rest[q] != '\0';
      assert StripLeft(rest[q..]) == StripLeft(rest[q + 1..]);
      return true, StripLeft(rest[q + 1..]);
    } else {
      return false, rest;
    }
  }

  // ------------------------------------------------------- runs of classes

  /** The common shape of `NextWord` and `NextUnquotedValue`: a non-empty
      maximal run of `p` characters, which must be followed by whitespace or
      the end of the line.  When the first character does not qualify the
      cursor stays; when the run is followed by something else the result is
      null and the cursor is left after the run. */
  function NextRun(p: char -> bool, rest: seq<char>): (r: Step<Option<seq<char>>>)
    requires !p('\0')
    ensures !p(Front(rest)) ==> r == Step(None, rest)
    ensures r.value.Some? ==>
              var t := r.value.value;
              && |t| > 0 && (forall i :: 0 <= i < |t| ==> p(t[i]))
              && (|t| < |rest| ==> !p(rest[|t|]))
              && Separates(rest, t, r.rest)
    ensures p(Front(rest)) ==>
              var n := Span(p, rest, 0);
              (r.value.Some? <==> n == |rest| || IsWhitespace(rest[n]))
              && (r.value.None? ==> r.rest == rest[n..])
    ensures IsSuffix(r.rest, rest)
  {
    if !p(Front(rest)) then Step(None, rest)
    else
      var n := Span(p, rest, 1);
      assert n == Span(p, rest, 0);
      if n < |rest| && IsWhitespace(rest[n]) then
        SeparatesAfterStrip(rest, n);
        Step(Some(rest[..n]), StripLeft(rest[n + 1..]))
      else if n == |rest| then
        SeparatesAfterStrip(rest, n);
        Step(Some(rest), [])
      else Step(None, rest[n..])
  }

  /** `NextWord`.  Unlike the value readers it needs no `NoNul`: no class
      holds the NUL (`ValidSyntax`), so the run stops there, as in the
      source. */
  function NextWord(syn: Syntax, rest: seq<char>): (r: Step<Option<seq<char>>>)
    requires ValidSyntax(syn)
    ensures r.value.Some? ==> Separates(rest, r.value.value, r.rest)
  {
    NextRun(syn.isWord, rest)
  }

  /** `NextUnquotedValue`. */
  function NextUnquotedValue(syn: Syntax, rest: seq<char>): (r: Step<Option<seq<char>>>)
    requires ValidSyntax(syn)
    ensures r.value.Some? ==> Separates(rest, r.value.value, r.rest)
  {
    NextRun(syn.isUnquoted, rest)
  }

  /** `NextRelaxedUnquotedValue`: null only at the end of the line;
      otherwise everything up to the next whitespace (the first character
      is taken whatever it is). */
  function NextRelaxedUnquotedValue(rest: seq<char>): (r: Step<Option<seq<char>>>)
    requires NoNul(rest)
    ensures r.value.None? <==> |rest| == 0
    ensures r.value.None? ==> r.rest == rest
    ensures r.value.Some? ==>
              var t := r.value.value;
              && |t| > 0 && (forall i :: 1 <= i < |t| ==> !IsWhitespace(t[i]))
              && Separates(rest, t, r.rest)
  {
    if |rest| == 0 then Step(None, rest)
    else
      var n := Span(NotWhitespaceOrNull, rest, 1);
      SeparatesAfterStrip(rest, n);
      if n < |rest| then Step(Some(rest[..n]), StripLeft(rest[n + 1..]))
      else Step(Some(rest), [])
  }

  /** `NextQuotedValue(stop)`, with the cursor already past the opening
      quote: the text up to the first `stop`; null (cursor unmoved) when
      there is none. */
  function NextQuotedValue(rest: seq<char>, stop: char): (r: Step<Option<seq<char>>>)
    requires stop != '\0' && NoNul(rest)
    ensures r.value.None? <==> stop !in rest
    ensures r.value.None? ==> r.rest == rest
    ensures r.value.Some? ==>
              var t := r.value.value;
              && stop !in t && |t| < |rest| && rest[..|t|] == t && rest[|t|] == stop
              && Separates(rest[|t| + 1..], [], r.rest)
  {
    match IndexOf(rest, stop)
    case None => Step(None, rest)
    case Some(q) =>
      StripLeftSeparates(rest[q + 1..]);
      Step(Some(rest[..q]), StripLeft(rest[q + 1..]))
  }

  lemma StripLeftSeparates(s: seq<char>)
    ensures Separates(s, [], StripLeft(s))
  {
  }

  /** `NextValue`: a quoted value when the cursor is at a quote, else an
      unquoted one.  A quote without its partner gives null with the cursor
      after the opening quote. */
  function NextValue(syn: Syntax, rest: seq<char>): (r: Step<Option<seq<char>>>)
    requires ValidSyntax(syn) && NoNul(rest)
    ensures IsSuffix(r.rest, rest)
    ensures syn.isQuote(Front(rest)) ==>
              (r.value.None? <==> Front(rest) !in rest[1..])
              && (r.value.Some? ==> Front(rest) !in r.value.value)
    ensures !syn.isQuote(Front(rest)) ==> r == NextUnquotedValue(syn, rest)
  {
    var ch := Front(rest);
    if syn.isQuote(ch) then
      var r := NextQuotedValue(rest[1..], ch);
      QuotedSuffix(rest, r);
      r
    else NextUnquotedValue(syn, rest)
  }

  lemma QuotedSuffix(rest: seq<char>, r: Step<Option<seq<char>>>)
    requires |rest| > 0 && NoNul(rest)
    requires r == NextQuotedValue(rest[1..], rest[0])
    ensures IsSuffix(r.rest, rest)
  {
    if r.value.Some? {
      var t := r.value.value;
      assert rest[1..][|t| + 1..] == rest[|t| + 2..];
      SuffixOfDrop(r.rest, rest, |t| + 2);
    }
  }

  /** A suffix of what is left after dropping a prefix is a suffix of the
      whole. */
  lemma SuffixOfDrop(a: seq<char>, s: seq<char>, k: nat)
    requires k <= |s| && IsSuffix(a, s[k..])
    ensures IsSuffix(a, s)
  {
    assert s[|s| - |a|..] == s[k..][|s[k..]| - |a|..];
  }

  /** `NextRelaxedValue`: like `NextValue`, with a relaxed unquoted value. */
  function NextRelaxedValue(syn: Syntax, rest: seq<char>): (r: Step<Option<seq<char>>>)
    requires ValidSyntax(syn) && NoNul(rest)
    ensures IsSuffix(r.rest, rest)
    ensures !syn.isQuote(Front(rest)) ==> (r.value.None? <==> |rest| == 0)
  {
    var ch := Front(rest);
    if syn.isQuote(ch) then
      var r := NextQuotedValue(rest[1..], ch);
      QuotedSuffix(rest, r);
      r
    else NextRelaxedUnquotedValue(rest)
  }

  // ------------------------------------------------------------ unescaping

  /** The character an escape sequence `\c` stands for. */
  function EscapeValue(c: char): Option<char>
  {
    if c == 'r' then Some('\r')
    else if c == 'n' then Some('\n')
    else if c == '\\' || c == '\'' || c == '"' then Some(c)
    else None
  }

  /** A decoding whose first characters are known to be `prefix`. */
  function Prepend(prefix: seq<char>, r: Option<(seq<char>, nat)>): Option<(seq<char>, nat)>
  {
    match r
    case None => None
    case Some(d) => Some((prefix + d.0, d.1))
  }

  /** One raw unit between the quotes at index `i`: a plain character, or a
      backslash and the letter of a known escape.  Returns the character and
      the index after the unit. */
  function DecodeUnit(s: seq<char>, i: nat): (r: Option<(char, nat)>)
    requires i < |s|
    ensures r.Some? ==> i < r.value.1 <= |s|
    ensures s[i] != '\\' ==> r == Some((s[i], i + 1))
  {
    if s[i] != '\\' then Some((s[i], i + 1))
    else if i + 1 == |s| then None
    else match EscapeValue(s[i + 1])
      case None => None
      case Some(c) => Some((c, i + 2))
  }

  /** The decoding loop of `NextUnescape`, from index `i` just after the
      opening quote: the decoded text and the index after the closing quote;
      `None` for a missing closing quote (the end of the text or a NUL) or an
      unknown escape. */
  function Unescape(s: seq<char>, i: nat, stop: char): (r: Option<(seq<char>, nat)>)
    requires i <= |s| && stop != '\0'
    ensures r.Some? ==> i < r.value.1 <= |s|
    decreases |s| - i
  {
    if i == |s| || s[i] == '\0' then None
    else if s[i] == stop then Some(([], i + 1))
    else match DecodeUnit(s, i)
      case None => None
      case Some(u) => Prepend([u.0], Unescape(s, u.1, stop))
  }

  /** A decoding ends just after a closing quote, and the decoded text is
      shorter than the raw text it came from (quote included): escapes only
      ever shrink. */
  lemma {:induction false} UnescapeShrinks(s: seq<char>, i: nat, stop: char)
    requires i <= |s| && stop != '\0'
    ensures var r := Unescape(s, i, stop);
            r.Some? ==> s[r.value.1 - 1] == stop && |r.value.0| < r.value.1 - i
    decreases |s| - i
  {
    if i < |s| && s[i] != '\0' && s[i] != stop {
      match DecodeUnit(s, i)
      case None =>
      case Some(u) =>
        UnescapeShrinks(s, u.1, stop);
    }
  }

  /** `NextUnescape`: a quoted value with escapes decoded.  On failure the
      source has already overwritten part of the line; the model leaves no
      text after the cursor. */
  function NextUnescape(syn: Syntax, rest: seq<char>): (r: Step<Option<seq<char>>>)
    requires ValidSyntax(syn)
    ensures !syn.isQuote(Front(rest)) ==> r == Step(None, rest)
    ensures syn.isQuote(Front(rest)) ==> (r.value.Some? <==> Unescape(rest, 1, rest[0]).Some?)
    ensures r.value.Some? ==>
              var end := Unescape(rest, 1, rest[0]).value.1;
              |r.value.value| < end - 1 && Separates(rest[end..], [], r.rest)
  {
    var stop := Front(rest);
    if !syn.isQuote(stop) then Step(None, rest)
    else
      var u := Unescape(rest, 1, stop);
      if u.None? then Step(None, [])
      else
        UnescapeShrinks(rest, 1, stop);
        StripLeftSeparates(rest[u.value.1..]);
        Step(Some(u.value.0), StripLeft(rest[u.value.1..]))
  }

  /** How a text is written between quotes so that `NextUnescape` reads it
      back: a backslash before backslashes and both quotes, `\r` and `\n` for
      the two control characters, then the closing quote. */
  function EscapeChar(c: char): (r: seq<char>)
    ensures 1 <= |r| <= 2
  {
    if c == '\r' then ['\\', 'r']
    else if c == '\n' then ['\\', 'n']
    else if c == '\\' || c == '\'' || c == '"' then ['\\', c]
    else [c]
  }

  function Escape(t: seq<char>, stop: char): (r: seq<char>)
    ensures |r| > |t|
  {
    if |t| == 0 then [stop] else EscapeChar(t[0]) + Escape(t[1..], stop)
  }

  lemma {:induction false} EscapeNoNul(t: seq<char>, stop: char)
    requires NoNul(t) && stop != '\0'
    ensures NoNul(Escape(t, stop))
  {
    if |t| > 0 {
      EscapeNoNul(t[1..], stop);
      assert Escape(t, stop) == EscapeChar(t[0]) + Escape(t[1..], stop);
    }
  }

  /** Decoding undoes escaping: an escaped text at index `i`, whatever
      precedes or follows it, decodes to the text and ends after its closing
      quote. */
  lemma UnescapeEscape(s: seq<char>, i: nat, t: seq<char>, stop: char)
    requires stop == '"' || stop == '\''
    requires NoNul(t)
    requires i + |Escape(t, stop)| <= |s| && s[i..i + |Escape(t, stop)|] == Escape(t, stop)
    ensures Unescape(s, i, stop) == Some((t, i + |Escape(t, stop)|))
  {
    UnescapeEscapeAt(s, i, t, stop, Escape(t, stop));
  }

  lemma {:induction false} UnescapeEscapeAt(s: seq<char>, i: nat, t: seq<char>, stop: char, esc: seq<char>)
    requires stop == '"' || stop == '\''
    requires NoNul(t) && esc == Escape(t, stop)
    requires i + |esc| <= |s| && s[i..i + |esc|] == esc
    ensures Unescape(s, i, stop) == Some((t, i + |esc|))
    decreases |t|
  {
    if |t| == 0 {
      UnescapeClosing(s, i, stop, esc);
    } else {
      var c, tl := t[0], t[1..];
      var e := EscapeChar(c);
      var rest := Escape(tl, stop);
      assert esc == e + rest;
      var end := i + |e| + |rest|;
      assert end == i + |esc|;
      SliceParts(s, i, e, rest);
      NoNulFront(t);
      UnescapeEscapeAt(s, i + |e|, tl, stop, rest);
      EscapedUnitFront(s, i, c, tl, stop, e, end);
      assert t == [c] + tl;
    }
  }

  /** One escaped character in front of a decoded rest. */
  lemma EscapedUnitFront(s: seq<char>, i: nat, c: char, tl: seq<char>, stop: char, e: seq<char>, end: nat)
    requires stop == '"' || stop == '\''
    requires c != '\0' && e == EscapeChar(c)
    requires i + |e| <= |s| && s[i..i + |e|] == e
    requires Unescape(s, i + |e|, stop) == Some((tl, end))
    ensures Unescape(s, i, stop) == Some(([c] + tl, end))
  {
    EscapeFront(s, i, c, stop);
  }

  lemma NoNulFront(t: seq<char>)
    requires |t| > 0 && NoNul(t)
    ensures t[0] != '\0' && NoNul(t[1..])
  {
    assert forall i :: 0 <= i < |t| - 1 ==> t[1..][i] == t[i + 1];
  }

  /** The closing quote ends the decoding. */
  lemma UnescapeClosing(s: seq<char>, i: nat, stop: char, esc: seq<char>)
    requires stop != '\0' && esc == [stop]
    requires i + 1 <= |s| && s[i..i + 1] == esc
    ensures Unescape(s, i, stop) == Some(([], i + 1))
  {
    assert s[i] == s[i..i + 1][0];
  }

  /** Where `s` holds `e + rest` at `i`, it holds `e` at `i` and `rest`
      after it. */
  lemma SliceParts(s: seq<char>, i: nat, e: seq<char>, rest: seq<char>)
    requires i + |e| + |rest| <= |s| && s[i..i + |e| + |rest|] == e + rest
    ensures s[i..i + |e|] == e && s[i + |e|..i + |e| + |rest|] == rest
  {
    assert s[i..i + |e|] == s[i..i + |e| + |rest|][..|e|];
    assert s[i + |e|..i + |e| + |rest|] == s[i..i + |e| + |rest|][|e|..];
  }

  /** An escaped character at index `i` is a unit of its own, and the
      decoding goes on after it. */
  lemma EscapeFront(s: seq<char>, i: nat, c: char, stop: char)
    requires stop == '"' || stop == '\''
    requires c != '\0'
    requires i + |EscapeChar(c)| <= |s| && s[i..i + |EscapeChar(c)|] == EscapeChar(c)
    ensures Unescape(s, i, stop) == Prepend([c], Unescape(s, i + |EscapeChar(c)|, stop))
  {
    var e := EscapeChar(c);
    assert s[i] == e[0];
    if |e| == 2 {
      assert s[i + 1] == e[1];
    }
    assert DecodeUnit(s, i) == Some((c, i + |e|));
    UnescapeUnit(s, i, stop);
  }

  /** A unit that is neither the closing quote nor a NUL is decoded and the
      decoding goes on after it. */
  lemma UnescapeUnit(s: seq<char>, i: nat, stop: char)
    requires i < |s| && s[i] != '\0' && s[i] != stop && stop != '\0'
    ensures DecodeUnit(s, i).None? ==> Unescape(s, i, stop).None?
    ensures DecodeUnit(s, i).Some? ==>
              Unescape(s, i, stop) == Prepend([DecodeUnit(s, i).value.0], Unescape(s, DecodeUnit(s, i).value.1, stop))
  {
  }

  /** Escaping a text and putting it between quotes gives a token that
      `NextUnescape` reads back as the text. */
  lemma NextUnescapeEscape(syn: Syntax, stop: char, t: seq<char>, tail: seq<char>)
    requires ValidSyntax(syn) && syn.isQuote(stop) && (stop == '"' || stop == '\'')
    requires NoNul(t)
    ensures NextUnescape(syn, [stop] + Escape(t, stop) + tail).value == Some(t)
  {
    var rest := [stop] + Escape(t, stop) + tail;
    assert rest[1..1 + |Escape(t, stop)|] == Escape(t, stop);
    UnescapeEscape(rest, 1, t, stop);
  }

  /** The line's terminating NUL ends the decoding just as the end of the
      text does. */
  lemma {:induction false} UnescapeTerminated(line: seq<char>, i: nat, stop: char)
    requires i <= |line| && stop != '\0'
    ensures Unescape(line + ['\0'], i, stop) == Unescape(line, i, stop)
    decreases |line| - i
  {
    var buf := line + ['\0'];
    if i < |line| && line[i] != '\0' && line[i] != stop {
      assert buf[i] == line[i];
      if line[i] == '\\' && i + 1 < |line| {
        assert buf[i + 1] == line[i + 1];
      }
      match DecodeUnit(line, i)
      case None =>
      case Some(u) =>
        UnescapeTerminated(line, u.1, stop);
    }
  }

  // ---------------------------------------------------- the in-place loop

  /** The invariant of the loop in `UnescapeInPlace`: `dest` has not passed
      `p`, the buffer from `p` on is untouched, and what was decoded so far,
      followed by the decoding of the unread text, is the whole decoding. */
  predicate Progress(buf: seq<char>, start: nat, stop: char, b: seq<char>, dest: nat, p: nat)
    requires stop != '\0'
  {
    && start <= dest <= p < |buf| && |b| == |buf|
    && (forall i :: p <= i < |buf| ==> b[i] == buf[i])
    && Unescape(buf, start, stop) == Prepend(b[start..dest], Unescape(buf, p, stop))
  }

  /** Writing `c` for the unit that ends at `q` keeps the invariant. */
  lemma Advance(buf: seq<char>, start: nat, stop: char, b: seq<char>, dest: nat, p: nat, c: char, q: nat)
    requires stop != '\0' && Progress(buf, start, stop, b, dest, p) && p < q < |buf|
    requires Unescape(buf, p, stop) == Prepend([c], Unescape(buf, q, stop))
    ensures Progress(buf, start, stop, b[dest := c], dest + 1, q)
  {
    WriteExtends(b, start, dest, c);
    PrependAppend(b[start..dest], c, Unescape(buf, q, stop));
  }

  lemma WriteExtends(b: seq<char>, start: nat, dest: nat, c: char)
    requires start <= dest < |b|
    ensures b[dest := c][start..dest + 1] == b[start..dest] + [c]
  {
  }

  lemma PrependAppend(pre: seq<char>, c: char, r: Option<(seq<char>, nat)>)
    ensures Prepend(pre, Prepend([c], r)) == Prepend(pre + [c], r)
  {
    if r.Some? {
      assert pre + ([c] + r.value.0) == (pre + [c]) + r.value.0;
    }
  }

  /** The loop invariant across a backslash at `p`. */
  lemma EscapeStep(buf: seq<char>, start: nat, stop: char, b: seq<char>, dest: nat, p: nat)
    requires |buf| >= 1 && buf[|buf| - 1] == '\0' && p < |buf| - 1
    requires buf[p] == '\\' && stop != '\\' && stop != '\0'
    requires Progress(buf, start, stop, b, dest, p)
    ensures EscapeValue(buf[p + 1]).None? ==> Unescape(buf, start, stop).None?
    ensures EscapeValue(buf[p + 1]).Some? ==>
              && p + 2 < |buf|
              && Progress(buf, start, stop, b[dest := EscapeValue(buf[p + 1]).value], dest + 1, p + 2)
  {
    var c := EscapeValue(buf[p + 1]);
    if c.Some? {
      assert p + 1 < |buf| - 1;
      assert DecodeUnit(buf, p) == Some((c.value, p + 2));
      Advance(buf, start, stop, b, dest, p, c.value, p + 2);
    }
  }

  /** The loop invariant across any other character. */
  lemma PlainStep(buf: seq<char>, start: nat, stop: char, b: seq<char>, dest: nat, p: nat)
    requires |buf| >= 1 && buf[|buf| - 1] == '\0' && stop != '\0'
    requires Progress(buf, start, stop, b, dest, p)
    requires buf[p] != '\\' && buf[p] != stop && buf[p] != '\0'
    ensures p + 1 < |buf| && Progress(buf, start, stop, b[dest := buf[p]], dest + 1, p + 1)
  {
    Advance(buf, start, stop, b, dest, p, buf[p], p + 1);
  }

  /** Reaching the closing quote completes the decoding. */
  lemma Close(buf: seq<char>, start: nat, stop: char, b: seq<char>, dest: nat, p: nat)
    requires stop != '\0' && Progress(buf, start, stop, b, dest, p) && buf[p] == stop
    ensures Unescape(buf, start, stop) == Some((b[start..dest], p + 1))
    ensures b[dest := '\0'][start..dest] == b[start..dest]
    ensures forall i :: p + 1 <= i < |buf| ==> b[dest := '\0'][i] == buf[i]
  {
    assert b[start..dest] + [] == b[start..dest];
  }

  datatype Outcome = Continue | Failed | Closed

  /** One turn of the loop: copy or decode one unit, or stop at the closing
      quote or the end of the line. */
  method UnescapeStep(buf: seq<char>, start: nat, stop: char, b: seq<char>, dest: nat, p: nat)
    returns (o: Outcome, b': seq<char>, dest': nat, p': nat)
    requires |buf| >= 1 && buf[|buf| - 1] == '\0' && stop != '\0'
    requires Progress(buf, start, stop, b, dest, p)
    ensures o == Continue ==> Progress(buf, start, stop, b', dest', p') && p < p'
    ensures o == Failed ==> Unescape(buf, start, stop).None?
    ensures o == Closed ==>
              && Unescape(buf, start, stop) == Some((b[start..dest], p + 1))
              && b' == b[dest := '\0'] && b'[start..dest] == b[start..dest]
              && p' == p + 1 && (forall i :: p' <= i < |buf| ==> b'[i] == buf[i])
  {
    var ch := b[p];
    if ch == '\0' {
      return Failed, b, dest, p + 1;
    }
    if ch == stop {
      Close(buf, start, stop, b, dest, p);
      return Closed, b[dest := '\0'], dest, p + 1;
    }
    if ch == '\\' {
      var e := b[p + 1];
      EscapeStep(buf, start, stop, b, dest, p);
      var c := EscapeValue(e);
      if c.None? {
        return Failed, b, dest, p + 2;
      }
      return Continue, b[dest := c.value], dest + 1, p + 2;
    } else {
      PlainStep(buf, start, stop, b, dest, p);
      return Continue, b[dest := ch], dest + 1, p + 1;
    }
  }

  /** The in-place loop of `NextUnescape` over the line buffer `buf` (the
      line and its NUL), from `start` just after the opening quote.  The
      write position never passes the read position, so every character is
      read before it can be overwritten; on success the decoded text sits at
      `start`, followed by a NUL that comes before the read position. */
  method UnescapeInPlace(buf: seq<char>, start: nat, stop: char) returns (ok: bool, out: seq<char>, value: seq<char>, p: nat)
    requires |buf| >= 1 && buf[|buf| - 1] == '\0'
    requires start < |buf| && stop != '\0'
    ensures ok <==> Unescape(buf[..|buf| - 1], start, stop).Some?
    ensures ok ==>
              var d := Unescape(buf[..|buf| - 1], start, stop).value;
              && value == d.0 && p == d.1 && |out| == |buf| && start + |value| < p
              && out[start..start + |value|] == value && out[start + |value|] == '\0'
              && out[p..] == buf[p..]
  {
    assert buf == buf[..|buf| - 1] + ['\0'];
    UnescapeTerminated(buf[..|buf| - 1], start, stop);
    var b := buf;
    var dest := start;
    p := start;
    assert Progress(buf, start, stop, b, dest, p) by {
      var u := Unescape(buf, start, stop);
      assert b[start..dest] == [];
      if u.Some? {
        assert [] + u.value.0 == u.value.0;
      }
    }
    while true
      invariant Progress(buf, start, stop, b, dest, p)
      decreases |buf| - p
    {
      var o, b', dest', p' := UnescapeStep(buf, start, stop, b, dest, p);
      if o == Failed {
        return false, b, [], p';
      } else if o == Closed {
        assert b'[p'..] == buf[p'..];
        return true, b', b[start..dest], p';
      }
      b, dest, p := b', dest', p';
    }
  }

  // ---------------------------------------------------------- typed values

  /** Quoting a text without NULs adds none. */
  lemma QuotedNoNul(t: seq<char>, tail: seq<char>)
    requires NoNul(t) && NoNul(tail)
    ensures NoNul(['"'] + t + ['"'] + tail)
  {
    var q := ['"'] + t + ['"'] + tail;
    forall i | 0 <= i < |q|
      ensures q[i] != '\0'
    {
      if 0 < i <= |t| {
        assert q[i] == t[i - 1];
      } else if i > |t| + 1 {
        assert q[i] == tail[i - |t| - 2];
      }
    }
  }

  /** A text between double quotes reads back as itself. */
  lemma QuotedValue(syn: Syntax, t: seq<char>, tail: seq<char>)
    requires ValidSyntax(syn) && syn.isQuote('"') && '"' !in t && NoNul(t) && NoNul(tail)
    ensures NoNul(['"'] + t + ['"'] + tail)
    ensures NextValue(syn, ['"'] + t + ['"'] + tail) == Step(Some(t), StripLeft(tail))
  {
    QuotedNoNul(t, tail);
    var rest := ['"'] + t + ['"'] + tail;
    var inner := rest[1..];
    assert inner == t + ['"'] + tail;
    assert inner[|t|] == '"';
    var q := IndexOf(inner, '"').value;
    assert q == |t|;
    assert inner[..q] == t;
    assert inner[q + 1..] == tail;
  }

  /** `NextBool`: "yes" is true, "no" is false; anything else, or no value
      at all, is the error "yes/no expected". */
  function NextBool(syn: Syntax, rest: seq<char>): (r: Result<Step<bool>, string>)
    requires ValidSyntax(syn) && NoNul(rest)
    ensures var v := NextValue(syn, rest);
            && (r.Ok? <==> v.value == Some("yes") || v.value == Some("no"))
            && (r.Ok? ==> (r.value.value <==> v.value == Some("yes")) && r.value.rest == v.rest)
            && (r.Err? ==> r.error == "yes/no expected")
  {
    var v := NextValue(syn, rest);
    if v.value.None? then Err("yes/no expected")
    else if v.value.value == "yes" then Ok(Step(true, v.rest))
    else if v.value.value == "no" then Ok(Step(false, v.rest))
    else Err("yes/no expected")
  }

  /** The checks `NextPositiveInteger` makes on its value, as written: the
      whole text is a numeral and `strtoul` gives something other than 0,
      which is then converted to `unsigned` (32 bits). */
  function PositiveValue(t: seq<char>): (r: Option<nat>)
    ensures r.Some? <==> IsNumeral(t) && Strtoul(t).0 != 0
    ensures r.Some? ==> r.value < TWO32
  {
    var (l, end) := Strtoul(t);
    StrtoulConsumesNumerals(t);
    Pow2Constants();
    if end == 0 || end != |t| || l == 0 then None else Some(Wrap(32, l))
  }

  /** `NextPositiveInteger` as written: a value that passes the checks
      above; anything else is the error "Positive integer expected". */
  function NextPositiveInteger(syn: Syntax, rest: seq<char>): (r: Result<Step<nat>, string>)
    requires ValidSyntax(syn) && NoNul(rest)
    ensures var v := NextValue(syn, rest);
            && (r.Ok? <==> v.value.Some? && IsNumeral(v.value.value) && Strtoul(v.value.value).0 != 0)
            && (r.Ok? ==> r.value.value < TWO32 && r.value.rest == v.rest)
            && (r.Err? ==> r.error == "Positive integer expected")
  {
    var v := NextValue(syn, rest);
    if v.value.None? then Err("Positive integer expected")
    else match PositiveValue(v.value.value)
      case None => Err("Positive integer expected")
      case Some(n) => Ok(Step(n, v.rest))
  }

  /** Every multiple of 2^32 that fits `unsigned long`, quoted, passes the
      checks of `NextPositiveInteger` and comes out as 0: the conversion to
      `unsigned` drops the high bits after the test for zero. */
  lemma PositiveIntegerCanBeZero(syn: Syntax, n: nat)
    requires ValidSyntax(syn) && syn.isQuote('"')
    requires 0 < n <= ULONG_MAX && n % TWO32 == 0
    ensures NoNul(['"'] + Digits(10, n) + ['"'])
    ensures NextPositiveInteger(syn, ['"'] + Digits(10, n) + ['"']) == Ok(Step(0, []))
  {
    var d := Digits(10, n);
    NumeralFacts(d, n);
    QuotedValue(syn, d, []);
    assert ['"'] + d + ['"'] + [] == ['"'] + d + ['"'];
    Pow2Constants();
    assert PositiveValue(d) == Some(0);
  }

  /** A quoted "-1" passes the checks of `NextPositiveInteger` and comes out
      as 4294967295: `strtoul` negates instead of rejecting the sign. */
  lemma PositiveIntegerAcceptsMinusOne(syn: Syntax)
    requires ValidSyntax(syn) && syn.isQuote('"')
    ensures NextPositiveInteger(syn, ['"', '-', '1', '"']) == Ok(Step(TWO32 - 1, []))
  {
    var t := ['-', '1'];
    assert ['"', '-', '1', '"'] == ['"'] + t + ['"'] + [];
    QuotedValue(syn, t, []);
    MinusOne();
  }

  lemma MinusOne()
    ensures PositiveValue(['-', '1']) == Some(TWO32 - 1)
  {
    var t := ['-', '1'];
    assert Span(IsSpace, t, 0) == 0;
    assert SignEnd(t, 0) == 1;
    assert Span(IsDecimal, t, 1) == 2;
    assert t[1..2] == ['1'];
    assert ValueOf(10, t[1..2]) == 1 by {
      assert t[1..2][..0] == [];
    }
    Pow2Constants();
    assert Strtoul(t) == (TWO64 - 1, 2);
    WrapAllOnes();
  }

  lemma WrapAllOnes()
    ensures Wrap(32, TWO64 - 1) == TWO32 - 1
  {
    Pow2Constants();
    assert TWO64 - 1 == (TWO32 - 1) * TWO32 + (TWO32 - 1);
    ModOfDecomposition(TWO64 - 1, TWO32, TWO32 - 1, TWO32 - 1);
  }

  /** The value check as evidently intended: a numeral without a minus sign
      whose value lies between 1 and `UINT_MAX`. */
  function CheckedValue(t: seq<char>): (r: Option<nat>)
    ensures r.Some? <==> IsNumeral(t) && '-' !in t && 0 < Strtoul(t).0 < TWO32
    ensures r.Some? ==> 0 < r.value < TWO32 && r.value == Strtoul(t).0
  {
    var (l, end) := Strtoul(t);
    StrtoulConsumesNumerals(t);
    if end == 0 || end != |t| || l == 0 || l >= TWO32 || '-' in t then None else Some(l)
  }

  /** The positive-integer parser as evidently intended. */
  function NextPositiveIntegerChecked(syn: Syntax, rest: seq<char>): (r: Result<Step<nat>, string>)
    requires ValidSyntax(syn) && NoNul(rest)
    ensures r.Ok? ==> 0 < r.value.value < TWO32
    ensures r.Err? ==> r.error == "Positive integer expected"
  {
    var v := NextValue(syn, rest);
    if v.value.None? then Err("Positive integer expected")
    else match CheckedValue(v.value.value)
      case None => Err("Positive integer expected")
      case Some(n) => Ok(Step(n, v.rest))
  }

  /** Where the intended check accepts, the source's check gives the same
      number. */
  lemma CheckedAgrees(t: seq<char>)
    requires CheckedValue(t).Some?
    ensures PositiveValue(t) == CheckedValue(t)
  {
    Pow2Constants();
    var l := Strtoul(t).0;
    assert Wrap(32, l) == l;
  }

  /** Every number from 1 to `UINT_MAX`, written in decimal between quotes,
      reads back as itself. */
  lemma CheckedRoundTrip(syn: Syntax, n: nat)
    requires ValidSyntax(syn) && syn.isQuote('"') && 0 < n < TWO32
    ensures NoNul(['"'] + Digits(10, n) + ['"'])
    ensures NextPositiveIntegerChecked(syn, ['"'] + Digits(10, n) + ['"']) == Ok(Step(n, []))
  {
    var d := Digits(10, n);
    NumeralFacts(d, n);
    QuotedValue(syn, d, []);
    assert ['"'] + d + ['"'] + [] == ['"'] + d + ['"'];
    assert CheckedValue(d) == Some(n);
  }

  /** `ExpectWord`. */
  function ExpectWord(syn: Syntax, rest: seq<char>): (r: Result<Step<seq<char>>, string>)
    requires ValidSyntax(syn)
    ensures r.Err? <==> NextWord(syn, rest).value.None?
    ensures r.Err? ==> r.error == "Word expected"
    ensures r.Ok? ==> |r.value.value| > 0 && Separates(rest, r.value.value, r.value.rest)
  {
    var w := NextWord(syn, rest);
    if w.value.None? then Err("Word expected") else Ok(Step(w.value.value, w.rest))
  }

  /** `ExpectValue`: a missing value and an empty one are errors. */
  function ExpectValue(syn: Syntax, rest: seq<char>): (r: Result<Step<seq<char>>, string>)
    requires ValidSyntax(syn) && NoNul(rest)
    ensures var v := NextValue(syn, rest);
            && (r.Ok? <==> v.value.Some? && |v.value.value| > 0)
            && (r.Ok? ==> v.value == Some(r.value.value) && r.value.rest == v.rest)
            && (r.Err? ==> r.error == if v.value.None? then "Value expected" else "Empty value not allowed")
  {
    var v := NextValue(syn, rest);
    if v.value.None? then Err("Value expected")
    else if |v.value.value| == 0 then Err("Empty value not allowed")
    else Ok(Step(v.value.value, v.rest))
  }

  /** A pair of quotes is a value, but an empty one. */
  lemma EmptyQuotesRejected(syn: Syntax, tail: seq<char>)
    requires ValidSyntax(syn) && syn.isQuote('"') && NoNul(tail)
    ensures ExpectValue(syn, ['"', '"'] + tail) == Err("Empty value not allowed")
  {
    assert ['"', '"'] + tail == ['"'] + [] + ['"'] + tail;
    QuotedValue(syn, [], tail);
  }

  /** `ExpectWordAndSymbol`: a word, optional blanks, then `symbol`, which
      is consumed together with the blanks after it.  No word is `error1`;
      a word not followed by the symbol is `error2`.  No `NoNul` is needed:
      the word stops at a NUL as in `NextWord`, and the blanks skipped
      after it never include one, so the symbol is compared with the same
      character the source compares. */
  function ExpectWordAndSymbol(syn: Syntax, rest: seq<char>, symbol: char, error1: seq<char>, error2: seq<char>)
    : (r: Result<Step<seq<char>>, seq<char>>)
    requires ValidSyntax(syn)
    ensures !syn.isWord(Front(rest)) ==> r == Err(error1)
    ensures syn.isWord(Front(rest)) ==>
              var n := Span(syn.isWord, rest, 0);
              var mid := StripLeft(rest[n..]);
              && (r.Ok? <==> |mid| > 0 && mid[0] == symbol)
              && (r.Err? ==> r.error == error2)
              && (r.Ok? ==> r.value.value == rest[..n] && Separates(mid[1..], [], r.value.rest))
  {
    if !syn.isWord(Front(rest)) then Err(error1)
    else
      var n := Span(syn.isWord, rest, 1);
      assert n == Span(syn.isWord, rest, 0);
      var mid := if n < |rest| && IsWhitespace(rest[n]) then StripLeft(rest[n + 1..]) else rest[n..];
      assert mid == StripLeft(rest[n..]);
      if |mid| == 0 || mid[0] != symbol then Err(error2)
      else
        StripLeftSeparates(mid[1..]);
        Ok(Step(rest[..n], StripLeft(mid[1..])))
  }
}
