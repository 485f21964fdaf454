/** `AnonymizeAddress`: hide the host part of a textual IP address by string
    surgery.  The result is a prefix of the address and a short suffix to
    write after it: an IPv4 address loses its last octet ("0" replaces it),
    an IPv6 address is cut after its first 40 bits. */
module Anonymize {
  import opened Wrappers
  import opened Text

  predicate IsDigitAscii(c: char)
  {
    '0' <= c <= '9'
  }

  predicate IsHexDigit(c: char)
  {
    IsDigitAscii(c) || 'a' <= c <= 'f' || 'A' <= c <= 'F'
  }

  predicate IsHexOrColon(c: char)
  {
    IsHexDigit(c) || c == ':'
  }

  /** Two dots in the text. */
  ghost predicate HasTwoDots(v: seq<char>)
  {
    exists i, j :: 0 <= i < j < |v| && v[i] == '.' && v[j] == '.'
  }

  /** The IPv4 shape: a '.' somewhere, and a digit at both ends. */
  predicate LooksLikeIPv4(v: seq<char>)
  {
    '.' in v && IsDigitAscii(v[0]) && IsDigitAscii(v[|v| - 1])
  }

  /** The IPv6 shape: a ':' somewhere, and a hex digit or ':' at both ends. */
  predicate LooksLikeIPv6(v: seq<char>)
  {
    ':' in v && IsHexOrColon(v[0]) && IsHexOrColon(v[|v| - 1])
  }

  /** The position after the last '.', when a '.' follows the first one. */
  function IPv4Cut(value: seq<char>): (r: Option<nat>)
    requires '.' in value
    ensures r.None? <==> !HasTwoDots(value)
    ensures r.Some? ==> 0 < r.value <= |value| && value[r.value - 1] == '.' && '.' !in value[r.value..]
  {
    var first := IndexOf(value, '.').value;
    var rest := value[first + 1..];
    match LastIndexOf(rest, '.')
    case None =>
      assert !HasTwoDots(value) by {
        forall i, j | 0 <= i < j < |value| && value[i] == '.'
          ensures value[j] != '.'
        {
          assert rest[j - first - 1] == value[j];
        }
      }
      None
    case Some(q) =>
      assert value[first] == '.' && value[first + 1 + q] == '.';
      assert value[first + 1 + q + 1..] == rest[q + 1..];
      Some(first + 1 + q + 1)
  }

  /** The IPv6 branch, once the first ':' is known to be at `colon`: cut
      after a "::" that starts there, keep an address of two groups, and
      otherwise clear the low 8 bits of the third group. */
  function IPv6Cut(value: seq<char>, colon: nat): (r: (seq<char>, seq<char>))
    requires colon < |value| && value[colon] == ':'
    ensures IsPrefix(r.0, value) && |r.0| > colon
  {
    var start := colon + 1;
    var k := GroupLength(value[start..]);
    if k == |value| - start then (value, [])
    else if k == 0 then (value[..start + 1], [])
    else
      var third := start + k + 1;
      var seg := GroupLength(value[third..]);
      if seg > 2 then (value[..third + seg - 2], "00::") else (value[..third], ":")
  }

  /** The length of the group a text starts with: up to the first ':', or
      all of it. */
  function GroupLength(s: seq<char>): (n: nat)
    ensures n <= |s| && ':' !in s[..n] && (n < |s| ==> s[n] == ':')
  {
    match IndexOf(s, ':')
    case Some(e) => e
    case None =>
      assert s[..|s|] == s;
      |s|
  }

  lemma GroupLengthIs(s: seq<char>, n: nat)
    requires n <= |s| && ':' !in s[..n] && (n < |s| ==> s[n] == ':')
    ensures GroupLength(s) == n
  {
    if n < |s| {
      IndexOfAt(s, ':', n);
    } else {
      assert s[..n] == s;
    }
  }

  /** `AnonymizeAddress`: the kept prefix of `value` and the suffix that
      follows it. */
  function AnonymizeAddress(value: seq<char>): (r: (seq<char>, seq<char>))
    ensures IsPrefix(r.0, value)
    ensures r.1 in {"0", "", "00::", ":"}
  {
    var v4 := if LooksLikeIPv4(value) then IPv4Cut(value) else None;
    if v4.Some? then (value[..v4.value], "0")
    else if LooksLikeIPv6(value) then IPv6Cut(value, IndexOf(value, ':').value)
    else (value, [])
  }

  /** "0" is appended exactly to dotted addresses: a digit at both ends and
      at least two dots. */
  lemma IPv4Exactly(value: seq<char>)
    ensures AnonymizeAddress(value).1 == "0" <==> LooksLikeIPv4(value) && HasTwoDots(value)
  {
  }

  /** An address of neither shape comes back unchanged, with nothing
      appended. */
  lemma Unrecognized(value: seq<char>)
    requires !(LooksLikeIPv4(value) && HasTwoDots(value)) && !LooksLikeIPv6(value)
    ensures AnonymizeAddress(value) == (value, [])
  {
  }

  /** A dotted address with a digit at both ends and at least two dots keeps
      everything through its last '.', and "0" replaces the rest. */
  lemma IPv4LastOctet(value: seq<char>, i: nat, j: nat)
    requires i < j < |value| && value[i] == '.' && value[j] == '.'
    requires IsDigitAscii(value[0]) && IsDigitAscii(value[|value| - 1])
    ensures var r := AnonymizeAddress(value);
            && r.1 == "0" && j < |r.0|
            && r.0[|r.0| - 1] == '.' && '.' !in value[|r.0|..]
  {
  }

  /** The first ':' at `i` and a second one right after it: the address is
      cut just after that "::" and nothing is appended. */
  lemma IPv6DoubleColon(value: seq<char>, i: nat)
    requires i + 1 < |value| && value[i] == ':' && value[i + 1] == ':' && ':' !in value[..i]
    requires LooksLikeIPv6(value) && !(LooksLikeIPv4(value) && HasTwoDots(value))
    ensures AnonymizeAddress(value) == (value[..i + 2], [])
  {
    IndexOfAt(value, ':', i);
    IPv6Branch(value);
    assert value[i + 1..][..0] == [];
    GroupLengthIs(value[i + 1..], 0);
  }

  /** An IPv6 address of two groups (one ':') comes back unchanged. */
  lemma IPv6TwoGroups(value: seq<char>, c: nat)
    requires c < |value| && value[c] == ':' && ':' !in value[..c] && ':' !in value[c + 1..]
    requires LooksLikeIPv6(value) && !(LooksLikeIPv4(value) && HasTwoDots(value))
    ensures AnonymizeAddress(value) == (value, [])
  {
    IndexOfAt(value, ':', c);
    IPv6Branch(value);
    assert value[c + 1..][..|value| - c - 1] == value[c + 1..];
    GroupLengthIs(value[c + 1..], |value| - c - 1);
  }

  /** An address of the IPv6 shape that is not a dotted IPv4 address takes
      the IPv6 branch, also when it ends in an embedded IPv4 address. */
  lemma IPv6Branch(value: seq<char>)
    requires LooksLikeIPv6(value) && !(LooksLikeIPv4(value) && HasTwoDots(value))
    ensures AnonymizeAddress(value) == IPv6Cut(value, IndexOf(value, ':').value)
  {
  }

  /** With three or more groups, a third group longer than two characters
      loses its last two and "00::" follows; a shorter one is dropped and
      ":" follows the second ':'.  The first ':' is at `c1`, the second at
      `c2` with a non-empty group between them, and the third group, up to
      the next ':' or the end, is `seg` long. */
  lemma IPv6ThirdGroup(value: seq<char>, c1: nat, c2: nat, seg: nat)
    requires c1 + 1 < c2 < |value| && value[c1] == ':' && value[c2] == ':'
    requires ':' !in value[..c1] && ':' !in value[c1 + 1..c2]
    requires c2 + 1 + seg <= |value| && ':' !in value[c2 + 1..c2 + 1 + seg]
    requires c2 + 1 + seg == |value| || value[c2 + 1 + seg] == ':'
    requires LooksLikeIPv6(value) && !(LooksLikeIPv4(value) && HasTwoDots(value))
    ensures AnonymizeAddress(value) ==
              if seg > 2 then (value[..c2 + seg - 1], "00::") else (value[..c2 + 1], ":")
  {
    IPv6BranchAt(value, c1);
    CutThird(value, c1, c2, seg);
  }

  /** The IPv6 branch cuts from the first ':'. */
  lemma IPv6BranchAt(value: seq<char>, c: nat)
    requires c < |value| && value[c] == ':' && ':' !in value[..c]
    requires LooksLikeIPv6(value) && !(LooksLikeIPv4(value) && HasTwoDots(value))
    ensures AnonymizeAddress(value) == IPv6Cut(value, c)
  {
    IndexOfAt(value, ':', c);
    IPv6Branch(value);
  }

  lemma CutThird(value: seq<char>, c1: nat, c2: nat, seg: nat)
    requires c1 + 1 < c2 < |value| && value[c1] == ':' && value[c2] == ':'
    requires ':' !in value[c1 + 1..c2]
    requires c2 + 1 + seg <= |value| && ':' !in value[c2 + 1..c2 + 1 + seg]
    requires c2 + 1 + seg == |value| || value[c2 + 1 + seg] == ':'
    ensures IPv6Cut(value, c1) ==
              if seg > 2 then (value[..c2 + seg - 1], "00::") else (value[..c2 + 1], ":")
  {
    assert GroupLength(value[c1 + 1..]) == c2 - c1 - 1 by {
      GroupAt(value, c1 + 1, c2);
    }
    assert GroupLength(value[c2 + 1..]) == seg by {
      GroupAt(value, c2 + 1, c2 + 1 + seg);
    }
    if seg > 2 {
      CutLongThird(value, c1, c2, seg);
    } else {
      CutShortThird(value, c1, c2, seg);
    }
  }

  lemma Take(head: seq<char>, g: seq<char>, tail: seq<char>)
    ensures (head + g + tail)[..|head|] == head && (head + g + tail)[|head|..] == g + tail
  {
  }

  lemma TakeInto(head: seq<char>, g: seq<char>, tail: seq<char>, k: nat)
    requires k <= |g|
    ensures (head + g + tail)[..|head| + k] == head + g[..k]
  {
  }

  /** The group that starts at `from` ends at `to`. */
  lemma GroupAt(value: seq<char>, from: nat, to: nat)
    requires from <= to <= |value| && ':' !in value[from..to]
    requires to == |value| || value[to] == ':'
    ensures GroupLength(value[from..]) == to - from
  {
    var s := value[from..];
    assert s[..to - from] == value[from..to];
    GroupLengthIs(s, to - from);
  }

  lemma CutLongThird(value: seq<char>, c1: nat, c2: nat, seg: nat)
    requires c1 + 1 < c2 < |value| && value[c1] == ':'
    requires GroupLength(value[c1 + 1..]) == c2 - c1 - 1
    requires c2 + 1 + seg <= |value| && seg > 2
    requires GroupLength(value[c2 + 1..]) == seg
    ensures IPv6Cut(value, c1) == (value[..c2 + seg - 1], "00::")
  {
  }

  lemma CutShortThird(value: seq<char>, c1: nat, c2: nat, seg: nat)
    requires c1 + 1 < c2 < |value| && value[c1] == ':'
    requires GroupLength(value[c1 + 1..]) == c2 - c1 - 1
    requires c2 + 1 + seg <= |value| && seg <= 2
    requires GroupLength(value[c2 + 1..]) == seg
    ensures IPv6Cut(value, c1) == (value[..c2 + 1], ":")
  {
  }

  /** The same, for an address written as groups: `g1:g2:g3` and then
      nothing or more groups. */
  lemma IPv6Groups(g1: seq<char>, g2: seq<char>, g3: seq<char>, tail: seq<char>)
    requires ':' !in g1 && ':' !in g2 && ':' !in g3 && |g2| > 0
    requires |tail| == 0 || tail[0] == ':'
    requires var value := g1 + [':'] + g2 + [':'] + g3 + tail;
             LooksLikeIPv6(value) && !(LooksLikeIPv4(value) && HasTwoDots(value))
    ensures var head := g1 + [':'] + g2 + [':'];
            AnonymizeAddress(head + g3 + tail) ==
              if |g3| > 2 then (head + g3[..|g3| - 2], "00::") else (head, ":")
  {
    var head := g1 + [':'] + g2 + [':'];
    var value := head + g3 + tail;
    GroupsLayout(g1, g2, g3, tail, head, value);
    IPv6GroupsAt(value, head, g3, |g1|, |g1| + 1 + |g2|);
  }

  /** The third group decides the cut, stated with the head named. */
  lemma IPv6GroupsAt(value: seq<char>, head: seq<char>, g3: seq<char>, c1: nat, c2: nat)
    requires c1 + 1 < c2 < |value| && value[c1] == ':' && value[c2] == ':'
    requires ':' !in value[..c1] && ':' !in value[c1 + 1..c2]
    requires c2 + 1 + |g3| <= |value| && ':' !in value[c2 + 1..c2 + 1 + |g3|]
    requires c2 + 1 + |g3| == |value| || value[c2 + 1 + |g3|] == ':'
    requires value[..c2 + 1] == head
    requires |g3| > 2 ==> value[..c2 + |g3| - 1] == head + g3[..|g3| - 2]
    requires LooksLikeIPv6(value) && !(LooksLikeIPv4(value) && HasTwoDots(value))
    ensures AnonymizeAddress(value) ==
              if |g3| > 2 then (head + g3[..|g3| - 2], "00::") else (head, ":")
  {
    IPv6ThirdGroup(value, c1, c2, |g3|);
  }

  /** Where the colons and groups of `g1:g2:g3` followed by `tail` are. */
  lemma GroupsLayout(g1: seq<char>, g2: seq<char>, g3: seq<char>, tail: seq<char>, head: seq<char>, value: seq<char>)
    requires ':' !in g1 && ':' !in g2 && ':' !in g3
    requires |tail| == 0 || tail[0] == ':'
    requires head == g1 + [':'] + g2 + [':'] && value == head + g3 + tail
    ensures var c1 := |g1|;
            var c2 := |g1| + 1 + |g2|;
            var seg := |g3|;
            && c2 + 1 + seg <= |value| && value[c1] == ':' && value[c2] == ':' && value[..c2 + 1] == head
            && ':' !in value[..c1] && ':' !in value[c1 + 1..c2] && ':' !in value[c2 + 1..c2 + 1 + seg]
            && (c2 + 1 + seg == |value| || value[c2 + 1 + seg] == ':')
            && (seg > 2 ==> value[..c2 + seg - 1] == head + g3[..seg - 2])
  {
    var c1 := |g1|;
    var c2 := |g1| + 1 + |g2|;
    var seg := |g3|;
    assert value[..c2 + 1] == head && value[c2 + 1..] == g3 + tail by {
      Take(head, g3, tail);
    }
    assert value[..c1] == g1 && value[c1 + 1..c2] == g2 by {
      assert head[..c1] == g1 && head[c1 + 1..c2] == g2;
    }
    assert value[c2 + 1..c2 + 1 + seg] == g3 by {
      assert (g3 + tail)[..seg] == g3;
    }
    if seg > 2 {
      TakeInto(head, g3, tail, seg - 2);
    }
  }

  /** An IPv4-mapped IPv6 address starts with "::", so only that is kept,
      whatever the embedded IPv4 address is. */
  lemma IPv4Mapped(v4: seq<char>)
    requires |v4| > 0 && IsHexOrColon(v4[|v4| - 1])
    ensures AnonymizeAddress("::ffff:" + v4) == ("::", [])
  {
    var value := "::ffff:" + v4;
    assert value[0] == ':' && value[1] == ':';
    assert value[..0] == [];
    IPv6DoubleColon(value, 0);
    assert value[..2] == "::";
  }
}
