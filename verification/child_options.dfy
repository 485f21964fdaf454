/** `ChildOptions::MakeId`: the identity string of a child process's options.
    Two option sets with the same id are treated as interchangeable, so the
    id must tell apart everything that matters about the child.

    The id is a run of tagged pieces, each present only when its option is
    set: ";u" and the octal umask, ";cd" and ";e" with the 8-hex-digit djb
    hash of the working directory and of the stderr path, 'j' and 'p' for
    a jailed or pond stderr, '$' and each environment entry, then the ids of
    the cgroup, resource-limit, namespace and uid/gid options, and last the
    flags ";en", ";fu", ";fm", ";fb" and ";n".

    The four nested option types are not part of this model: their ids are
    given as text (`None` for resource limits the options do not hold).
    The source writes into a caller's buffer and returns the position after
    the text; here the text itself is the result. */
module ChildOptions {
  import opened Wrappers
  import opened Words
  import opened Text
  import opened Numerals
  import DjbHash

  /** The trailing flags, in the order the id lists them. */
  datatype TrailingFlags = TrailingFlags(stderrNull: bool, forbidUserNs: bool, forbidMulticast: bool, forbidBind: bool, noNewPrivs: bool)

  datatype ChildOptions = ChildOptions(
    umask: I32,
    chdir: Option<seq<char>>,
    stderrPath: Option<seq<char>>,
    stderrJailed: bool,
    stderrPond: bool,
    env: seq<seq<char>>,
    cgroupId: seq<char>,
    rlimitsId: Option<seq<char>>,
    nsId: seq<char>,
    uidGidId: seq<char>,
    flags: TrailingFlags)

  /** `djb_hash_string` of a C string. */
  function HashOf(s: seq<char>): U32
  {
    DjbHash.Hash(BytesOf(CStr(s)))
  }

  /** `%08x`: eight lower-case hex digits that read back as `h`. */
  function Hex8(h: U32): (r: seq<char>)
    ensures |r| == 8 && AllDigits(16, r) && ValueOf(16, r) == h
  {
    SixteenToTheEighth();
    DigitsLength(16, h, 8);
    Padded(16, h, 8)
  }

  lemma SixteenToTheEighth()
    ensures Power(16, 8) == TWO32
  {
    assert Power(16, 2) == 256;
    assert Power(16, 4) == 65536 by {
      assert Power(16, 3) == 16 * Power(16, 2);
    }
    assert Power(16, 6) == 16 * Power(16, 5);
    assert Power(16, 8) == 16 * Power(16, 7);
  }

  /** ";u%o" when the umask is set (not negative). */
  function UmaskId(umask: I32): (r: seq<char>)
    ensures umask < 0 ==> r == []
    ensures umask >= 0 ==> |r| >= 3 && r[..2] == ";u" && AllDigits(8, r[2..]) && ValueOf(8, r[2..]) == umask
  {
    if umask >= 0 then
      DigitsRoundTrip(8, umask);
      assert (";u" + Digits(8, umask))[2..] == Digits(8, umask);
      ";u" + Digits(8, umask)
    else []
  }

  /** `tag` and the hash of a path that is set. */
  function PathId(tag: seq<char>, path: Option<seq<char>>): (r: seq<char>)
    ensures path.None? ==> r == []
    ensures path.Some? ==> |r| == |tag| + 8 && r[..|tag|] == tag
                           && AllDigits(16, r[|tag|..]) && ValueOf(16, r[|tag|..]) == HashOf(path.value)
  {
    match path
    case None => []
    case Some(p) =>
      assert (tag + Hex8(HashOf(p)))[|tag|..] == Hex8(HashOf(p));
      tag + Hex8(HashOf(p))
  }

  /** '$' and each entry up to its NUL, in order (`stpcpy`). */
  function EnvId(env: seq<seq<char>>): (r: seq<char>)
    ensures |env| > 0 ==> |r| > 0 && r[0] == '$'
    decreases |env|
  {
    if |env| == 0 then [] else ['$'] + CStr(env[0]) + EnvId(env[1..])
  }

  /** The ids of the nested options: cgroup, resource limits when present,
      namespaces, uid/gid. */
  function NestedId(o: ChildOptions): seq<char>
  {
    o.cgroupId + (if o.rlimitsId.Some? then o.rlimitsId.value else []) + o.nsId + o.uidGidId
  }

  function FlagId(on: bool, tag: seq<char>): seq<char>
  {
    if on then tag else []
  }

  /** The tags of the trailing flags, in order. */
  const TRAILER_TAGS: seq<seq<char>> := [";en", ";fu", ";fm", ";fb", ";n"]

  function Bits(f: TrailingFlags): (bs: seq<bool>)
  {
    [f.stderrNull, f.forbidUserNs, f.forbidMulticast, f.forbidBind, f.noNewPrivs]
  }

  /** Each tag whose bit is set, in order. */
  function Tagged(tags: seq<seq<char>>, bits: seq<bool>): seq<char>
    requires |tags| == |bits|
    decreases |tags|
  {
    if |tags| == 0 then [] else FlagId(bits[0], tags[0]) + Tagged(tags[1..], bits[1..])
  }

  /** The trailing flags as the id writes them. */
  function TrailerId(f: TrailingFlags): seq<char>
  {
    Tagged(TRAILER_TAGS, Bits(f))
  }

  /** What follows the stderr path: jail and pond marks, environment and
      nested ids. */
  function StderrRest(o: ChildOptions): seq<char>
  {
    FlagId(o.stderrJailed, "j") + FlagId(o.stderrPond, "p") + EnvId(o.env) + NestedId(o)
  }

  /** Everything after the umask and before the trailing flags. */
  function MiddleId(o: ChildOptions): seq<char>
  {
    PathId(";cd", o.chdir) + (PathId(";e", o.stderrPath) + StderrRest(o))
  }

  /** `ChildOptions::MakeId`. */
  function MakeId(o: ChildOptions): seq<char>
  {
    UmaskId(o.umask) + MiddleId(o) + TrailerId(o.flags)
  }

  // ------------------------------------------------------------ reading back

  /** Strips `tag` from the front of `s` when it is there. */
  function Take(tag: seq<char>, s: seq<char>): (r: (bool, seq<char>))
    ensures r.0 <==> IsPrefix(tag, s)
    ensures r.0 ==> s == tag + r.1
    ensures !r.0 ==> r.1 == s
  {
    if IsPrefix(tag, s) then
      assert s == s[..|tag|] + s[|tag|..];
      (true, s[|tag|..])
    else (false, s)
  }

  lemma TakeTagged(tag: seq<char>, on: bool, rest: seq<char>)
    requires !on ==> !IsPrefix(tag, rest)
    ensures Take(tag, FlagId(on, tag) + rest) == (on, rest)
  {
    if on {
      assert (tag + rest)[..|tag|] == tag;
    } else {
      assert FlagId(on, tag) + rest == rest;
    }
  }

  /** Reads the bits back: each tag in turn is set when the text goes on
      with it; `None` when text is left over. */
  function ReadTags(tags: seq<seq<char>>, s: seq<char>): (r: Option<seq<bool>>)
    ensures r.Some? ==> |r.value| == |tags|
    decreases |tags|
  {
    if |tags| == 0 then (if s == [] then Some([]) else None)
    else
      var t := Take(tags[0], s);
      match ReadTags(tags[1..], t.1)
      case None => None
      case Some(bs) => Some([t.0] + bs)
  }

  /** Reads trailing flags back from their text. */
  function ParseTrailer(s: seq<char>): (r: Option<TrailingFlags>)
  {
    match ReadTags(TRAILER_TAGS, s)
    case None => None
    case Some(bs) => Some(TrailingFlags(bs[0], bs[1], bs[2], bs[3], bs[4]))
  }

  /** Two tags that differ somewhere both have a character. */
  ghost predicate Apart(t: seq<char>, u: seq<char>)
  {
    exists k :: 0 <= k < |t| && k < |u| && t[k] != u[k]
  }

  /** No tag starts where a later one could. */
  ghost predicate Unambiguous(tags: seq<seq<char>>)
  {
    forall i, j :: 0 <= i < j < |tags| ==> Apart(tags[i], tags[j])
  }

  lemma TrailerTagsUnambiguous()
    ensures Unambiguous(TRAILER_TAGS)
  {
    var t := TRAILER_TAGS;
    assert t[0][1] != t[1][1] && t[0][1] != t[2][1] && t[0][1] != t[3][1] && t[0][1] != t[4][1];
    assert t[1][2] != t[2][2] && t[1][2] != t[3][2] && t[1][1] != t[4][1];
    assert t[2][2] != t[3][2] && t[2][1] != t[4][1];
    assert t[3][1] != t[4][1];
  }

  /** A tag apart from every tag of a tagged text does not start it. */
  lemma {:induction false} NotTagOf(t: seq<char>, tags: seq<seq<char>>, bits: seq<bool>)
    requires |t| > 0 && |tags| == |bits|
    requires forall j :: 0 <= j < |tags| ==> Apart(t, tags[j])
    ensures !IsPrefix(t, Tagged(tags, bits))
    decreases |tags|
  {
    if |tags| > 0 {
      if bits[0] {
        var k :| 0 <= k < |t| && k < |tags[0]| && t[k] != tags[0][k];
        var s := Tagged(tags, bits);
        assert s[k] == tags[0][k];
      } else {
        NotTagOf(t, tags[1..], bits[1..]);
      }
    }
  }

  /** Tagged text reads back as its bits. */
  lemma {:induction false} ReadTagged(tags: seq<seq<char>>, bits: seq<bool>)
    requires |tags| == |bits| && Unambiguous(tags)
    requires forall i :: 0 <= i < |tags| ==> |tags[i]| > 0
    ensures ReadTags(tags, Tagged(tags, bits)) == Some(bits)
    decreases |tags|
  {
    if |tags| > 0 {
      var rest := Tagged(tags[1..], bits[1..]);
      assert forall i, j :: 0 <= i < j < |tags[1..]| ==> tags[1..][i] == tags[i + 1] && tags[1..][j] == tags[j + 1];
      ReadTagged(tags[1..], bits[1..]);
      if !bits[0] {
        assert forall j :: 0 <= j < |tags[1..]| ==> tags[1..][j] == tags[j + 1];
        NotTagOf(tags[0], tags[1..], bits[1..]);
      }
      TakeTagged(tags[0], bits[0], rest);
      assert [bits[0]] + bits[1..] == bits;
    }
  }

  /** Text that reads back as bits is their tagged text. */
  lemma {:induction false} TaggedRead(tags: seq<seq<char>>, s: seq<char>)
    requires ReadTags(tags, s).Some?
    ensures Tagged(tags, ReadTags(tags, s).value) == s
    decreases |tags|
  {
    if |tags| > 0 {
      var t := Take(tags[0], s);
      var bs := ReadTags(tags, s).value;
      TaggedRead(tags[1..], t.1);
      assert bs[1..] == ReadTags(tags[1..], t.1).value;
    }
  }

  /** The flags' text reads back as the flags. */
  lemma TrailerRoundTrip(f: TrailingFlags)
    ensures ParseTrailer(TrailerId(f)) == Some(f)
  {
    TrailerTagsUnambiguous();
    ReadTagged(TRAILER_TAGS, Bits(f));
  }

  /** Text that reads back as flags is their text. */
  lemma TrailerParsed(s: seq<char>)
    requires ParseTrailer(s).Some?
    ensures TrailerId(ParseTrailer(s).value) == s
  {
    TaggedRead(TRAILER_TAGS, s);
    var bs := ReadTags(TRAILER_TAGS, s).value;
    BitsOf(bs);
  }

  lemma BitsOf(bs: seq<bool>)
    requires |bs| == 5
    ensures Bits(TrailingFlags(bs[0], bs[1], bs[2], bs[3], bs[4])) == bs
  {
  }

  // ------------------------------------------------------------ what an id tells apart

  lemma CancelFront(a: seq<char>, x: seq<char>, y: seq<char>)
    requires a + x == a + y
    ensures x == y
  {
    assert x == (a + x)[|a|..];
  }

  lemma CancelBack(x: seq<char>, y: seq<char>, b: seq<char>)
    requires x + b == y + b
    ensures x == y
  {
    assert x == (x + b)[..|x|];
    assert y == (y + b)[..|y|];
  }

  /** Options that differ at most in the umask and share an id agree on
      whether a umask is set and, if so, on its value. */
  lemma IdDeterminesUmask(o1: ChildOptions, o2: ChildOptions)
    requires o2 == o1.(umask := o2.umask) && MakeId(o1) == MakeId(o2)
    ensures o1.umask >= 0 <==> o2.umask >= 0
    ensures o1.umask >= 0 ==> o1.umask == o2.umask
  {
    assert MiddleId(o1) == MiddleId(o2) && o1.flags == o2.flags;
    CancelBack(UmaskId(o1.umask) + MiddleId(o1), UmaskId(o2.umask) + MiddleId(o1), TrailerId(o1.flags));
    CancelBack(UmaskId(o1.umask), UmaskId(o2.umask), MiddleId(o1));
  }

  /** Options that differ at most in the working directory and share an id
      agree on whether it is set and, if so, on its hash. */
  lemma IdDeterminesChdirHash(o1: ChildOptions, o2: ChildOptions)
    requires o2 == o1.(chdir := o2.chdir) && MakeId(o1) == MakeId(o2)
    ensures o1.chdir.Some? <==> o2.chdir.Some?
    ensures o1.chdir.Some? ==> HashOf(o1.chdir.value) == HashOf(o2.chdir.value)
  {
    var rest := PathId(";e", o1.stderrPath) + StderrRest(o1);
    assert rest == PathId(";e", o2.stderrPath) + StderrRest(o2);
    CancelBack(UmaskId(o1.umask) + MiddleId(o1), UmaskId(o1.umask) + MiddleId(o2), TrailerId(o1.flags));
    CancelFront(UmaskId(o1.umask), MiddleId(o1), MiddleId(o2));
    CancelBack(PathId(";cd", o1.chdir), PathId(";cd", o2.chdir), rest);
  }

  /** The same for the stderr path. */
  lemma IdDeterminesStderrHash(o1: ChildOptions, o2: ChildOptions)
    requires o2 == o1.(stderrPath := o2.stderrPath) && MakeId(o1) == MakeId(o2)
    ensures o1.stderrPath.Some? <==> o2.stderrPath.Some?
    ensures o1.stderrPath.Some? ==> HashOf(o1.stderrPath.value) == HashOf(o2.stderrPath.value)
  {
    var cd := PathId(";cd", o1.chdir);
    assert StderrRest(o1) == StderrRest(o2);
    CancelBack(UmaskId(o1.umask) + MiddleId(o1), UmaskId(o1.umask) + MiddleId(o2), TrailerId(o1.flags));
    CancelFront(UmaskId(o1.umask), MiddleId(o1), MiddleId(o2));
    CancelFront(cd, PathId(";e", o1.stderrPath) + StderrRest(o1), PathId(";e", o2.stderrPath) + StderrRest(o1));
    CancelBack(PathId(";e", o1.stderrPath), PathId(";e", o2.stderrPath), StderrRest(o1));
  }

  /** Options that differ at most in the trailing flags and share an id
      have the same flags. */
  lemma IdDeterminesFlags(o1: ChildOptions, o2: ChildOptions)
    requires o2 == o1.(flags := o2.flags) && MakeId(o1) == MakeId(o2)
    ensures o1.flags == o2.flags
  {
    assert MiddleId(o1) == MiddleId(o2);
    CancelFront(UmaskId(o1.umask) + MiddleId(o1), TrailerId(o1.flags), TrailerId(o2.flags));
    TrailerRoundTrip(o1.flags);
    TrailerRoundTrip(o2.flags);
  }

  /** The environment is not told apart entry by entry: an entry holding
      '$' gives the same id as the two entries around it. */
  lemma EnvEntriesRun(a: seq<char>, b: seq<char>)
    requires '\0' !in a && '\0' !in b
    ensures EnvId([a + ['$'] + b]) == EnvId([a, b])
  {
    var ab := a + ['$'] + b;
    CStrWhole(a);
    CStrWhole(b);
    assert '\0' !in ab;
    CStrWhole(ab);
    assert EnvId([ab]) == ['$'] + ab + EnvId([]);
    assert EnvId([b]) == ['$'] + b + EnvId([]);
    assert [a, b][1..] == [b];
    assert EnvId([a, b]) == ['$'] + a + EnvId([b]);
  }
}
