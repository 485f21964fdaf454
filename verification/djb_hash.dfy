/** D. J. Bernstein's cdb hash (http://cr.yp.to/cdb/cdb.txt): start at 5381,
    then for every octet `h = (h * 33) xor octet`, modulo 2^32.

    The source keeps the running hash in `uint_fast32_t` (64 bits wide on
    LP64 glibc) and truncates to `uint32_t` on return. */
module DjbHash {
  import opened Words

  const INIT: nat := 5381

  /** `djb_hash_update` in `uint_fast32_t`. */
  function Update(hash: nat, b: Byte): (r: nat)
    ensures r < FAST32
    ensures r % TWO32 == Step(hash % TWO32, b)
  {
    var v := hash * 33 % FAST32;
    MulMod(hash, 33, FAST32, TWO32);
    XorByteMod(v, b, TWO32);
    XorByteBelow(v, b, FAST32);
    Xor(v, b)
  }

  /** Reference definition: one step in exact 32-bit arithmetic. */
  function Step(hash: nat, b: Byte): U32
  {
    XorByteBelow(hash * 33 % TWO32, b, TWO32);
    Xor(hash * 33 % TWO32, b)
  }

  /** The reference hash of an octet sequence from a given state. */
  function Fold(hash: nat, bytes: seq<Byte>): nat
    decreases |bytes|
  {
    if |bytes| == 0 then hash else Fold(Step(hash, bytes[0]), bytes[1..])
  }

  function Hash(bytes: seq<Byte>): U32
  {
    FoldBounded(INIT, bytes);
    Fold(INIT, bytes)
  }

  lemma {:induction false} FoldBounded(hash: U32, bytes: seq<Byte>)
    ensures Fold(hash, bytes) < TWO32
    decreases |bytes|
  {
    if |bytes| > 0 {
      FoldBounded(Step(hash, bytes[0]), bytes[1..]);
    }
  }

  /** Incrementality: hashing `a + b` continues from the state after `a`. */
  lemma {:induction false} FoldAppend(hash: nat, a: seq<Byte>, b: seq<Byte>)
    ensures Fold(hash, a + b) == Fold(Fold(hash, a), b)
    decreases |a|
  {
    if |a| > 0 {
      assert (a + b)[1..] == a[1..] + b;
      FoldAppend(Step(hash, a[0]), a[1..], b);
    } else {
      assert a + b == b;
    }
  }

  lemma HashIncremental(a: seq<Byte>, b: seq<Byte>)
    ensures Hash(a + b) == Fold(Fold(INIT, a), b)
  {
    FoldAppend(INIT, a, b);
  }

  /** The hash of no octets is 5381. */
  lemma EmptyHash()
    ensures Hash([]) == 5381
  {
  }

  /** `djb_hash`: the loop over `size` octets in `uint_fast32_t`, truncated
      on return.  It equals the exact 32-bit hash. */
  method DjbHash(p: seq<Byte>) returns (r: U32)
    ensures r == Hash(p)
  {
    var hash: nat := INIT;
    var i := 0;
    while i != |p|
      invariant i <= |p|
      invariant hash % TWO32 == Fold(INIT, p[..i])
    {
      FoldAppend(INIT, p[..i], [p[i]]);
      assert p[..i + 1] == p[..i] + [p[i]];
      hash := Update(hash, p[i]);
      i := i + 1;
    }
    assert p[..i] == p;
    r := hash % TWO32;
  }

  /** `djb_hash_string`: the same loop, stopped by the first NUL.  It equals
      `djb_hash` of the octets before the NUL, i.e. `djb_hash(s, strlen(s))`. */
  method DjbHashString(s: seq<char>) returns (r: U32)
    ensures r == Hash(BytesOf(CStr(s)))
  {
    var hash: nat := INIT;
    var i := 0;
    while i < |s| && s[i] != '\0'
      invariant i <= |CStr(s)|
      invariant CStr(s)[..i] == s[..i]
      invariant hash % TWO32 == Fold(INIT, BytesOf(s[..i]))
    {
      FoldAppend(INIT, BytesOf(s[..i]), [ByteOf(s[i])]);
      assert BytesOf(s[..i + 1]) == BytesOf(s[..i]) + [ByteOf(s[i])];
      hash := Update(hash, ByteOf(s[i]));
      i := i + 1;
    }
    assert s[..i] == CStr(s);
    r := hash % TWO32;
  }
}
