/** The Fowler-Noll-Vo FNV-1a hash (section 2 of the IETF draft
    draft-eastlake-fnv) with the 32-bit and 64-bit parameters, and the XOR
    folding of a 64-bit hash to 32 bits (section 3 of the same draft).

    The source keeps the running hash in the "fast" unsigned type, which may
    be wider than the hash itself, and narrows only when it returns; the
    model does the same and proves it equal to reducing after every step. */
module FnvHash {
  import opened Words

  /** The `FNVTraits` specialisations: modulus of `value_type`, modulus of
      `fast_type`, offset basis and prime. */
  datatype Traits = Traits(modulus: nat, fastModulus: nat, offsetBasis: nat, prime: nat)

  const FNV32: Traits := Traits(TWO32, FAST32, 2166136261, 16777619)
  const FNV64: Traits := Traits(TWO64, FAST64, 14695981039346656037, 1099511628211)

  /** What the algorithm needs of a traits class: the value type is at least a
      byte wide, the fast type is a whole multiple of it, and the offset basis
      is a value of the value type. */
  predicate ValidTraits(t: Traits)
  {
    && t.modulus > 0 && t.modulus % TWO8 == 0
    && t.fastModulus > 0 && t.fastModulus % t.modulus == 0
    && t.offsetBasis < t.modulus
  }

  lemma StandardTraitsValid()
    ensures ValidTraits(FNV32) && ValidTraits(FNV64)
  {
  }

  /** `FNV1aAlgorithm::Update`, computed in `fast_type`.  Its residue modulo
      the value type is one FNV-1a step on the narrowed hash. */
  function Update(t: Traits, hash: nat, b: Byte): (r: nat)
    requires ValidTraits(t)
    ensures r < t.fastModulus
    ensures r % t.modulus == Xor(hash % t.modulus, b) * t.prime % t.modulus
  {
    var x := Xor(hash, b);
    MulMod(x, t.prime, t.fastModulus, t.modulus);
    XorByteMod(hash, b, t.modulus);
    x * t.prime % t.fastModulus
  }

  /** Reference definition: one FNV-1a step in exact `value_type` arithmetic,
      `(hash xor octet) * prime mod 2^N`. */
  function Step(t: Traits, hash: nat, b: Byte): nat
    requires ValidTraits(t)
  {
    Xor(hash, b) * t.prime % t.modulus
  }

  /** The loop of `BinaryHash` / `StringHash` in `fast_type`. */
  function FastFold(t: Traits, hash: nat, bytes: seq<Byte>): nat
    requires ValidTraits(t)
    decreases |bytes|
  {
    if |bytes| == 0 then hash else FastFold(t, Update(t, hash, bytes[0]), bytes[1..])
  }

  /** Reference fold: every step reduced modulo 2^N. */
  function Fold(t: Traits, hash: nat, bytes: seq<Byte>): nat
    requires ValidTraits(t)
    decreases |bytes|
  {
    if |bytes| == 0 then hash else Fold(t, Step(t, hash, bytes[0]), bytes[1..])
  }

  /** Computing in the wider fast type and narrowing at the end equals
      reducing modulo the value type at every step. */
  lemma {:induction false} FastFoldNarrows(t: Traits, hash: nat, bytes: seq<Byte>)
    requires ValidTraits(t)
    ensures FastFold(t, hash, bytes) % t.modulus == Fold(t, hash % t.modulus, bytes) % t.modulus
    decreases |bytes|
  {
    if |bytes| > 0 {
      var h' := Update(t, hash, bytes[0]);
      FastFoldNarrows(t, h', bytes[1..]);
      assert h' % t.modulus == Step(t, hash % t.modulus, bytes[0]);
      ModMod(h', t.modulus, t.modulus);
    } else {
      ModMod(hash, t.modulus, t.modulus);
    }
  }

  /** Hashing a concatenation continues from the state the first part
      reached. */
  lemma {:induction false} FoldAppend(t: Traits, hash: nat, a: seq<Byte>, b: seq<Byte>)
    requires ValidTraits(t)
    ensures Fold(t, hash, a + b) == Fold(t, Fold(t, hash, a), b)
    decreases |a|
  {
    if |a| > 0 {
      assert (a + b)[1..] == a[1..] + b;
      FoldAppend(t, Step(t, hash, a[0]), a[1..], b);
    } else {
      assert a + b == b;
    }
  }

  lemma {:induction false} FoldBounded(t: Traits, hash: nat, bytes: seq<Byte>)
    requires ValidTraits(t) && hash < t.modulus
    ensures Fold(t, hash, bytes) < t.modulus
    decreases |bytes|
  {
    if |bytes| > 0 {
      FoldBounded(t, Step(t, hash, bytes[0]), bytes[1..]);
    }
  }

  /** `FNV1aAlgorithm::BinaryHash`: the fold in `fast_type`, narrowed on
      return.  It is the exact FNV-1a hash of the octets. */
  function BinaryHash(t: Traits, bytes: seq<Byte>): (r: nat)
    requires ValidTraits(t)
    ensures r < t.modulus
    ensures r == Fold(t, t.offsetBasis, bytes)
  {
    FastFoldNarrows(t, t.offsetBasis, bytes);
    FoldBounded(t, t.offsetBasis, bytes);
    ModOfDecomposition(t.offsetBasis, t.modulus, 0, t.offsetBasis);
    var f := Fold(t, t.offsetBasis, bytes);
    ModOfDecomposition(f, t.modulus, 0, f);
    FastFold(t, t.offsetBasis, bytes) % t.modulus
  }

  /** The hash of no octets is the offset basis. */
  lemma EmptyHashIsOffsetBasis()
    ensures BinaryHash(FNV32, []) == 2166136261
    ensures BinaryHash(FNV64, []) == 14695981039346656037
  {
    StandardTraitsValid();
  }

  /** The hash of `a + b` is the fold over `b` from the state reached after
      `a`. */
  lemma HashIncremental(t: Traits, a: seq<Byte>, b: seq<Byte>)
    requires ValidTraits(t)
    ensures BinaryHash(t, a + b) == Fold(t, Fold(t, t.offsetBasis, a), b)
  {
    FoldAppend(t, t.offsetBasis, a, b);
  }

  /** `FNV1aAlgorithm::StringHash`: walks the C string until its NUL, with
      the running hash in `fast_type`.  It equals `BinaryHash` of the octets
      before the NUL. */
  method StringHash(t: Traits, s: seq<char>) returns (r: nat)
    requires ValidTraits(t)
    ensures r == BinaryHash(t, BytesOf(CStr(s)))
  {
    var hash: nat := t.offsetBasis;
    var i := 0;
    while i < |s| && s[i] != '\0'
      invariant i <= |CStr(s)|
      invariant hash % t.modulus == Fold(t, t.offsetBasis, BytesOf(s[..i]))
      invariant CStr(s)[..i] == s[..i]
    {
      FoldAppend(t, t.offsetBasis, BytesOf(s[..i]), [ByteOf(s[i])]);
      assert BytesOf(s[..i + 1]) == BytesOf(s[..i]) + [ByteOf(s[i])];
      hash := Update(t, hash, ByteOf(s[i]));
      i := i + 1;
    }
    assert s[..i] == CStr(s);
    FoldBounded(t, t.offsetBasis, BytesOf(s[..i]));
    r := hash % t.modulus;
  }

  /** `FNV1aHash64` of a C string followed by XOR folding: the low and the
      high 32 bits combined with xor. */
  method HashFold32(s: seq<char>) returns (r: U32)
    ensures var h := BinaryHash(FNV64, BytesOf(CStr(s)));
            Xor32(r, h % TWO32) == h / TWO32
  {
    StandardTraitsValid();
    var h64 := StringHash(FNV64, s);
    var lo: U32 := h64 % TWO32;
    var hi: U32 := h64 / TWO32;
    r := Xor32(lo, hi);
    XorCancels(lo, hi);
    XorCancels(hi, lo);
  }
}
