/** Fixed-width unsigned words modelled on unbounded integers.  A C unsigned
    type of N bits is the range [0, 2^N); its arithmetic wraps, which the
    model writes out as `% modulus`.  Bitwise exclusive or is defined bit by
    bit on naturals. */
module Words {

  const TWO8: nat := 0x100
  const TWO32: nat := 0x1_0000_0000
  const TWO64: nat := 0x1_0000_0000_0000_0000

  /** Modulus of `uint_fast32_t` and `uint_fast64_t`: both are 64 bits wide
      on an LP64 glibc target. */
  const FAST32: nat := TWO64
  const FAST64: nat := TWO64

  /** One octet, the value of a C `uint8_t` / `std::byte`. */
  type Byte = x: int | 0 <= x < 0x100

  /** A value of a 32-bit / 64-bit unsigned C type. */
  type U32 = x: int | 0 <= x < 0x1_0000_0000
  type U64 = x: int | 0 <= x < 0x1_0000_0000_0000_0000

  /** A value of a 32-bit / 64-bit signed C type. */
  type I32 = x: int | -0x8000_0000 <= x < 0x8000_0000
  type I64 = x: int | -0x8000_0000_0000_0000 <= x < 0x8000_0000_0000_0000

  /** The byte a C `char` converts to (`(uint8_t)c`): its code modulo 256. */
  function ByteOf(c: char): Byte
  {
    (c as int) % 0x100
  }

  function BytesOf(s: seq<char>): (r: seq<Byte>)
    ensures |r| == |s|
    ensures forall i :: 0 <= i < |s| ==> r[i] == ByteOf(s[i])
  {
    if |s| == 0 then [] else [ByteOf(s[0])] + BytesOf(s[1..])
  }

  /** The C string a `char` sequence holds: everything before the first NUL
      (the whole sequence when it has none). */
  function CStr(s: seq<char>): (r: seq<char>)
    ensures |r| <= |s| && r == s[..|r|]
    ensures forall i :: 0 <= i < |r| ==> r[i] != '\0'
    ensures |r| < |s| ==> s[|r|] == '\0'
  {
    if |s| == 0 || s[0] == '\0' then [] else [s[0]] + CStr(s[1..])
  }

  /** A text without NUL is read whole. */
  lemma CStrWhole(s: seq<char>)
    requires '\0' !in s
    ensures CStr(s) == s
  {
  }

  function Pow2(n: nat): (r: nat)
    ensures r >= 1
  {
    if n == 0 then 1 else 2 * Pow2(n - 1)
  }

  lemma {:induction false} Pow2Add(m: nat, n: nat)
    ensures Pow2(m + n) == Pow2(m) * Pow2(n)
    decreases m
  {
    if m > 0 {
      Pow2Add(m - 1, n);
      assert Pow2(m + n) == 2 * Pow2(m - 1 + n);
      MulAssoc(2, Pow2(m - 1), Pow2(n));
    }
  }

  lemma MulAssoc(a: int, b: int, c: int)
    ensures a * (b * c) == (a * b) * c
  {
  }

  lemma Pow2Constants()
    ensures Pow2(8) == TWO8 && Pow2(32) == TWO32 && Pow2(64) == TWO64
  {
    assert Pow2(8) == 0x100;
    Pow2Add(8, 8);
    Pow2Add(16, 16);
    Pow2Add(32, 32);
  }

  /** Bitwise exclusive or of two unsigned values, bit by bit from the
      least significant one. */
  function Xor(a: nat, b: nat): nat
    decreases a + b
  {
    if a == 0 then b else if b == 0 then a else 2 * Xor(a / 2, b / 2) + (a + b) % 2
  }

  lemma XorUnfold(a: nat, b: nat)
    ensures Xor(a, b) == 2 * Xor(a / 2, b / 2) + (a + b) % 2
  {
  }

  /** The low bit of `a ^ b` and the xor of the remaining bits. */
  lemma XorHalves(a: nat, b: nat)
    ensures Xor(a, b) / 2 == Xor(a / 2, b / 2)
    ensures Xor(a, b) % 2 == (a + b) % 2
  {
    XorUnfold(a, b);
  }

  lemma HalvesDetermine(u: nat, v: nat)
    requires u / 2 == v / 2 && u % 2 == v % 2
    ensures u == v
  {
  }

  /** Xor never sets a bit above the operands' width. */
  lemma {:induction false} XorBelowPow2(a: nat, b: nat, n: nat)
    requires a < Pow2(n) && b < Pow2(n)
    ensures Xor(a, b) < Pow2(n)
    decreases n
  {
    if a != 0 && b != 0 {
      XorBelowPow2(a / 2, b / 2, n - 1);
    }
  }

  /** Xor with the same value twice is the identity. */
  lemma {:induction false} XorCancels(a: nat, b: nat)
    ensures Xor(Xor(a, b), a) == b
    decreases a + b
  {
    if a + b > 0 {
      var x := Xor(a, b);
      XorHalves(a, b);
      XorHalves(x, a);
      XorCancels(a / 2, b / 2);
      ParityCancels(a, b, x);
      HalvesDetermine(Xor(x, a), b);
    }
  }

  lemma ParityCancels(a: nat, b: nat, x: nat)
    requires x % 2 == (a + b) % 2
    ensures (x + a) % 2 == b % 2
  {
  }

  /** The halves of `2r + c` for a bit `c`, and its parity after adding `b`. */
  lemma TwiceAndBit(r: nat, c: nat, b: nat, h: nat)
    requires c == h % 2
    ensures (2 * r + c) / 2 == r
    ensures (2 * r + c + b) % 2 == (h + b) % 2
  {
  }

  lemma MulDouble(q: int, p: int)
    ensures q * (2 * p) == 2 * (q * p)
  {
  }

  /** Dividing by `2p` is halving, then dividing by `p`. */
  lemma DivTwoStep(h: nat, p: nat)
    requires p >= 1
    ensures h / (2 * p) == (h / 2) / p
    ensures h % (2 * p) == 2 * ((h / 2) % p) + h % 2
  {
    var q := (h / 2) / p;
    var r := (h / 2) % p;
    assert h == q * (2 * p) + (2 * r + h % 2) by {
      assert h == 2 * (h / 2) + h % 2;
      assert h / 2 == q * p + r;
    }
    ModOfDecomposition(h, 2 * p, q, 2 * r + h % 2);
  }

  /** Xor with a value below 2^k leaves the bits from k upwards alone. */
  lemma {:induction false} XorHighBits(h: nat, b: nat, k: nat)
    requires b < Pow2(k)
    ensures Xor(h, b) == h / Pow2(k) * Pow2(k) + Xor(h % Pow2(k), b)
    decreases k
  {
    if k > 0 {
      var p := Pow2(k - 1);
      var q := (h / 2) / p;
      var r := (h / 2) % p;
      var low := 2 * r + h % 2;
      assert h / Pow2(k) == q && h % Pow2(k) == low by {
        DivTwoStep(h, p);
      }
      assert Xor(h / 2, b / 2) == q * p + Xor(r, b / 2) by {
        XorHighBits(h / 2, b / 2, k - 1);
      }
      assert Xor(low, b) == 2 * Xor(r, b / 2) + (h + b) % 2 by {
        XorUnfold(low, b);
        TwiceAndBit(r, h % 2, b, h);
      }
      assert Xor(h, b) == 2 * Xor(h / 2, b / 2) + (h + b) % 2 by {
        XorUnfold(h, b);
      }
      assert Pow2(k) == 2 * p;
      MulDouble(q, p);
    } else {
      assert b == 0;
    }
  }

  function XorByte(a: Byte, b: Byte): Byte
  {
    Pow2Constants();
    XorBelowPow2(a, b, 8);
    Xor(a, b)
  }

  function Xor32(a: U32, b: U32): U32
  {
    Pow2Constants();
    XorBelowPow2(a, b, 32);
    Xor(a, b)
  }

  /** `h ^ b` for an unsigned `h` of any width and a byte `b` changes only
      the low eight bits of `h`. */
  lemma XorLowByte(h: nat, b: Byte)
    ensures Xor(h, b) == h / 0x100 * 0x100 + XorByte(h % 0x100, b)
  {
    Pow2Constants();
    XorHighBits(h, b, 8);
  }

  lemma ModOfDecomposition(x: int, m: int, q: int, r: int)
    requires m > 0 && 0 <= r < m && x == q * m + r
    ensures x % m == r && x / m == q
  {
    var d := q - x / m;
    assert x == (x / m) * m + x % m;
    assert d * m == x % m - r;
    MultipleBounds(d, m);
  }

  lemma MultipleBounds(d: int, m: int)
    requires m >= 0
    ensures d >= 1 ==> d * m >= m
    ensures d <= -1 ==> d * m <= -m
  {
    if d >= 1 {
      assert d * m == (d - 1) * m + m;
    } else if d <= -1 {
      assert d * m == (d + 1) * m - m;
    }
  }

  /** Reducing modulo a multiple of 256 commutes with xor with a byte. */
  lemma XorByteMod(h: nat, b: Byte, m: nat)
    requires m > 0 && m % 0x100 == 0
    ensures Xor(h, b) % m == Xor(h % m, b)
  {
    var hm := h % m;
    assert hm % 0x100 == h % 0x100 by {
      ModMod(h, m, 0x100);
    }
    var q := h / m;
    DivModSplit(h, m);
    XorSameLowByte(h, hm, b);
    XorByteBelow(hm, b, m);
    ModOfDecomposition(Xor(h, b), m, q, Xor(hm, b));
  }

  /** Two values with the same low byte keep their distance under xor with a
      byte. */
  lemma XorSameLowByte(h: nat, g: nat, b: Byte)
    requires h % 0x100 == g % 0x100
    ensures Xor(h, b) - Xor(g, b) == h - g
  {
    XorLowByte(h, b);
    XorLowByte(g, b);
    LowByteSplit(h);
    LowByteSplit(g);
  }

  lemma DivModSplit(h: nat, m: nat)
    requires m > 0
    ensures h == h / m * m + h % m
  {
  }

  lemma LowByteSplit(h: nat)
    ensures h / 0x100 * 0x100 == h - h % 0x100
  {
  }

  /** Xor with a byte stays below any multiple of 256 the value was below. */
  lemma XorByteBelow(v: nat, b: Byte, m: nat)
    requires v < m && m % 0x100 == 0
    ensures Xor(v, b) < m
  {
    XorLowByte(v, b);
    RoundedDownRoom(v, m);
  }

  /** Below a multiple of 256, rounding down to 256 leaves room for a byte. */
  lemma RoundedDownRoom(v: nat, m: nat)
    requires v < m && m % 0x100 == 0
    ensures v / 0x100 * 0x100 + 0x100 <= m
  {
    var t := m / 0x100;
    assert m == t * 0x100;
    assert v / 0x100 < t;
  }

  /** Adding a multiple of the modulus does not change the residue. */
  lemma ModAddMultiple(x: int, j: int, m: int)
    requires m > 0
    ensures (x + j * m) % m == x % m
  {
    ModOfDecomposition(x + j * m, m, x / m + j, x % m);
  }

  /** Reducing a product modulo a wide word, then modulo a narrower one that
      divides it, is the same as reducing the factor first. */
  lemma MulMod(a: nat, k: nat, wide: nat, narrow: nat)
    requires narrow > 0 && wide > 0 && wide % narrow == 0
    ensures (a * k % wide) % narrow == (a % narrow) * k % narrow
  {
    var t := wide / narrow;
    assert wide == t * narrow;
    var u := a * k / wide;
    assert a * k == u * wide + a * k % wide;
    assert a * k % wide == a * k + (-(u * t)) * narrow;
    ModAddMultiple(a * k, -(u * t), narrow);
    var v := a / narrow;
    assert a * k == (a % narrow) * k + (v * k) * narrow by {
      assert a == v * narrow + a % narrow;
    }
    ModAddMultiple((a % narrow) * k, v * k, narrow);
  }

  /** Reducing modulo a wide word, then modulo a narrower one that divides it,
      is reducing modulo the narrower one. */
  lemma ModMod(a: nat, wide: nat, narrow: nat)
    requires narrow > 0 && wide > 0 && wide % narrow == 0
    ensures a % wide % narrow == a % narrow
  {
    var t := wide / narrow;
    assert wide == t * narrow;
    var u := a / wide;
    assert a == u * wide + a % wide;
    assert a % wide == a + (-(u * t)) * narrow;
    ModAddMultiple(a, -(u * t), narrow);
  }

  /** Bitwise and / or of two unsigned values, bit by bit from the least
      significant one. */
  function And(a: nat, b: nat): nat
    decreases a + b
  {
    if a == 0 || b == 0 then 0 else 2 * And(a / 2, b / 2) + (a % 2) * (b % 2)
  }

  function Or(a: nat, b: nat): nat
    decreases a + b
  {
    if a == 0 then b
    else if b == 0 then a
    else 2 * Or(a / 2, b / 2) + (if a % 2 == 1 || b % 2 == 1 then 1 else 0)
  }

  /** `~a` in an unsigned type `bits` wide. */
  function Not(bits: nat, a: nat): nat
    requires a < Pow2(bits)
  {
    Pow2(bits) - 1 - a
  }

  /** `a` converted to an unsigned type `bits` wide (C's wrap-around). */
  function Wrap(bits: nat, a: int): (r: nat)
    ensures r < Pow2(bits)
  {
    a % Pow2(bits)
  }

  /** An unsigned value of a type `bits` wide converted to the signed type of
      the same width (two's complement, as GCC defines the conversion). */
  function Signed(bits: nat, a: nat): (r: int)
    requires bits >= 1 && a < Pow2(bits)
    ensures -(Pow2(bits - 1) as int) <= r < Pow2(bits - 1)
    ensures Wrap(bits, r) == a
  {
    assert Pow2(bits) == 2 * Pow2(bits - 1);
    if a >= Pow2(bits - 1) then
      ModOfDecomposition(a - Pow2(bits), Pow2(bits), -1, a);
      a - Pow2(bits)
    else
      ModOfDecomposition(a, Pow2(bits), 0, a);
      a
  }

  lemma AndUnfold(a: nat, b: nat)
    ensures And(a, b) == 2 * And(a / 2, b / 2) + (a % 2) * (b % 2)
  {
  }

  lemma OrUnfold(a: nat, b: nat)
    ensures Or(a, b) == 2 * Or(a / 2, b / 2) + (if a % 2 == 1 || b % 2 == 1 then 1 else 0)
  {
  }

  /** Masking with 2^k - 1 keeps the value modulo 2^k. */
  lemma AndLowMask(v: nat, k: nat)
    ensures And(v, Pow2(k) - 1) == v % Pow2(k)
  {
    AndLowMaskAt(v, k, Pow2(k));
  }

  lemma {:induction false} AndLowMaskAt(v: nat, k: nat, m: nat)
    requires m == Pow2(k)
    ensures And(v, m - 1) == v % m
    decreases k
  {
    if k > 0 {
      var p := Pow2(k - 1);
      AndLowMaskAt(v / 2, k - 1, p);
      AndLowMaskStep(v, p, m);
    }
  }

  /** The inductive step of `AndLowMask`, from 2^(k-1) = p to 2^k = m. */
  lemma AndLowMaskStep(v: nat, p: nat, m: nat)
    requires p >= 1 && m == 2 * p
    requires And(v / 2, p - 1) == (v / 2) % p
    ensures And(v, m - 1) == v % m
  {
    assert (m - 1) / 2 == p - 1 && (m - 1) % 2 == 1;
    AndUnfold(v, m - 1);
    DivTwoStep(v, p);
  }

  /** Masking a value below 2^n with 2^n - 2^k clears its low k bits. */
  lemma AndHighMask(v: nat, k: nat, n: nat)
    requires k <= n && Pow2(k) <= Pow2(n) && v < Pow2(n)
    ensures And(v, Pow2(n) - Pow2(k)) == v - v % Pow2(k)
  {
    AndHighMaskAt(v, k, n, Pow2(k), Pow2(n));
  }

  lemma {:induction false} AndHighMaskAt(v: nat, k: nat, n: nat, p: nat, q: nat)
    requires k <= n && p == Pow2(k) && q == Pow2(n) && p <= q && v < q
    ensures And(v, q - p) == v - v % p
    decreases k
  {
    if k == 0 {
      AndLowMaskAt(v, n, q);
      ModOfDecomposition(v, q, 0, v);
    } else {
      var p' := Pow2(k - 1);
      var q' := Pow2(n - 1);
      AndHighMaskAt(v / 2, k - 1, n - 1, p', q');
      AndHighMaskStep(v, p', q', p, q);
    }
  }

  /** The inductive step of `AndHighMask`, from p' = 2^(k-1) and q' = 2^(n-1)
      to p = 2^k and q = 2^n. */
  lemma AndHighMaskStep(v: nat, p': nat, q': nat, p: nat, q: nat)
    requires p' >= 1 && p' <= q' && p == 2 * p' && q == 2 * q'
    requires And(v / 2, q' - p') == v / 2 - (v / 2) % p'
    ensures And(v, q - p) == v - v % p
  {
    assert (q - p) / 2 == q' - p' && (q - p) % 2 == 0;
    AndUnfold(v, q - p);
    DivTwoStep(v, p');
  }

  /** Or with 2^k - 1 sets the low k bits. */
  lemma OrLowMask(x: nat, k: nat)
    ensures Or(x, Pow2(k) - 1) == x - x % Pow2(k) + Pow2(k) - 1
  {
    OrLowMaskAt(x, k, Pow2(k));
  }

  lemma {:induction false} OrLowMaskAt(x: nat, k: nat, m: nat)
    requires m == Pow2(k)
    ensures Or(x, m - 1) == x - x % m + m - 1
    decreases k
  {
    if k == 0 {
      OrLowMaskBase(x, m);
    } else {
      var p := Pow2(k - 1);
      OrLowMaskAt(x / 2, k - 1, p);
      OrLowMaskStep(x, p, m);
    }
  }

  lemma OrLowMaskBase(x: nat, m: nat)
    requires m == 1
    ensures Or(x, m - 1) == x - x % m + m - 1
  {
  }

  /** The inductive step of `OrLowMask`, from 2^(k-1) = p to 2^k = m. */
  lemma OrLowMaskStep(x: nat, p: nat, m: nat)
    requires p >= 1 && m == 2 * p
    requires Or(x / 2, p - 1) == x / 2 - (x / 2) % p + p - 1
    ensures Or(x, m - 1) == x - x % m + m - 1
  {
    OrOddMask(x, m, p);
    DivTwoStep(x, p);
    HalfStep(Or(x, m - 1), Or(x / 2, p - 1), x, x / 2, x % 2, (x / 2) % p, x % m, p, m);
  }

  lemma OrOddMask(x: nat, m: nat, p: nat)
    requires p >= 1 && m == 2 * p
    ensures Or(x, m - 1) == 2 * Or(x / 2, p - 1) + 1
  {
    assert (m - 1) / 2 == p - 1 && (m - 1) % 2 == 1;
    OrUnfold(x, m - 1);
  }

  /** Shifting a value left by one and setting its low bit, in terms of the
      parts of the original value. */
  lemma HalfStep(or: int, orHalf: int, x: int, h: int, bit: int, r: int, low: int, p: int, m: int)
    requires x == 2 * h + bit && m == 2 * p && low == 2 * r + bit
    requires or == 2 * orHalf + 1 && orHalf == h - r + p - 1
    ensures or == x - low + m - 1
  {
  }

  /** A smaller power of two divides a larger one. */
  lemma Pow2Divides(k: nat, n: nat)
    requires k <= n
    ensures Pow2(n) % Pow2(k) == 0 && Pow2(k) <= Pow2(n)
  {
    var j := Pow2(n - k);
    assert Pow2(n) == j * Pow2(k) by {
      Pow2Add(k, n - k);
      assert k + (n - k) == n;
      assert Pow2(k) * j == j * Pow2(k);
    }
    ModOfDecomposition(Pow2(n), Pow2(k), j, 0);
    MultipleBounds(j, Pow2(k));
  }
}
