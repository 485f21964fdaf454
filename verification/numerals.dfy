/** Unsigned and signed numerals as `printf` writes them (`%u`, `%i`, `%o`,
    `%x`, `%08x`) and their values read back, for the bases 2 to 16 with
    lower-case letters. */
module Numerals {
  import opened Wrappers
  import opened Words
  import opened Text

  const DIGITS: seq<char> := "0123456789abcdef"

  function DigitChar(d: nat): (c: char)
    requires d < 16
    ensures DigitOf(c) == d
  {
    DIGITS[d]
  }

  /** The value of a digit character, 16 for anything that is not one. */
  function DigitOf(c: char): (d: nat)
    ensures d <= 16
  {
    if '0' <= c <= '9' then (c - '0') as nat
    else if 'a' <= c <= 'f' then (c - 'a') as nat + 10
    else 16
  }

  predicate AllDigits(base: nat, s: seq<char>)
  {
    forall i :: 0 <= i < |s| ==> DigitOf(s[i]) < base
  }

  function Power(base: nat, k: nat): (r: nat)
    requires base >= 2
    ensures r >= 1
  {
    if k == 0 then 1 else base * Power(base, k - 1)
  }

  /** The shortest numeral of `n` (one digit for zero). */
  function Digits(base: nat, n: nat): (r: seq<char>)
    requires 2 <= base <= 16
    decreases n
  {
    if n < base then [DigitChar(n)] else Digits(base, n / base) + [DigitChar(n % base)]
  }

  /** The value of a numeral, most significant digit first. */
  function ValueOf(base: nat, s: seq<char>): nat
    requires 2 <= base <= 16 && AllDigits(base, s)
    decreases |s|
  {
    if |s| == 0 then 0 else ValueOf(base, s[..|s| - 1]) * base + DigitOf(s[|s| - 1])
  }

  /** Reading a numeral back gives the number; the numeral is non-empty and
      made only of digits of the base. */
  lemma {:induction false} DigitsRoundTrip(base: nat, n: nat)
    requires 2 <= base <= 16
    ensures AllDigits(base, Digits(base, n)) && |Digits(base, n)| >= 1
    ensures ValueOf(base, Digits(base, n)) == n
    decreases n
  {
    var s := Digits(base, n);
    if n >= base {
      var m := n / base;
      DivMod(n, base);
      var front := Digits(base, m);
      var last := DigitChar(n % base);
      assert s == front + [last];
      DigitsRoundTrip(base, m);
      assert AllDigits(base, s) by {
        forall i | 0 <= i < |s|
          ensures DigitOf(s[i]) < base
        {
          if i < |front| {
            assert s[i] == front[i];
          }
        }
      }
      assert s[..|s| - 1] == front;
      assert ValueOf(base, s) == ValueOf(base, front) * base + DigitOf(last);
      assert ValueOf(base, front) == m;
      assert DigitOf(last) == n % base;
      DivMod(n, base);
    }
  }

  lemma DivMod(n: nat, base: nat)
    requires base >= 1
    ensures n == (n / base) * base + n % base && n % base < base
    ensures base >= 2 && n >= 1 ==> n / base < n
  {
  }

  /** A number below base^k has at most k digits. */
  lemma {:induction false} DigitsLength(base: nat, n: nat, k: nat)
    requires 2 <= base <= 16 && k >= 1 && n < Power(base, k)
    ensures |Digits(base, n)| <= k
    decreases n
  {
    if n >= base {
      DivMod(n, base);
      assert Power(base, 1) == base;
      assert n / base < Power(base, k - 1) by {
        DivBelowPower(n, base, Power(base, k - 1));
      }
      DigitsLength(base, n / base, k - 1);
      assert |Digits(base, n)| == |Digits(base, n / base)| + 1;
    }
  }

  lemma DivBelowPower(n: nat, base: nat, q: nat)
    requires base >= 2 && n < base * q
    ensures n / base < q
  {
  }

  /** Leading zeros do not change a numeral's value. */
  lemma {:induction false} LeadingZeros(base: nat, k: nat, s: seq<char>)
    requires 2 <= base <= 16 && AllDigits(base, s)
    ensures AllDigits(base, Zeros(k) + s)
    ensures ValueOf(base, Zeros(k) + s) == ValueOf(base, s)
    decreases |s|
  {
    var z := Zeros(k) + s;
    if |s| == 0 {
      assert z == Zeros(k);
      ZerosValue(base, k);
    } else {
      var front := s[..|s| - 1];
      assert z[..|z| - 1] == Zeros(k) + front;
      LeadingZeros(base, k, front);
    }
  }

  function Zeros(k: nat): (r: seq<char>)
    ensures |r| == k && forall i :: 0 <= i < k ==> r[i] == '0'
  {
    if k == 0 then [] else Zeros(k - 1) + ['0']
  }

  lemma {:induction false} ZerosValue(base: nat, k: nat)
    requires 2 <= base <= 16
    ensures AllDigits(base, Zeros(k)) && ValueOf(base, Zeros(k)) == 0
  {
    if k > 0 {
      ZerosValue(base, k - 1);
      var z := Zeros(k);
      assert z[..k - 1] == Zeros(k - 1);
      assert ValueOf(base, z) == ValueOf(base, Zeros(k - 1)) * base + DigitOf(z[k - 1]);
    }
  }

  /** A numeral padded on the left with zeros to at least `width` digits,
      as the `0` flag and a field width make `printf` write it. */
  function Padded(base: nat, n: nat, width: nat): (r: seq<char>)
    requires 2 <= base <= 16
    ensures |r| == if |Digits(base, n)| < width then width else |Digits(base, n)|
    ensures AllDigits(base, r) && ValueOf(base, r) == n
  {
    var d := Digits(base, n);
    DigitsRoundTrip(base, n);
    var k := if |d| < width then width - |d| else 0;
    LeadingZeros(base, k, d);
    Zeros(k) + d
  }

  /** `%i` / `%d`: an optional minus sign, then the magnitude. */
  function Decimal(i: int): (r: seq<char>)
  {
    if i < 0 then ['-'] + Digits(10, -i) else Digits(10, i)
  }

  /** Reading a signed decimal numeral: an optional minus sign followed by at
      least one digit and nothing else. */
  function ParseDecimal(s: seq<char>): (r: Option<int>)
    ensures r.Some? && |s| >= 1 && s[0] != '-' ==> r.value >= 0
  {
    if |s| >= 2 && s[0] == '-' && AllDigits(10, s[1..]) then Some(0 - ValueOf(10, s[1..]))
    else if |s| >= 1 && AllDigits(10, s) then Some(ValueOf(10, s))
    else None
  }

  /** Decimal numerals read back as the number they were written from. */
  lemma DecimalRoundTrip(i: int)
    ensures ParseDecimal(Decimal(i)) == Some(i)
  {
    if i < 0 {
      DigitsRoundTrip(10, -i);
      assert Decimal(i)[1..] == Digits(10, -i);
    } else {
      DigitsRoundTrip(10, i);
      assert DigitOf('-') == 16;
    }
  }

  /** A decimal numeral of a magnitude below 10^k takes at most k + 1
      characters. */
  lemma DecimalLength(i: int, k: nat)
    requires k >= 1 && -(Power(10, k) as int) < i < Power(10, k)
    ensures |Decimal(i)| <= k + 1
    ensures i >= 0 ==> |Decimal(i)| <= k
  {
    if i < 0 {
      DigitsLength(10, -i, k);
    } else {
      DigitsLength(10, i, k);
    }
  }

  // ------------------------------------------------------------ strtoul

  /** `ULONG_MAX` where `unsigned long` has 64 bits. */
  const ULONG_MAX: nat := TWO64 - 1

  /** The index after the optional sign that follows index `i`. */
  function SignEnd(s: seq<char>, i: nat): (j: nat)
    requires i <= |s|
    ensures i <= j <= |s| && j <= i + 1
  {
    if i < |s| && (s[i] == '+' || s[i] == '-') then i + 1 else i
  }

  lemma DecimalRun(s: seq<char>, j: nat, k: nat)
    requires j <= k <= |s| && forall m :: j <= m < k ==> IsDecimal(s[m])
    ensures AllDigits(10, s[j..k])
  {
    forall m | 0 <= m < k - j
      ensures DigitOf(s[j..k][m]) < 10
    {
      assert s[j..k][m] == s[j + m];
    }
  }

  /** `strtoul(s, &end, 10)` with a 64-bit `unsigned long`: blanks, an
      optional sign, then the longest run of digits.  The result is the
      value, negated modulo 2^64 after a '-', or `ULONG_MAX` when the digits
      overflow; `end` is the index after the digits, or 0 when there are
      none. */
  function Strtoul(s: seq<char>): (r: (nat, nat))
    ensures r.0 <= ULONG_MAX && r.1 <= |s|
    ensures r.1 == 0 ==> r.0 == 0
  {
    var i := Span(IsSpace, s, 0);
    var j := SignEnd(s, i);
    var k := Span(IsDecimal, s, j);
    if k == j then (0, 0)
    else
      DecimalRun(s, j, k);
      var v := ValueOf(10, s[j..k]);
      if v > ULONG_MAX then (ULONG_MAX, k)
      else if j > i && s[i] == '-' then
        Pow2Constants();
        (Wrap(64, 0 - v), k)
      else (v, k)
  }

  /** The texts `strtoul` reads to the end: blanks, an optional sign and at
      least one digit, and nothing else. */
  predicate IsNumeral(s: seq<char>)
  {
    var j := SignEnd(s, Span(IsSpace, s, 0));
    j < |s| && forall m :: j <= m < |s| ==> IsDecimal(s[m])
  }

  /** `strtoul` stops at the end of the text exactly for numerals. */
  lemma StrtoulConsumesNumerals(s: seq<char>)
    ensures Strtoul(s).1 == |s| && Strtoul(s).1 != 0 <==> IsNumeral(s)
  {
  }

  /** The decimal numeral of `n` is a numeral made of digits only, and
      `strtoul` reads it back. */
  lemma NumeralFacts(d: seq<char>, n: nat)
    requires n <= ULONG_MAX && d == Digits(10, n)
    ensures '"' !in d && '-' !in d && '\0' !in d && IsNumeral(d) && Strtoul(d) == (n, |d|)
  {
    DigitsRoundTrip(10, n);
    assert forall m :: 0 <= m < |d| ==> IsDecimal(d[m]) by {
      forall m | 0 <= m < |d|
        ensures IsDecimal(d[m])
      {
        assert DigitOf(d[m]) < 10;
      }
    }
    assert !IsSpace(d[0]) && d[0] != '+' && d[0] != '-';
    assert Span(IsSpace, d, 0) == 0;
    assert SignEnd(d, 0) == 0;
    assert Span(IsDecimal, d, 0) == |d|;
    assert d[0..|d|] == d;
  }


  /** What `strtoul` consumed of a text is a numeral. */
  lemma StrtoulPrefix(s: seq<char>)
    requires Strtoul(s).1 != 0
    ensures IsNumeral(s[..Strtoul(s).1])
  {
    var k := Strtoul(s).1;
    var t := s[..k];
    var i := Span(IsSpace, s, 0);
    var j := SignEnd(s, i);
    assert k == Span(IsDecimal, s, j) && j < k;
    SpanIs(IsSpace, t, 0, i);
    assert SignEnd(t, i) == j;
  }

  /** A numeral followed by anything that does not continue it is read as
      the numeral alone. */
  lemma StrtoulStopsAt(number: seq<char>, rest: seq<char>)
    requires IsNumeral(number) && |rest| > 0 && !IsDecimal(rest[0])
    ensures Strtoul(number + rest).1 == |number|
    ensures forall m :: 0 <= m < |number| ==> IsSpace(number[m]) || number[m] in "+-" || IsDecimal(number[m])
  {
    var s := number + rest;
    var i := Span(IsSpace, number, 0);
    var j := SignEnd(number, i);
    SpanIs(IsSpace, s, 0, i);
    assert SignEnd(s, i) == j;
    SpanIs(IsDecimal, s, j, |number|);
  }
}

