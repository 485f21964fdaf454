/** `Pg::ParamWrapper` and the parameter arrays built from it: how each C++
    parameter type becomes a libpq parameter (value pointer, length, text or
    binary format), and how a parameter list fills the three arrays that
    `PQexecParams` takes. */
module ParamWrapper {
  import opened Wrappers
  import opened Words
  import opened Numerals

  /** A query parameter: its C++ type and value.  `SerialParam` carries the
      text the `PRIpgserial` conversion writes (Serial.hxx is not part of
      this model); `BinaryParam` carries the octets of a `BinaryValue` and
      `StringViewParam` those of a `string_view`, `None` when the pointer is
      null. */
  datatype Param =
    | SerialParam(serialText: seq<char>)
    | BinaryParam(data: Option<seq<char>>)
    | CStringParam(ptr: Option<seq<char>>)
    | IntParam(i: I32)
    | Int64Param(i64: I64)
    | UnsignedParam(u: U32)
    | Uint64Param(u64: U64)
    | BoolParam(b: bool)
    | StringViewParam(view: Option<seq<char>>)
    | StringParam(str: seq<char>)
    | ContainerParam(items: seq<seq<char>>)
    | ListPtrParam(list: Option<seq<seq<char>>>)

  /** What `GetValue()` returns: a null pointer, or a pointer to a buffer.  A
      text value is the C string at the pointer. */
  datatype Value = Null | Buffer(data: seq<char>)

  /** `GetValue()`, `IsBinary()` and `GetSize()` of one wrapper. */
  datatype Wrapper = Wrapper(value: Value, binary: bool, size: nat)

  /** The three arrays of a parameter list; a null `lengths` or `formats`
      pointer is `None`. */
  datatype ParamArray = ParamArray(values: seq<Value>, lengths: Option<seq<int>>, formats: Option<seq<int>>)

  /** `EncodeArray` (the PostgreSQL array literal of a list of strings);
      Array.hxx is not part of this model, so it is a parameter. */
  type Encoder = seq<seq<char>> -> seq<char>

  /** The `PRIu64` conversion of the `ParamWrapper<uint64_t>` constructor,
      whose parameter is declared `int64_t`: the value is converted to signed
      and printed back as unsigned. */
  function Uint64Text(u: U64): seq<char>
  {
    Pow2Constants();
    Digits(10, Wrap(64, Signed(64, u)))
  }

  function TextOf(s: seq<char>): Value
  {
    Buffer(CStr(s))
  }

  /** A binary wrapper hands over the pointer itself: null stays null. */
  function BinaryWrapper(d: Option<seq<char>>): Wrapper
  {
    if d.None? then Wrapper(Null, true, 0) else Wrapper(Buffer(d.value), true, |d.value|)
  }

  function MakeWrapper(encode: Encoder, p: Param): (w: Wrapper)
    ensures w.binary <==> p.BinaryParam? || p.StringViewParam?
    ensures !w.binary ==> w.size == 0
    ensures w.binary ==> (w.value.Null? <==> (p.BinaryParam? && p.data.None?) || (p.StringViewParam? && p.view.None?))
  {
    match p
    case SerialParam(t) => Wrapper(TextOf(t), false, 0)
    case BinaryParam(d) => BinaryWrapper(d)
    case CStringParam(ptr) => Wrapper(if ptr.None? then Null else TextOf(ptr.value), false, 0)
    case IntParam(i) => Wrapper(Buffer(Decimal(i)), false, 0)
    case Int64Param(i) => Wrapper(Buffer(Decimal(i)), false, 0)
    case UnsignedParam(u) => Wrapper(Buffer(Digits(10, u)), false, 0)
    case Uint64Param(u) => Wrapper(Buffer(Uint64Text(u)), false, 0)
    case BoolParam(b) => Wrapper(Buffer(if b then "t" else "f"), false, 0)
    case StringViewParam(v) => BinaryWrapper(v)
    case StringParam(s) => Wrapper(TextOf(s), false, 0)
    case ContainerParam(items) => Wrapper(TextOf(encode(items)), false, 0)
    case ListPtrParam(list) =>
      var s := if list.None? then [] else encode(list.value);
      Wrapper(if |s| == 0 then Null else TextOf(s), false, 0)
  }

  /** Binary wrappers point at the data itself and report its length. */
  lemma BinaryWrappersReportLength(encode: Encoder, p: Param)
    requires p.BinaryParam? || p.StringViewParam?
    requires var d := if p.BinaryParam? then p.data else p.view; d.Some?
    ensures var d := if p.BinaryParam? then p.data else p.view;
            MakeWrapper(encode, p) == Wrapper(Buffer(d.value), true, |d.value|)
  {
  }

  /** A null binary pointer is passed on as a null parameter value, still
      in binary format. */
  lemma NullBinaryIsNull(encode: Encoder, p: Param)
    requires p == BinaryParam(None) || p == StringViewParam(None)
    ensures MakeWrapper(encode, p) == Wrapper(Null, true, 0)
    ensures FormatOf(MakeWrapper(encode, p).binary) == 1
  {
  }

  /** `bool` becomes the text "t" or "f", which reads back as the value. */
  lemma BoolText(encode: Encoder, b: bool)
    ensures MakeWrapper(encode, BoolParam(b)).value == Buffer(if b then "t" else "f")
    ensures MakeWrapper(encode, BoolParam(b)).value.data == "t" <==> b
  {
  }

  /** A list pointer yields a null value exactly when it is null or its
      encoding is empty; otherwise the value is the encoding. */
  lemma ListPointerNull(encode: Encoder, list: Option<seq<seq<char>>>)
    ensures MakeWrapper(encode, ListPtrParam(list)).value == Null
            <==> list.None? || encode(list.value) == []
    ensures list.Some? && encode(list.value) != [] ==>
            MakeWrapper(encode, ListPtrParam(list)).value == TextOf(encode(list.value))
  {
  }

  /** The integer texts read back as the integers they were written from. */
  lemma IntegerTextsRoundTrip(encode: Encoder, p: Param)
    requires p.IntParam? || p.Int64Param? || p.UnsignedParam? || p.Uint64Param?
    ensures var n: int := match p
              case IntParam(i) => i
              case Int64Param(i) => i
              case UnsignedParam(u) => u
              case Uint64Param(u) => u;
            ParseDecimal(MakeWrapper(encode, p).value.data) == Some(n)
  {
    match p
    case IntParam(i) => DecimalRoundTrip(i);
    case Int64Param(i) => DecimalRoundTrip(i);
    case UnsignedParam(u) => DecimalRoundTrip(u);
    case Uint64Param(u) =>
      Uint64TextIsDecimal(u);
      DecimalRoundTrip(u);
  }

  /** Passing a `uint64_t` through the `int64_t` constructor parameter and
      printing it with `PRIu64` gives back the original value. */
  lemma Uint64TextIsDecimal(u: U64)
    ensures Uint64Text(u) == Decimal(u)
  {
    Pow2Constants();
  }

  /** The buffer each integer wrapper prints into has room for the longest
      numeral plus its NUL: 16 octets for `int` and `unsigned`, 32 for the
      64-bit types. */
  lemma IntegerTextsFitBuffers(encode: Encoder, p: Param)
    requires p.IntParam? || p.Int64Param? || p.UnsignedParam? || p.Uint64Param?
    ensures var t := MakeWrapper(encode, p).value.data;
            |t| + 1 <= (if p.IntParam? || p.UnsignedParam? then 16 else 32)
  {
    PowersOfTen();
    match p
    case IntParam(i) => DecimalLength(i, 10);
    case Int64Param(i) => DecimalLength(i, 19);
    case UnsignedParam(u) => DecimalLength(u, 10);
    case Uint64Param(u) =>
      Uint64TextIsDecimal(u);
      DecimalLength(u, 20);
  }

  lemma PowersOfTen()
    ensures Power(10, 10) == 10_000_000_000
    ensures Power(10, 19) == 10_000_000_000_000_000_000
    ensures Power(10, 20) == 100_000_000_000_000_000_000
  {
    assert Power(10, 5) == 100_000;
    assert Power(10, 10) == 10_000_000_000 by {
      PowerAdd(5, 5);
    }
    assert Power(10, 19) == 10_000_000_000_000_000_000 by {
      PowerAdd(10, 5);
      PowerAdd(15, 4);
      assert Power(10, 4) == 10_000;
    }
  }

  lemma {:induction false} PowerAdd(m: nat, n: nat)
    ensures Power(10, m + n) == Power(10, m) * Power(10, n)
    decreases m
  {
    if m > 0 {
      PowerAdd(m - 1, n);
    }
  }

  /** `ParamCollector::HasBinary`: the or over the parameters' `IsBinary`. */
  function HasBinary(encode: Encoder, ps: seq<Param>): bool
    decreases |ps|
  {
    |ps| > 0 && (MakeWrapper(encode, ps[0]).binary || HasBinary(encode, ps[1..]))
  }

  lemma {:induction false} HasBinaryIff(encode: Encoder, ps: seq<Param>)
    ensures HasBinary(encode, ps) <==> exists i :: 0 <= i < |ps| && MakeWrapper(encode, ps[i]).binary
    decreases |ps|
  {
    if |ps| > 0 {
      HasBinaryIff(encode, ps[1..]);
      if MakeWrapper(encode, ps[0]).binary {
        assert 0 <= 0 < |ps| && MakeWrapper(encode, ps[0]).binary;
      } else {
        forall i | 0 < i < |ps|
          ensures MakeWrapper(encode, ps[i]).binary == MakeWrapper(encode, ps[1..][i - 1]).binary
        {
        }
      }
    }
  }

  /** A `size_t` stored into an `int` array element: reduced to 32 bits and
      read as signed. */
  function LengthOf(size: nat): (r: int)
    ensures size < 0x8000_0000 ==> r == size
  {
    Pow2Constants();
    SmallSizeUnchanged(size);
    Signed(32, Wrap(32, size))
  }

  lemma SmallSizeUnchanged(size: nat)
    ensures size < 0x8000_0000 ==> Wrap(32, size) == size
  {
    Pow2Constants();
    if size < 0x8000_0000 {
      ModOfDecomposition(size, TWO32, 0, size);
    }
  }

  /** `bool` stored into an `int` array element. */
  function FormatOf(binary: bool): int
  {
    if binary then 1 else 0
  }

  /** `ParamCollector::Fill(output)`: one value per parameter, in order; the
      result is `Count()`. */
  method FillValues(encode: Encoder, ps: seq<Param>) returns (values: seq<Value>, n: nat)
    ensures n == |ps| && |values| == |ps|
    ensures forall i :: 0 <= i < |ps| ==> values[i] == MakeWrapper(encode, ps[i]).value
  {
    values := [];
    n := 0;
    while n < |ps|
      invariant n <= |ps| && |values| == n
      invariant forall i :: 0 <= i < n ==> values[i] == MakeWrapper(encode, ps[i]).value
    {
      values := values + [MakeWrapper(encode, ps[n]).value];
      n := n + 1;
    }
  }

  /** `ParamCollector::Fill(output, size, format)`: value, length and format
      of each parameter, in order; the result is `Count()`. */
  method Fill(encode: Encoder, ps: seq<Param>) returns (values: seq<Value>, lengths: seq<int>, formats: seq<int>, n: nat)
    ensures n == |ps| && |values| == |ps| && |lengths| == |ps| && |formats| == |ps|
    ensures forall i :: 0 <= i < |ps| ==>
              var w := MakeWrapper(encode, ps[i]);
              values[i] == w.value && lengths[i] == LengthOf(w.size) && formats[i] == FormatOf(w.binary)
  {
    values, lengths, formats := [], [], [];
    n := 0;
    while n < |ps|
      invariant n <= |ps| && |values| == n && |lengths| == n && |formats| == n
      invariant forall i :: 0 <= i < n ==>
                  var w := MakeWrapper(encode, ps[i]);
                  values[i] == w.value && lengths[i] == LengthOf(w.size) && formats[i] == FormatOf(w.binary)
    {
      var w := MakeWrapper(encode, ps[n]);
      values := values + [w.value];
      lengths := lengths + [LengthOf(w.size)];
      formats := formats + [FormatOf(w.binary)];
      n := n + 1;
    }
  }

  /** `TextParamArray`: only for lists without a binary parameter (a
      `static_assert`); no lengths and no formats. */
  method TextParamArray(encode: Encoder, ps: seq<Param>) returns (r: ParamArray)
    requires !HasBinary(encode, ps)
    ensures r.lengths.None? && r.formats.None? && |r.values| == |ps|
    ensures forall i :: 0 <= i < |ps| ==>
              r.values[i] == MakeWrapper(encode, ps[i]).value && !MakeWrapper(encode, ps[i]).binary
  {
    HasBinaryIff(encode, ps);
    var values, _ := FillValues(encode, ps);
    r := ParamArray(values, None, None);
  }

  /** `BinaryParamArray`: values, lengths and formats of every parameter. */
  method BinaryParamArray(encode: Encoder, ps: seq<Param>) returns (r: ParamArray)
    ensures r.lengths.Some? && r.formats.Some?
    ensures |r.values| == |ps| && |r.lengths.value| == |ps| && |r.formats.value| == |ps|
    ensures forall i :: 0 <= i < |ps| ==>
              var w := MakeWrapper(encode, ps[i]);
              && r.values[i] == w.value
              && r.lengths.value[i] == LengthOf(w.size)
              && r.formats.value[i] == FormatOf(w.binary)
  {
    var values, lengths, formats, _ := Fill(encode, ps);
    r := ParamArray(values, Some(lengths), Some(formats));
  }

  /** `AutoParamArray`: the binary array when some parameter is binary, the
      text array otherwise. */
  method AutoParamArray(encode: Encoder, ps: seq<Param>) returns (r: ParamArray)
    ensures r.lengths.Some? <==> HasBinary(encode, ps)
    ensures r.formats.Some? <==> HasBinary(encode, ps)
    ensures |r.values| == |ps|
    ensures forall i :: 0 <= i < |ps| ==> r.values[i] == MakeWrapper(encode, ps[i]).value
    ensures r.lengths.Some? ==>
              |r.lengths.value| == |ps| &&
              forall i :: 0 <= i < |ps| ==> r.lengths.value[i] == LengthOf(MakeWrapper(encode, ps[i]).size)
  {
    if HasBinary(encode, ps) {
      r := BinaryParamArray(encode, ps);
    } else {
      r := TextParamArray(encode, ps);
    }
  }

  // ------------------------------------------------ the order of the fold

  /** The parameter indices `0` to `n - 1`, each once: an order in which
      the `n` calls of a fold can run. */
  predicate IsCallOrder(order: seq<nat>, n: nat)
  {
    && |order| == n
    && (forall k :: 0 <= k < n ==> order[k] < n)
    && (forall j, k :: 0 <= j < k < n ==> order[j] != order[k])
  }

  /** Parameter order. */
  function InOrder(n: nat): (order: seq<nat>)
    ensures IsCallOrder(order, n)
    ensures forall k :: 0 <= k < n ==> order[k] == k
  {
    seq(n, k requires 0 <= k < n => k)
  }

  /** `Fill(output)` as written: the `FillOne` calls are the operands of a
      `+` fold, and C++ does not sequence the operands of `+`, so the calls
      may run in any `order`.  Each call stores into the next slot of
      `output`, so the call that runs `k`-th fills slot `k`, whichever
      parameter it belongs to. */
  function FillUnsequenced(encode: Encoder, ps: seq<Param>, order: seq<nat>): (values: seq<Value>)
    requires forall k :: 0 <= k < |order| ==> order[k] < |ps|
    ensures |values| == |order|
    ensures forall k :: 0 <= k < |order| ==> values[k] == MakeWrapper(encode, ps[order[k]]).value
    decreases |order|
  {
    if |order| == 0 then []
    else [MakeWrapper(encode, ps[order[0]]).value] + FillUnsequenced(encode, ps, order[1..])
  }

  /** Only when the calls run left to right does every parameter land in
      its own slot, which is what `FillValues` and `Fill` promise. */
  lemma LeftToRightFill(encode: Encoder, ps: seq<Param>)
    ensures var values := FillUnsequenced(encode, ps, InOrder(|ps|));
            |values| == |ps| && forall i :: 0 <= i < |ps| ==> values[i] == MakeWrapper(encode, ps[i]).value
  {
  }

  /** Two boolean parameters filled right to left: `$1` receives the second
      parameter's "f" and `$2` the first one's "t". */
  lemma UnsequencedFillSwaps(encode: Encoder)
    ensures IsCallOrder([1, 0], 2)
    ensures FillUnsequenced(encode, [BoolParam(true), BoolParam(false)], [1, 0]) == [Buffer("f"), Buffer("t")]
    ensures FillUnsequenced(encode, [BoolParam(true), BoolParam(false)], InOrder(2)) == [Buffer("t"), Buffer("f")]
  {
    var ps := [BoolParam(true), BoolParam(false)];
    var swapped := FillUnsequenced(encode, ps, [1, 0]);
    assert swapped[0] == MakeWrapper(encode, ps[1]).value;
    assert swapped[1] == MakeWrapper(encode, ps[0]).value;
    var straight := FillUnsequenced(encode, ps, InOrder(2));
    assert straight[0] == MakeWrapper(encode, ps[0]).value;
    assert straight[1] == MakeWrapper(encode, ps[1]).value;
  }
}
