/**
 * The per-position pipeline of the benchmark: at each even position of a
 * UTF-16 string, classify a surrogate pair, combine it into a scalar value
 * (RFC 2781, section 2.2), encode that scalar as UTF-8 and percent-escape
 * every byte, in order, into a `ValueStringBuilder`. Four routines do this
 * in four styles (`UnsafeCore`, `SpanSliceCore`, `SpanCore`, `RuneCore`);
 * each is proved to append exactly `PositionOutput`.
 *
 * The input string is a `seq<bv16>` of code units and a position is an
 * index into it; the pinned-pointer reads become indexing with explicit
 * bounds. The library calls (`char.IsSurrogatePair`, `Encoding.UTF8.GetBytes`,
 * `Rune`) are given their standard semantics on well-formed input.
 */
module Pipeline {

  import opened Wrappers
  import opened Text
  import opened UriHelper
  import Utf8

  /** The size of the per-position byte buffer. */
  const MaxNumberOfBytesEncoded := 4

  /** The size of `TargetBuffer`, the expected output length. */
  const TargetBufferLength := 12000

  predicate IsHighSurrogate(u: bv16) {
    0xD800 <= u <= 0xDBFF
  }

  predicate IsLowSurrogate(u: bv16) {
    0xDC00 <= u <= 0xDFFF
  }

  predicate IsSurrogate(u: bv16) {
    0xD800 <= u <= 0xDFFF
  }

  /** `char.IsSurrogatePair`: a high surrogate followed by a low one. */
  predicate IsSurrogatePair(high: bv16, low: bv16) {
    IsHighSurrogate(high) && IsLowSurrogate(low)
  }

  /**
   * The range test is the same as the unsigned-offset test of the runtime:
   * `high - 0xD800` and `low - 0xDC00`, wrapping in 16 bits, are at most 0x3FF.
   */
  lemma SurrogatePairByOffsets(high: bv16, low: bv16)
    ensures IsSurrogatePair(high, low) <==> (high - 0xD800 <= 0x3FF && low - 0xDC00 <= 0x3FF)
  {
  }

  /** `new Rune(high, low)`: the scalar value a surrogate pair stands for. */
  function CombineSurrogates(high: bv16, low: bv16): (v: bv32)
    requires IsSurrogatePair(high, low)
    ensures 0x10000 <= v <= Utf8.MaxCodePoint
    ensures Utf8.IsScalarValue(v)
  {
    0x10000 + ((high as bv32 - 0xD800) << 10) + (low as bv32 - 0xDC00)
  }

  /** The high half of the pair that encodes a supplementary scalar (RFC 2781, section 2.1). */
  function HighSurrogateOf(v: bv32): bv16
    requires 0x10000 <= v <= Utf8.MaxCodePoint
  {
    (0xD800 + ((v - 0x10000) >> 10)) as bv16
  }

  /** The low half of the pair that encodes a supplementary scalar (RFC 2781, section 2.1). */
  function LowSurrogateOf(v: bv32): bv16
    requires 0x10000 <= v <= Utf8.MaxCodePoint
  {
    (0xDC00 + ((v - 0x10000) & 0x3FF)) as bv16
  }

  /** Combining loses nothing: the pair is recovered from its scalar. */
  lemma SplitCombine(high: bv16, low: bv16)
    requires IsSurrogatePair(high, low)
    ensures HighSurrogateOf(CombineSurrogates(high, low)) == high
    ensures LowSurrogateOf(CombineSurrogates(high, low)) == low
  {
  }

  lemma HighSurrogateOfWidened(v: bv32)
    requires 0x10000 <= v <= Utf8.MaxCodePoint
    ensures HighSurrogateOf(v) as bv32 == 0xD800 + ((v - 0x10000) >> 10)
  {
  }

  lemma LowSurrogateOfWidened(v: bv32)
    requires 0x10000 <= v <= Utf8.MaxCodePoint
    ensures LowSurrogateOf(v) as bv32 == 0xDC00 + ((v - 0x10000) & 0x3FF)
  {
  }

  /** The 20 bits above 0x10000 split into a high ten and a low ten. */
  lemma SplitTwentyBits(v: bv32)
    requires 0x10000 <= v <= Utf8.MaxCodePoint
    ensures (v - 0x10000) >> 10 <= 0x3FF
    ensures 0x10000 + (((v - 0x10000) >> 10) << 10) + ((v - 0x10000) & 0x3FF) == v
  {
  }

  /** Every supplementary scalar is the combination of exactly one pair. */
  lemma CombineSplit(v: bv32)
    requires 0x10000 <= v <= Utf8.MaxCodePoint
    ensures IsSurrogatePair(HighSurrogateOf(v), LowSurrogateOf(v))
    ensures CombineSurrogates(HighSurrogateOf(v), LowSurrogateOf(v)) == v
  {
    HighSurrogateOfWidened(v);
    LowSurrogateOfWidened(v);
    SplitTwentyBits(v);
  }

  /**
   * The combination is `0x10000 + (high - 0xD800) * 0x400 + (low - 0xDC00)`;
   * every intermediate value stays below 0x110000, so nothing wraps.
   */
  lemma CombineArithmetic(high: bv16, low: bv16)
    requires IsSurrogatePair(high, low)
    ensures high as bv32 - 0xD800 <= 0x3FF && low as bv32 - 0xDC00 <= 0x3FF
    ensures CombineSurrogates(high, low) == 0x10000 + (high as bv32 - 0xD800) * 0x400 + (low as bv32 - 0xDC00)
  {
  }

  /**
   * The same formula over unbounded integers: the 32-bit computation of the
   * runtime never wraps for a surrogate pair.
   */
  lemma CombineInIntegers(high: bv16, low: bv16)
    requires IsSurrogatePair(high, low)
    ensures CombineSurrogates(high, low) as int
            == 0x10000 + (high as int - 0xD800) * 0x400 + (low as int - 0xDC00)
  {
    CombineArithmetic(high, low);
  }

  lemma CombineExamples()
    ensures CombineSurrogates(0xD800, 0xDC00) == 0x10000
    ensures CombineSurrogates(0xDBFF, 0xDFFF) == 0x10FFFF
    ensures CombineSurrogates(0xD83F, 0xDFFE) == 0x1FFFE
  {
  }

  /**
   * `*(pInput + 1)` at position `i`: the next code unit, or the NUL that
   * terminates a pinned string when `i` is the last position.
   */
  function UnitAfter(input: seq<bv16>, i: nat): bv16
    requires i < |input|
  {
    if i + 1 < |input| then input[i + 1] else 0
  }

  /** The units a routine accepts: a surrogate pair, or a unit that is no surrogate. */
  predicate WellFormedUnits(unit: bv16, next: bv16) {
    IsSurrogatePair(unit, next) || !IsSurrogate(unit)
  }

  /** The scalar value read from a unit and the unit after it. */
  function ScalarFrom(unit: bv16, next: bv16): (v: bv32)
    requires WellFormedUnits(unit, next)
    ensures Utf8.IsScalarValue(v)
    ensures IsSurrogatePair(unit, next) <==> 0x10000 <= v
  {
    if IsSurrogatePair(unit, next) then CombineSurrogates(unit, next) else unit as bv32
  }

  predicate WellFormedAt(input: seq<bv16>, i: nat)
    requires i < |input|
  {
    WellFormedUnits(input[i], UnitAfter(input, i))
  }

  /** A high surrogate in the last position meets the terminating NUL: it is lone. */
  lemma TrailingHighSurrogateIsLone(input: seq<bv16>)
    requires |input| > 0 && IsHighSurrogate(input[|input| - 1])
    ensures !WellFormedAt(input, |input| - 1)
  {
  }

  /** How many code units the encoder is handed at position `i`. */
  function UnitsConsumed(input: seq<bv16>, i: nat): (n: nat)
    requires i < |input|
    ensures n == 1 || n == 2
    ensures i + n <= |input|
    ensures n == 2 <==> IsSurrogatePair(input[i], UnitAfter(input, i))
  {
    if IsSurrogatePair(input[i], UnitAfter(input, i)) then 2 else 1
  }

  /**
   * UTF-16 decoding of the one scalar held by the code units handed to the
   * encoder; `None` for anything else (a lone surrogate, too many units).
   */
  function ScalarOf(units: seq<bv16>): (r: Option<bv32>)
    ensures r.Some? ==> Utf8.IsScalarValue(r.value)
  {
    if |units| == 1 && !IsSurrogate(units[0]) then Some(units[0] as bv32)
    else if |units| == 2 && IsSurrogatePair(units[0], units[1]) then Some(CombineSurrogates(units[0], units[1]))
    else None
  }

  /** The scalar value at position `i`. */
  function ScalarAt(input: seq<bv16>, i: nat): bv32
    requires i < |input| && WellFormedAt(input, i)
  {
    ScalarFrom(input[i], UnitAfter(input, i))
  }

  /**
   * A pair is handed to the encoder as two units, anything else as one; in
   * both cases they decode to the scalar at the position.
   */
  lemma ScalarAtUnits(input: seq<bv16>, i: nat)
    requires i < |input| && WellFormedAt(input, i)
    ensures ScalarOf(input[i .. i + UnitsConsumed(input, i)]) == Some(ScalarAt(input, i))
  {
  }

  /** The characters every routine appends for position `i`. */
  function PositionOutput(input: seq<bv16>, i: nat): seq<char>
    requires i < |input| && WellFormedAt(input, i)
  {
    EscapeBytes(Utf8.Utf8Bytes(ScalarAt(input, i)))
  }

  /**
   * Each position appends three characters per encoded byte: 3 to 12 of
   * them, and 12 exactly when the position holds a surrogate pair.
   */
  lemma PositionOutputLength(input: seq<bv16>, i: nat)
    requires i < |input| && WellFormedAt(input, i)
    ensures |PositionOutput(input, i)| == 3 * |Utf8.Utf8Bytes(ScalarAt(input, i))|
    ensures 3 <= |PositionOutput(input, i)| <= 3 * MaxNumberOfBytesEncoded
    ensures |PositionOutput(input, i)| == 3 * MaxNumberOfBytesEncoded <==> IsSurrogatePair(input[i], UnitAfter(input, i))
  {
    Utf8.ByteCountByMagnitude(ScalarAt(input, i));
  }

  /**
   * End to end: percent-decoding what was appended for position `i` gives
   * the UTF-8 bytes, and UTF-8 decoding those gives the scalar back.
   */
  lemma PositionOutputDecodes(input: seq<bv16>, i: nat)
    requires i < |input| && WellFormedAt(input, i)
    ensures PercentDecode(PositionOutput(input, i)) == Some(Utf8.Utf8Bytes(ScalarAt(input, i)))
    ensures Utf8.Decode(Utf8.Utf8Bytes(ScalarAt(input, i))) == Some(ScalarAt(input, i))
  {
    PercentDecodeEscapeBytes(Utf8.Utf8Bytes(ScalarAt(input, i)));
    Utf8.DecodeEncode(ScalarAt(input, i));
  }

  /**
   * `Encoding.UTF8.GetBytes` over the code units of one scalar, into a
   * buffer of `MaxNumberOfBytesEncoded` bytes.
   */
  method GetBytes(chars: seq<bv16>, bytes: array<bv8>) returns (byteCount: int)
    requires ScalarOf(chars).Some?
    requires bytes.Length == MaxNumberOfBytesEncoded
    modifies bytes
    ensures byteCount == |Utf8.Utf8Bytes(ScalarOf(chars).value)|
    ensures bytes[..byteCount] == Utf8.Utf8Bytes(ScalarOf(chars).value)
  {
    byteCount := Utf8.EncodeToUtf8(ScalarOf(chars).value, bytes);
  }

  /** `System.Text.Rune`: a Unicode scalar value. */
  datatype Rune = Rune(value: bv32)

  /** `new Rune(char)` for a unit that is no surrogate. */
  function RuneOfChar(unit: bv16): (r: Rune)
    requires !IsSurrogate(unit)
    ensures Utf8.IsScalarValue(r.value) && r.value <= 0xFFFF
  {
    Rune(unit as bv32)
  }

  /** `new Rune(char, char)` for a surrogate pair. */
  function RuneOfPair(high: bv16, low: bv16): (r: Rune)
    requires IsSurrogatePair(high, low)
    ensures Utf8.IsScalarValue(r.value) && 0x10000 <= r.value
  {
    Rune(CombineSurrogates(high, low))
  }

  /** `Rune.EncodeToUtf8` into a buffer of `MaxNumberOfBytesEncoded` bytes. */
  method EncodeRuneToUtf8(rune: Rune, destination: array<bv8>) returns (bytesWritten: int)
    requires Utf8.IsScalarValue(rune.value)
    requires destination.Length == MaxNumberOfBytesEncoded
    modifies destination
    ensures bytesWritten == |Utf8.Utf8Bytes(rune.value)|
    ensures destination[..bytesWritten] == Utf8.Utf8Bytes(rune.value)
  {
    bytesWritten := Utf8.EncodeToUtf8(rune.value, destination);
  }

  /**
   * Escapes the first `count` bytes of `encodedBytes` in order, by index;
   * the loop of `UnsafeCore` and `SpanCore`.
   */
  method EscapePrefix(encodedBytes: seq<bv8>, count: int, dest: ValueStringBuilder)
    requires 0 <= count <= |encodedBytes|
    modifies dest
    ensures dest.chars == old(dest.chars) + EscapeBytes(encodedBytes[..count])
  {
    var k := 0;
    while k < count
      invariant 0 <= k <= count
      invariant dest.chars == old(dest.chars) + EscapeBytes(encodedBytes[..k])
    {
      EscapeAsciiChar(encodedBytes[k] as bv16, dest);
      EscapeBytesSnoc(encodedBytes, k);
      k := k + 1;
    }
  }

  /** Escapes every byte of a slice in order; the `foreach` of `SpanSliceCore` and `RuneCore`. */
  method EscapeSlice(encodedBytes: seq<bv8>, dest: ValueStringBuilder)
    modifies dest
    ensures dest.chars == old(dest.chars) + EscapeBytes(encodedBytes)
  {
    for k := 0 to |encodedBytes|
      invariant dest.chars == old(dest.chars) + EscapeBytes(encodedBytes[..k])
    {
      EscapeAsciiChar(encodedBytes[k] as bv16, dest);
      EscapeBytesSnoc(encodedBytes, k);
    }
    assert encodedBytes[..|encodedBytes|] == encodedBytes;
  }

  /**
   * `UnsafeCore`: encode into the four bytes of a stack `int` through a
   * byte pointer, then escape the first `encodedBytesCount` of them.
   */
  method UnsafeCore(dest: ValueStringBuilder, input: seq<bv16>, i: nat)
    requires i < |input| && WellFormedAt(input, i)
    modifies dest
    ensures dest.chars == old(dest.chars) + PositionOutput(input, i)
  {
    var surrogatePair := IsSurrogatePair(input[i], UnitAfter(input, i));
    ScalarAtUnits(input, i);
    var encodedBytesBuffer := new bv8[MaxNumberOfBytesEncoded];
    var encodedBytesCount := GetBytes(input[i .. i + (if surrogatePair then 2 else 1)], encodedBytesBuffer);
    assert encodedBytesCount <= MaxNumberOfBytesEncoded;
    EscapePrefix(encodedBytesBuffer[..], encodedBytesCount, dest);
  }

  /** `SpanSliceCore`: encode into a stack span, slice it to the count, escape each byte. */
  method SpanSliceCore(dest: ValueStringBuilder, input: seq<bv16>, i: nat)
    requires i < |input| && WellFormedAt(input, i)
    modifies dest
    ensures dest.chars == old(dest.chars) + PositionOutput(input, i)
  {
    var surrogatePair := IsSurrogatePair(input[i], UnitAfter(input, i));
    ScalarAtUnits(input, i);
    var buffer := new bv8[MaxNumberOfBytesEncoded];
    var encodedBytesCount := GetBytes(input[i .. i + (if surrogatePair then 2 else 1)], buffer);
    var encodedBytes := buffer[..encodedBytesCount];
    EscapeSlice(encodedBytes, dest);
  }

  /** `SpanCore`: encode into a stack span, escape its first `encodedBytesCount` bytes by index. */
  method SpanCore(dest: ValueStringBuilder, input: seq<bv16>, i: nat)
    requires i < |input| && WellFormedAt(input, i)
    modifies dest
    ensures dest.chars == old(dest.chars) + PositionOutput(input, i)
  {
    var surrogatePair := IsSurrogatePair(input[i], UnitAfter(input, i));
    ScalarAtUnits(input, i);
    var encodedBytes := new bv8[MaxNumberOfBytesEncoded];
    var encodedBytesCount := GetBytes(input[i .. i + (if surrogatePair then 2 else 1)], encodedBytes);
    EscapePrefix(encodedBytes[..], encodedBytesCount, dest);
  }

  /** `RuneCore`: build a `Rune` from one unit or a pair, encode it, escape each byte. */
  method RuneCore(dest: ValueStringBuilder, input: seq<bv16>, i: nat)
    requires i < |input| && WellFormedAt(input, i)
    modifies dest
    ensures dest.chars == old(dest.chars) + PositionOutput(input, i)
  {
    var surrogatePair := IsSurrogatePair(input[i], UnitAfter(input, i));
    var buffer := new bv8[MaxNumberOfBytesEncoded];
    var rune := if surrogatePair then RuneOfPair(input[i], UnitAfter(input, i)) else RuneOfChar(input[i]);
    var encodedBytesCount := EncodeRuneToUtf8(rune, buffer);
    var encodedBytes := buffer[..encodedBytesCount];
    EscapeSlice(encodedBytes, dest);
  }

  /** The four benchmarks, one per per-position routine. */
  datatype Variant = UnsafeVariant | SpanVariant | SpanSliceVariant | RuneVariant

  /** The routine the benchmark `variant` calls at each position. */
  method RunCore(variant: Variant, dest: ValueStringBuilder, input: seq<bv16>, i: nat)
    requires i < |input| && WellFormedAt(input, i)
    modifies dest
    ensures dest.chars == old(dest.chars) + PositionOutput(input, i)
  {
    match variant {
      case UnsafeVariant => UnsafeCore(dest, input, i);
      case SpanVariant => SpanCore(dest, input, i);
      case SpanSliceVariant => SpanSliceCore(dest, input, i);
      case RuneVariant => RuneCore(dest, input, i);
    }
  }

  /**
   * Every position the driver visits from `i` on (it steps by two) is well
   * formed.
   */
  predicate VisitedWellFormed(input: seq<bv16>, i: nat)
    decreases |input| - i
  {
    i < |input| ==> WellFormedAt(input, i) && VisitedWellFormed(input, i + 2)
  }

  /** What the driver appends from position `i` on. */
  function DriverOutput(input: seq<bv16>, i: nat): seq<char>
    requires VisitedWellFormed(input, i)
    decreases |input| - i
  {
    if |input| <= i then [] else PositionOutput(input, i) + DriverOutput(input, i + 2)
  }

  lemma AppendAssociates<T>(a: seq<T>, b: seq<T>, c: seq<T>)
    ensures (a + b) + c == a + (b + c)
  {
  }

  /** One driver step: the output at `i` followed by the output from `i + 2`. */
  lemma DriverOutputStep(input: seq<bv16>, i: nat)
    requires VisitedWellFormed(input, i) && i < |input|
    ensures WellFormedAt(input, i) && VisitedWellFormed(input, i + 2)
    ensures DriverOutput(input, i) == PositionOutput(input, i) + DriverOutput(input, i + 2)
  {
  }

  /**
   * The loop of each benchmark: a builder, one routine call per visited
   * position, and the builder's length as the result.
   */
  method RunBenchmark(variant: Variant, testUri: seq<bv16>) returns (length: int)
    requires VisitedWellFormed(testUri, 0)
    ensures length == |DriverOutput(testUri, 0)|
  {
    var vsb := new ValueStringBuilder();
    var i: nat := 0;
    while i < |testUri|
      invariant VisitedWellFormed(testUri, i)
      invariant vsb.chars + DriverOutput(testUri, i) == DriverOutput(testUri, 0)
      decreases |testUri| - i
    {
      DriverOutputStep(testUri, i);
      ghost var before := vsb.chars;
      RunCore(variant, vsb, testUri, i);
      AppendAssociates(before, PositionOutput(testUri, i), DriverOutput(testUri, i + 2));
      i := i + 2;
    }
    length := vsb.Length();
  }

  /** `Enumerable.Repeat` followed by `string.Concat`: `n` copies of `s`. */
  function Repeat<T>(s: seq<T>, n: nat): (r: seq<T>)
    ensures |r| == n * |s|
  {
    if n == 0 then [] else s + Repeat(s, n - 1)
  }

  /** The pair every position of the benchmark string holds. */
  const TestPair: seq<bv16> := [0xD83F, 0xDFFE]

  /** The number of pairs in the benchmark string. */
  const TestPairCount := 1000

  /** `TestUri`: the pair, a thousand times. */
  const TestUri: seq<bv16> := Repeat(TestPair, TestPairCount)

  /** The escapes of the UTF-8 form of U+1FFFE. */
  const TestPairEscape: seq<char> := "%F0%9F%BF%BE"

  lemma TestPairBytes()
    ensures CombineSurrogates(0xD83F, 0xDFFE) == 0x1FFFE
    ensures Utf8.Utf8Bytes(0x1FFFE) == [0xF0, 0x9F, 0xBF, 0xBE]
  {
  }

  lemma LeadingEscapes()
    ensures Escaped(0xF0) == "%F0" && Escaped(0x9F) == "%9F"
  {
  }

  lemma TrailingEscapes()
    ensures Escaped(0xBF) == "%BF" && Escaped(0xBE) == "%BE"
  {
  }

  /** The pair (0xD83F, 0xDFFE) is U+1FFFE and escapes to `%F0%9F%BF%BE`. */
  lemma TestPairOutput(rest: seq<bv16>)
    ensures WellFormedAt(TestPair + rest, 0)
    ensures ScalarAt(TestPair + rest, 0) == 0x1FFFE
    ensures PositionOutput(TestPair + rest, 0) == TestPairEscape
  {
    var input := TestPair + rest;
    assert input[0] == 0xD83F && UnitAfter(input, 0) == 0xDFFE;
    TestPairBytes();
    var bytes: seq<bv8> := [0xF0, 0x9F, 0xBF, 0xBE];
    LeadingEscapes();
    TrailingEscapes();
    calc {
      EscapeBytes(bytes);
      { EscapeBytesAppend([0xF0, 0x9F], [0xBF, 0xBE]); assert bytes == [0xF0, 0x9F] + [0xBF, 0xBE]; }
      EscapeBytes([0xF0, 0x9F]) + EscapeBytes([0xBF, 0xBE]);
      { EscapeBytesAppend([0xF0], [0x9F]); EscapeBytesAppend([0xBF], [0xBE]);
        assert [0xF0, 0x9F] == [0xF0 as bv8] + [0x9F]; assert [0xBF, 0xBE] == [0xBF as bv8] + [0xBE]; }
      Escaped(0xF0) + Escaped(0x9F) + (Escaped(0xBF) + Escaped(0xBE));
    }
  }

  /** Position output depends only on the unit at the position and the unit after it. */
  lemma PositionOutputOfUnits(a: seq<bv16>, i: nat, b: seq<bv16>, j: nat)
    requires i < |a| && j < |b|
    requires a[i] == b[j] && UnitAfter(a, i) == UnitAfter(b, j)
    requires WellFormedAt(a, i)
    ensures WellFormedAt(b, j)
    ensures PositionOutput(a, i) == PositionOutput(b, j)
  {
  }

  /** Prefixing the input with `p` shifts every visited position by `|p|`. */
  lemma {:induction false} VisitedShift(p: seq<bv16>, rest: seq<bv16>, j: nat, k: nat)
    requires k == |p| + j
    requires VisitedWellFormed(rest, j)
    ensures VisitedWellFormed(p + rest, k)
    decreases |rest| - j
  {
    var input := p + rest;
    if j < |rest| {
      assert input[k] == rest[j];
      assert UnitAfter(input, k) == UnitAfter(rest, j);
      VisitedShift(p, rest, j + 2, k + 2);
    }
  }

  /** ... and leaves what the driver appends from there unchanged. */
  lemma {:induction false} DriverOutputShift(p: seq<bv16>, rest: seq<bv16>, j: nat, k: nat)
    requires k == |p| + j
    requires VisitedWellFormed(rest, j) && VisitedWellFormed(p + rest, k)
    ensures DriverOutput(p + rest, k) == DriverOutput(rest, j)
    decreases |rest| - j
  {
    if j < |rest| {
      ShiftedPositionWellFormed(p, rest, j, k);
      DriverOutputShift(p, rest, j + 2, k + 2);
      ShiftedPosition(p, rest, j, k);
    } else {
      assert |p + rest| <= k;
    }
  }

  lemma ShiftedPositionWellFormed(p: seq<bv16>, rest: seq<bv16>, j: nat, k: nat)
    requires k == |p| + j && j < |rest|
    requires VisitedWellFormed(rest, j) && VisitedWellFormed(p + rest, k)
    ensures VisitedWellFormed(rest, j + 2) && VisitedWellFormed(p + rest, k + 2)
  {
  }

  /** One position of the shift: equal outputs at the position, equal outputs after it. */
  lemma ShiftedPosition(p: seq<bv16>, rest: seq<bv16>, j: nat, k: nat)
    requires k == |p| + j && j < |rest|
    requires VisitedWellFormed(rest, j) && VisitedWellFormed(p + rest, k)
    requires VisitedWellFormed(rest, j + 2) && VisitedWellFormed(p + rest, k + 2)
    requires DriverOutput(p + rest, k + 2) == DriverOutput(rest, j + 2)
    ensures DriverOutput(p + rest, k) == DriverOutput(rest, j)
  {
    var input := p + rest;
    DriverOutputStep(rest, j);
    DriverOutputStep(input, k);
    assert input[k] == rest[j];
    assert UnitAfter(input, k) == UnitAfter(rest, j);
    PositionOutputOfUnits(rest, j, input, k);
  }

  /** The driver turns `n` copies of the test pair into `n` copies of its escape. */
  lemma {:induction false} RepeatedPairOutput(n: nat)
    ensures VisitedWellFormed(Repeat(TestPair, n), 0)
    ensures DriverOutput(Repeat(TestPair, n), 0) == Repeat(TestPairEscape, n)
  {
    if n > 0 {
      var rest := Repeat(TestPair, n - 1);
      var input := Repeat(TestPair, n);
      assert input == TestPair + rest;
      RepeatedPairOutput(n - 1);
      VisitedShift(TestPair, rest, 0, 2);
      DriverOutputShift(TestPair, rest, 0, 2);
      TestPairOutput(rest);
      DriverOutputStep(input, 0);
    }
  }

  /** The benchmark string yields exactly `TargetBuffer.Length` characters. */
  lemma TestUriOutputLength()
    ensures VisitedWellFormed(TestUri, 0)
    ensures |DriverOutput(TestUri, 0)| == TargetBufferLength
  {
    RepeatedPairOutput(TestPairCount);
  }

  /**
   * A benchmark run on `TestUri`; its length is the `TargetBuffer` size,
   * the fact the `Span` benchmark asserts.
   */
  method Benchmark(variant: Variant) returns (length: int)
    ensures length == TargetBufferLength
  {
    TestUriOutputLength();
    length := RunBenchmark(variant, TestUri);
  }

  /**
   * The driver steps by two whatever the position held: after a unit that
   * is not part of a pair, the next unit is not visited.
   */
  lemma DriverSkipsAfterSingleUnit()
    ensures VisitedWellFormed([0x61, 0x62], 0)
    ensures DriverOutput([0x61, 0x62], 0) == "%61"
  {
    var input: seq<bv16> := [0x61, 0x62];
    assert VisitedWellFormed(input, 2);
    assert WellFormedAt(input, 0);
    assert ScalarAt(input, 0) == 0x61;
    Utf8.OneByteForm(0x61);
    assert EscapeBytes([0x61]) == Escaped(0x61);
    DriverOutputStep(input, 0);
  }
}
