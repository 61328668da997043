/**
 * The branch-per-length UTF-8 encoder of `UnsafeEncoding.EncodeToUtf8`.
 *
 * The source works on a 32-bit unsigned `value` and casts each computed
 * 32-bit quantity to a byte; both are modelled exactly: `bv32` arithmetic
 * wraps like C#'s unchecked `uint`, and `ToByte` keeps the low eight bits
 * like the `(byte)` cast.
 */
module Utf8 {

  import opened Wrappers

  /** The largest Unicode code point. */
  const MaxCodePoint: bv32 := 0x10FFFF

  predicate IsSurrogateCodePoint(v: bv32) {
    0xD800 <= v <= 0xDFFF
  }

  /** A Unicode scalar value: a code point that is not a surrogate. */
  predicate IsScalarValue(v: bv32) {
    v <= MaxCodePoint && !IsSurrogateCodePoint(v)
  }

  /** The `(byte)` cast of C#: keeps the low eight bits. */
  function ToByte(x: bv32): bv8 {
    (x & 0xFF) as bv8
  }

  /**
   * The bytes `EncodeToUtf8` stores for `value`, in order. The lead byte
   * is formed by adding a length marker (0x6 << 11, 0xE << 16, 0x1E << 21)
   * and shifting, not by or-ing a prefix; `LeadByteForms` shows the two
   * agree.
   */
  function Utf8Bytes(value: bv32): (r: seq<bv8>)
    ensures 1 <= |r| <= 4
  {
    if value <= 0x7F then
      [ToByte(value)]
    else if value <= 0x7FF then
      [ToByte((value + (0x6 << 11)) >> 6),
       ToByte((value & 0x3F) + 0x80)]
    else if value <= 0xFFFF then
      [ToByte((value + (0xE << 16)) >> 12),
       ToByte(((value & (0x3F << 6)) >> 6) + 0x80),
       ToByte((value & 0x3F) + 0x80)]
    else
      [ToByte((value + (0x1E << 21)) >> 18),
       ToByte(((value & (0x3F << 12)) >> 12) + 0x80),
       ToByte(((value & (0x3F << 6)) >> 6) + 0x80),
       ToByte((value & 0x3F) + 0x80)]
  }

  /**
   * Writes the UTF-8 form of `value` to the front of `destination` and
   * reports how many bytes it wrote; the cells after those are untouched.
   */
  method EncodeToUtf8(value: bv32, destination: array<bv8>) returns (bytesWritten: int)
    requires |Utf8Bytes(value)| <= destination.Length
    modifies destination
    ensures bytesWritten == |Utf8Bytes(value)|
    ensures destination[..bytesWritten] == Utf8Bytes(value)
    ensures destination[bytesWritten..] == old(destination[bytesWritten..])
  {
    if value <= 0x7F {
      destination[0] := ToByte(value);
      bytesWritten := 1;
    } else if value <= 0x7FF {
      destination[0] := ToByte((value + (0x6 << 11)) >> 6);
      destination[1] := ToByte((value & 0x3F) + 0x80);
      bytesWritten := 2;
    } else if value <= 0xFFFF {
      destination[0] := ToByte((value + (0xE << 16)) >> 12);
      destination[1] := ToByte(((value & (0x3F << 6)) >> 6) + 0x80);
      destination[2] := ToByte((value & 0x3F) + 0x80);
      bytesWritten := 3;
    } else {
      destination[0] := ToByte((value + (0x1E << 21)) >> 18);
      destination[1] := ToByte(((value & (0x3F << 12)) >> 12) + 0x80);
      destination[2] := ToByte(((value & (0x3F << 6)) >> 6) + 0x80);
      destination[3] := ToByte((value & 0x3F) + 0x80);
      bytesWritten := 4;
    }
  }

  // ---------------------------------------------------------------------
  // A reference decoder: the UTF-8 syntax of section 4 of RFC 3629.
  // ---------------------------------------------------------------------

  predicate IsContinuation(b: bv8) {
    0x80 <= b <= 0xBF
  }

  /** The six payload bits of a continuation byte. */
  function Payload(b: bv8): bv32 {
    (b & 0x3F) as bv32
  }

  /** The value the decoder assembles from a two-byte form. */
  function Assemble2(b0: bv8, b1: bv8): bv32 {
    (((b0 & 0x1F) as bv32) << 6) | Payload(b1)
  }

  /** The value the decoder assembles from a three-byte form. */
  function Assemble3(b0: bv8, b1: bv8, b2: bv8): bv32 {
    (((b0 & 0x0F) as bv32) << 12) | (Payload(b1) << 6) | Payload(b2)
  }

  /** The value the decoder assembles from a four-byte form. */
  function Assemble4(b0: bv8, b1: bv8, b2: bv8, b3: bv8): bv32 {
    (((b0 & 0x07) as bv32) << 18) | (Payload(b1) << 12) | (Payload(b2) << 6) | Payload(b3)
  }

  /**
   * Decodes a byte sequence that must hold exactly one UTF-8 character.
   * Rejects overlong forms, encoded surrogates, code points above
   * U+10FFFF, bad lead bytes and missing or extra continuation bytes.
   */
  function Decode(b: seq<bv8>): Option<bv32> {
    if |b| == 1 && b[0] <= 0x7F then
      Some(b[0] as bv32)
    else if |b| == 2 && 0xC2 <= b[0] <= 0xDF && IsContinuation(b[1]) then
      Some(Assemble2(b[0], b[1]))
    else if |b| == 3 && 0xE0 <= b[0] <= 0xEF && IsContinuation(b[1]) && IsContinuation(b[2]) then
      var v := Assemble3(b[0], b[1], b[2]);
      if v < 0x800 || IsSurrogateCodePoint(v) then None else Some(v)
    else if |b| == 4 && 0xF0 <= b[0] <= 0xF4 && IsContinuation(b[1])
            && IsContinuation(b[2]) && IsContinuation(b[3]) then
      var v := Assemble4(b[0], b[1], b[2], b[3]);
      if v < 0x10000 || v > MaxCodePoint then None else Some(v)
    else
      None
  }

  // ---------------------------------------------------------------------
  // Bit-level facts. They are kept in lemmas of their own, apart from the
  // reasoning about sequences, so that each proof stays small.
  // ---------------------------------------------------------------------

  /** The `(byte)` cast is the identity on values that fit in a byte. */
  lemma ToByteKeepsSmallValues(x: bv32)
    requires x <= 0xFF
    ensures ToByte(x) == x as bv8
  {
  }

  /**
   * The marker-add-and-shift lead byte of each branch equals the usual
   * prefix-or form of RFC 3629 and lies in the lead-byte range of its length.
   */
  lemma LeadByteForms(v: bv32)
    requires v <= MaxCodePoint
    ensures 0x80 <= v <= 0x7FF ==>
      (v + (0x6 << 11)) >> 6 == 0xC0 | (v >> 6) && 0xC2 <= (v + (0x6 << 11)) >> 6 <= 0xDF
    ensures 0x800 <= v <= 0xFFFF ==>
      (v + (0xE << 16)) >> 12 == 0xE0 | (v >> 12) && 0xE0 <= (v + (0xE << 16)) >> 12 <= 0xEF
    ensures 0x10000 <= v ==>
      (v + (0x1E << 21)) >> 18 == 0xF0 | (v >> 18) && 0xF0 <= (v + (0x1E << 21)) >> 18 <= 0xF4
  {
  }

  /**
   * Each continuation quantity, `((v & (0x3F << k)) >> k) + 0x80`, is the
   * prefix-or form `0x80 | ((v >> k) & 0x3F)` and lies in [0x80, 0xBF].
   */
  lemma ContinuationForms(v: bv32)
    ensures ((v & (0x3F << 12)) >> 12) + 0x80 == 0x80 | ((v >> 12) & 0x3F)
    ensures ((v & (0x3F << 6)) >> 6) + 0x80 == 0x80 | ((v >> 6) & 0x3F)
    ensures (v & 0x3F) + 0x80 == 0x80 | (v & 0x3F)
    ensures 0x80 <= 0x80 | ((v >> 12) & 0x3F) <= 0xBF
    ensures 0x80 <= 0x80 | ((v >> 6) & 0x3F) <= 0xBF
    ensures 0x80 <= 0x80 | (v & 0x3F) <= 0xBF
  {
  }

  /** Splitting a two-byte value and assembling it again gives the value. */
  lemma SplitAssemble2(v: bv32)
    requires 0x80 <= v <= 0x7FF
    ensures 0xC2 <= (0xC0 | (v >> 6)) as bv8 <= 0xDF
    ensures IsContinuation((0x80 | (v & 0x3F)) as bv8)
    ensures Assemble2((0xC0 | (v >> 6)) as bv8, (0x80 | (v & 0x3F)) as bv8) == v
  {
  }

  /** Splitting a three-byte value and assembling it again gives the value. */
  lemma SplitAssemble3(v: bv32)
    requires 0x800 <= v <= 0xFFFF
    ensures 0xE0 <= (0xE0 | (v >> 12)) as bv8 <= 0xEF
    ensures IsContinuation((0x80 | ((v >> 6) & 0x3F)) as bv8)
    ensures IsContinuation((0x80 | (v & 0x3F)) as bv8)
    ensures Assemble3((0xE0 | (v >> 12)) as bv8, (0x80 | ((v >> 6) & 0x3F)) as bv8,
                      (0x80 | (v & 0x3F)) as bv8) == v
  {
  }

  /** Splitting a four-byte value and assembling it again gives the value. */
  lemma SplitAssemble4(v: bv32)
    requires 0x10000 <= v <= MaxCodePoint
    ensures 0xF0 <= (0xF0 | (v >> 18)) as bv8 <= 0xF4
    ensures IsContinuation((0x80 | ((v >> 12) & 0x3F)) as bv8)
    ensures IsContinuation((0x80 | ((v >> 6) & 0x3F)) as bv8)
    ensures IsContinuation((0x80 | (v & 0x3F)) as bv8)
    ensures Assemble4((0xF0 | (v >> 18)) as bv8, (0x80 | ((v >> 12) & 0x3F)) as bv8,
                      (0x80 | ((v >> 6) & 0x3F)) as bv8, (0x80 | (v & 0x3F)) as bv8) == v
  {
  }

  /** Assembling well-formed two-byte input and splitting it again gives the bytes. */
  lemma AssembleSplit2(b0: bv8, b1: bv8)
    requires 0xC2 <= b0 <= 0xDF && IsContinuation(b1)
    ensures 0x80 <= Assemble2(b0, b1) <= 0x7FF
    ensures (0xC0 | (Assemble2(b0, b1) >> 6)) as bv8 == b0
    ensures (0x80 | (Assemble2(b0, b1) & 0x3F)) as bv8 == b1
  {
  }

  /** Assembling well-formed three-byte input and splitting it again gives the bytes. */
  lemma AssembleSplit3(b0: bv8, b1: bv8, b2: bv8)
    requires 0xE0 <= b0 <= 0xEF && IsContinuation(b1) && IsContinuation(b2)
    requires 0x800 <= Assemble3(b0, b1, b2)
    ensures Assemble3(b0, b1, b2) <= 0xFFFF
    ensures (0xE0 | (Assemble3(b0, b1, b2) >> 12)) as bv8 == b0
    ensures (0x80 | ((Assemble3(b0, b1, b2) >> 6) & 0x3F)) as bv8 == b1
    ensures (0x80 | (Assemble3(b0, b1, b2) & 0x3F)) as bv8 == b2
  {
  }

  /** Assembling well-formed four-byte input and splitting it again gives the bytes. */
  lemma AssembleSplit4(b0: bv8, b1: bv8, b2: bv8, b3: bv8)
    requires 0xF0 <= b0 <= 0xF4 && IsContinuation(b1) && IsContinuation(b2) && IsContinuation(b3)
    requires 0x10000 <= Assemble4(b0, b1, b2, b3) <= MaxCodePoint
    ensures (0xF0 | (Assemble4(b0, b1, b2, b3) >> 18)) as bv8 == b0
    ensures (0x80 | ((Assemble4(b0, b1, b2, b3) >> 12) & 0x3F)) as bv8 == b1
    ensures (0x80 | ((Assemble4(b0, b1, b2, b3) >> 6) & 0x3F)) as bv8 == b2
    ensures (0x80 | (Assemble4(b0, b1, b2, b3) & 0x3F)) as bv8 == b3
  {
  }

  // ---------------------------------------------------------------------
  // Properties of the encoder.
  // ---------------------------------------------------------------------

  /** One byte, equal to the value, for U+0000..U+007F. */
  lemma OneByteForm(v: bv32)
    requires v <= 0x7F
    ensures Utf8Bytes(v) == [v as bv8]
  {
    ToByteKeepsSmallValues(v);
  }

  /**
   * Two bytes for U+0080..U+07FF: the lead byte is 110xxxxx carrying bits
   * 6-10 and lies in [0xC2, 0xDF]; the second is 10xxxxxx carrying bits 0-5.
   */
  lemma TwoByteForm(v: bv32)
    requires 0x80 <= v <= 0x7FF
    ensures Utf8Bytes(v) == [(0xC0 | (v >> 6)) as bv8, (0x80 | (v & 0x3F)) as bv8]
    ensures 0xC2 <= Utf8Bytes(v)[0] <= 0xDF
  {
    LeadByteForms(v);
    ContinuationForms(v);
    ToByteKeepsSmallValues((v + (0x6 << 11)) >> 6);
    ToByteKeepsSmallValues((v & 0x3F) + 0x80);
  }

  /**
   * Three bytes for U+0800..U+FFFF: lead byte 1110xxxx carrying bits 12-15,
   * then bits 6-11 and bits 0-5 in continuation bytes.
   */
  lemma ThreeByteForm(v: bv32)
    requires 0x800 <= v <= 0xFFFF
    ensures Utf8Bytes(v) == [(0xE0 | (v >> 12)) as bv8, (0x80 | ((v >> 6) & 0x3F)) as bv8,
                             (0x80 | (v & 0x3F)) as bv8]
  {
    LeadByteForms(v);
    ContinuationForms(v);
    ToByteKeepsSmallValues((v + (0xE << 16)) >> 12);
    ToByteKeepsSmallValues(((v & (0x3F << 6)) >> 6) + 0x80);
    ToByteKeepsSmallValues((v & 0x3F) + 0x80);
  }

  /**
   * Four bytes for U+10000..U+10FFFF: lead byte 11110xxx carrying bits
   * 18-20 and at most 0xF4, then bits 12-17, 6-11 and 0-5.
   */
  lemma FourByteForm(v: bv32)
    requires 0x10000 <= v <= MaxCodePoint
    ensures Utf8Bytes(v) == [(0xF0 | (v >> 18)) as bv8, (0x80 | ((v >> 12) & 0x3F)) as bv8,
                             (0x80 | ((v >> 6) & 0x3F)) as bv8, (0x80 | (v & 0x3F)) as bv8]
    ensures Utf8Bytes(v)[0] <= 0xF4
  {
    LeadByteForms(v);
    ContinuationForms(v);
    ToByteKeepsSmallValues((v + (0x1E << 21)) >> 18);
    ToByteKeepsSmallValues(((v & (0x3F << 12)) >> 12) + 0x80);
    ToByteKeepsSmallValues(((v & (0x3F << 6)) >> 6) + 0x80);
    ToByteKeepsSmallValues((v & 0x3F) + 0x80);
  }

  /** The byte count is 1 to 4 and is fixed by the magnitude thresholds alone. */
  lemma ByteCountByMagnitude(v: bv32)
    ensures |Utf8Bytes(v)| == if v <= 0x7F then 1 else if v <= 0x7FF then 2
                              else if v <= 0xFFFF then 3 else 4
  {
  }

  /**
   * The thresholds give the shortest form: for a code point the byte count
   * is the least n whose payload (7, 11, 16 or 21 bits) holds the value.
   */
  lemma LengthIsMinimal(v: bv32)
    requires v <= MaxCodePoint
    ensures |Utf8Bytes(v)| == 1 <==> v < 1 << 7
    ensures |Utf8Bytes(v)| == 2 <==> 1 << 7 <= v < 1 << 11
    ensures |Utf8Bytes(v)| == 3 <==> 1 << 11 <= v < 1 << 16
    ensures |Utf8Bytes(v)| == 4 <==> 1 << 16 <= v < 1 << 21
  {
    ByteCountByMagnitude(v);
  }

  /** Every byte after the first is a continuation byte 10xxxxxx. */
  lemma TrailingBytesAreContinuations(v: bv32)
    requires v <= MaxCodePoint
    ensures forall i :: 1 <= i < |Utf8Bytes(v)| ==> IsContinuation(Utf8Bytes(v)[i])
  {
    if 0x80 <= v <= 0x7FF {
      TwoByteForm(v);
    } else if 0x800 <= v <= 0xFFFF {
      ThreeByteForm(v);
    } else if 0x10000 <= v {
      FourByteForm(v);
    }
  }

  lemma DecodeTwoByteForm(v: bv32)
    requires 0x80 <= v <= 0x7FF
    ensures Decode(Utf8Bytes(v)) == Some(v)
  {
    TwoByteForm(v);
    SplitAssemble2(v);
    var b := Utf8Bytes(v);
    assert |b| == 2 && 0xC2 <= b[0] <= 0xDF && IsContinuation(b[1]);
    assert Assemble2(b[0], b[1]) == v;
  }

  lemma DecodeThreeByteForm(v: bv32)
    requires 0x800 <= v <= 0xFFFF
    ensures Decode(Utf8Bytes(v)) == if IsSurrogateCodePoint(v) then None else Some(v)
  {
    ThreeByteForm(v);
    SplitAssemble3(v);
    var b := Utf8Bytes(v);
    assert |b| == 3 && 0xE0 <= b[0] <= 0xEF && IsContinuation(b[1]) && IsContinuation(b[2]);
    assert Assemble3(b[0], b[1], b[2]) == v;
  }

  lemma DecodeFourByteForm(v: bv32)
    requires 0x10000 <= v <= MaxCodePoint
    ensures Decode(Utf8Bytes(v)) == Some(v)
  {
    FourByteForm(v);
    SplitAssemble4(v);
    var b := Utf8Bytes(v);
    assert |b| == 4 && 0xF0 <= b[0] <= 0xF4;
    assert IsContinuation(b[1]) && IsContinuation(b[2]) && IsContinuation(b[3]);
    assert Assemble4(b[0], b[1], b[2], b[3]) == v;
  }

  /**
   * Round trip: decoding the encoder's bytes gives back every scalar value,
   * including the boundary values on either side of each threshold.
   */
  lemma DecodeEncode(v: bv32)
    requires IsScalarValue(v)
    ensures Decode(Utf8Bytes(v)) == Some(v)
  {
    if v <= 0x7F {
      OneByteForm(v);
    } else if v <= 0x7FF {
      DecodeTwoByteForm(v);
    } else if v <= 0xFFFF {
      DecodeThreeByteForm(v);
    } else {
      DecodeFourByteForm(v);
    }
  }

  lemma EncodeAssembled2(b0: bv8, b1: bv8)
    requires 0xC2 <= b0 <= 0xDF && IsContinuation(b1)
    ensures Utf8Bytes(Assemble2(b0, b1)) == [b0, b1]
  {
    AssembleSplit2(b0, b1);
    TwoByteForm(Assemble2(b0, b1));
  }

  lemma EncodeAssembled3(b0: bv8, b1: bv8, b2: bv8)
    requires 0xE0 <= b0 <= 0xEF && IsContinuation(b1) && IsContinuation(b2)
    requires 0x800 <= Assemble3(b0, b1, b2)
    ensures Utf8Bytes(Assemble3(b0, b1, b2)) == [b0, b1, b2]
  {
    AssembleSplit3(b0, b1, b2);
    ThreeByteForm(Assemble3(b0, b1, b2));
  }

  lemma EncodeAssembled4(b0: bv8, b1: bv8, b2: bv8, b3: bv8, v: bv32)
    requires 0xF0 <= b0 <= 0xF4 && IsContinuation(b1) && IsContinuation(b2) && IsContinuation(b3)
    requires v == Assemble4(b0, b1, b2, b3) && 0x10000 <= v <= MaxCodePoint
    ensures Utf8Bytes(v) == [b0, b1, b2, b3]
  {
    AssembleSplit4(b0, b1, b2, b3);
    FourByteBytes(v, b0, b1, b2, b3);
  }

  lemma FourByteBytes(v: bv32, b0: bv8, b1: bv8, b2: bv8, b3: bv8)
    requires 0x10000 <= v <= MaxCodePoint
    requires (0xF0 | (v >> 18)) as bv8 == b0 && (0x80 | ((v >> 12) & 0x3F)) as bv8 == b1
    requires (0x80 | ((v >> 6) & 0x3F)) as bv8 == b2 && (0x80 | (v & 0x3F)) as bv8 == b3
    ensures Utf8Bytes(v) == [b0, b1, b2, b3]
  {
    FourByteForm(v);
  }

  lemma DecodedTwoByteForm(b: seq<bv8>, v: bv32)
    requires |b| == 2 && Decode(b) == Some(v)
    ensures IsScalarValue(v) && Utf8Bytes(v) == b
  {
    assert 0xC2 <= b[0] <= 0xDF && IsContinuation(b[1]) && v == Assemble2(b[0], b[1]);
    EncodeAssembled2(b[0], b[1]);
    assert b == [b[0], b[1]];
  }

  lemma DecodedThreeByteForm(b: seq<bv8>, v: bv32)
    requires |b| == 3 && Decode(b) == Some(v)
    ensures IsScalarValue(v) && Utf8Bytes(v) == b
  {
    assert 0xE0 <= b[0] <= 0xEF && IsContinuation(b[1]) && IsContinuation(b[2]);
    assert v == Assemble3(b[0], b[1], b[2]) && 0x800 <= v && !IsSurrogateCodePoint(v);
    EncodeAssembled3(b[0], b[1], b[2]);
    assert b == [b[0], b[1], b[2]];
  }

  lemma DecodedFourByteForm(b: seq<bv8>, v: bv32)
    requires |b| == 4 && Decode(b) == Some(v)
    ensures IsScalarValue(v) && Utf8Bytes(v) == b
  {
    assert 0xF0 <= b[0] <= 0xF4 && IsContinuation(b[1]) && IsContinuation(b[2]) && IsContinuation(b[3]);
    assert v == Assemble4(b[0], b[1], b[2], b[3]) && 0x10000 <= v <= MaxCodePoint;
    EncodeAssembled4(b[0], b[1], b[2], b[3], v);
    assert b == [b[0], b[1], b[2], b[3]];
  }

  /**
   * The other direction: every well-formed single-character byte sequence
   * is exactly what the encoder writes for the value it decodes to. So the
   * encoder never produces an overlong or otherwise alternative form.
   */
  lemma EncodeDecode(b: seq<bv8>, v: bv32)
    requires Decode(b) == Some(v)
    ensures IsScalarValue(v)
    ensures Utf8Bytes(v) == b
  {
    if |b| == 1 {
      OneByteForm(v);
    } else if |b| == 2 {
      DecodedTwoByteForm(b, v);
    } else if |b| == 3 {
      DecodedThreeByteForm(b, v);
    } else {
      DecodedFourByteForm(b, v);
    }
  }

  /**
   * The encoder does not check for surrogates: a surrogate code point gets
   * the three-byte pattern, which RFC 3629 forbids and the decoder rejects.
   */
  lemma SurrogatesAreNotRoundTripped(v: bv32)
    requires IsSurrogateCodePoint(v)
    ensures |Utf8Bytes(v)| == 3
    ensures Decode(Utf8Bytes(v)) == None
  {
    DecodeThreeByteForm(v);
  }
}
