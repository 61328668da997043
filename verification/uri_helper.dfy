/**
 * Percent-escaping of one code unit as `%XX` with uppercase hex digits
 * (`UriHelper.HexUpperChars` and `UriHelper.EscapeAsciiChar`), together
 * with a reference percent-decoder in the sense of section 2.1 of RFC 3986.
 *
 * A UTF-16 code unit (a C# `char`) is a `bv16`; a byte is a `bv8`. The
 * characters that reach the output buffer are all ASCII, so they are
 * Dafny `char`s.
 */
module UriHelper {

  import opened Wrappers
  import opened Text

  /** The sixteen ASCII codes of the uppercase hex digits, indexed by nibble value. */
  const HexUpperChars: seq<bv8> :=
    [0x30, 0x31, 0x32, 0x33, 0x34, 0x35, 0x36, 0x37,
     0x38, 0x39, 0x41, 0x42, 0x43, 0x44, 0x45, 0x46]

  predicate IsUpperHexDigit(c: char) {
    '0' <= c <= '9' || 'A' <= c <= 'F'
  }

  /** HEXDIG of RFC 3986: digits and the letters A-F in either case. */
  predicate IsHexDigit(c: char) {
    IsUpperHexDigit(c) || 'a' <= c <= 'f'
  }

  /** The byte two hex digits stand for. */
  function HexByte(high: char, low: char): (b: bv8)
    requires IsHexDigit(high) && IsHexDigit(low)
  {
    (HexValue(high) * 16 + HexValue(low)) as bv8
  }

  /** The value of a hex digit, defined independently of the table. */
  function HexValue(c: char): (d: int)
    requires IsHexDigit(c)
    ensures 0 <= d < 16
  {
    if '0' <= c <= '9' then c as int - '0' as int
    else if 'A' <= c <= 'F' then c as int - 'A' as int + 10
    else c as int - 'a' as int + 10
  }

  /** The character `(char)HexUpperChars[d]`. */
  function TableChar(d: int): char
    requires 0 <= d < 16
  {
    HexUpperChars[d] as int as char
  }

  /**
   * The table maps 0-9 to '0'..'9' and 10-15 to 'A'..'F': each entry is the
   * ASCII code of an uppercase hex digit whose value is its index.
   */
  lemma HexTableDigits(d: int)
    requires 0 <= d < 16
    ensures |HexUpperChars| == 16
    ensures d < 10 ==> TableChar(d) as int == '0' as int + d
    ensures 10 <= d ==> TableChar(d) as int == 'A' as int + d - 10
    ensures IsUpperHexDigit(TableChar(d))
    ensures HexValue(TableChar(d)) == d
  {
  }

  /** `(ch & 0xf0) >> 4`: always a valid table index. */
  function HighNibble(ch: bv16): (n: int)
    ensures 0 <= n < 16
  {
    ((ch & 0xF0) >> 4) as int
  }

  /** `ch & 0xf`: always a valid table index. */
  function LowNibble(ch: bv16): (n: int)
    ensures 0 <= n < 16
  {
    (ch & 0xF) as int
  }

  /** The two nibbles make up the low byte of the code unit. */
  lemma NibblesFormLowByte(ch: bv16)
    ensures HighNibble(ch) * 16 + LowNibble(ch) == (ch & 0xFF) as int
  {
  }

  /** The three characters `EscapeAsciiChar` appends for `ch`. */
  function Escaped(ch: bv16): (r: seq<char>)
    ensures |r| == 3 && r[0] == '%'
  {
    ['%', TableChar(HighNibble(ch)), TableChar(LowNibble(ch))]
  }

  /**
   * Both digits of an escape are uppercase hex digits, and read as a hex
   * number they give back the low byte of `ch`.
   */
  lemma EscapedDigits(ch: bv16)
    ensures IsUpperHexDigit(Escaped(ch)[1]) && IsUpperHexDigit(Escaped(ch)[2])
    ensures HexValue(Escaped(ch)[1]) * 16 + HexValue(Escaped(ch)[2]) == (ch & 0xFF) as int
  {
    HexTableDigits(HighNibble(ch));
    HexTableDigits(LowNibble(ch));
    NibblesFormLowByte(ch);
  }

  /** Appends the escape of `ch` to `to`; what was there before stays in place. */
  method EscapeAsciiChar(ch: bv16, to: ValueStringBuilder)
    modifies to
    ensures to.chars == old(to.chars) + Escaped(ch)
    ensures |to.chars| == |old(to.chars)| + 3
  {
    to.Append('%');
    to.Append(TableChar(HighNibble(ch)));
    to.Append(TableChar(LowNibble(ch)));
  }

  /** Only the low byte of the code unit reaches the output. */
  lemma EscapeIgnoresHighByte(ch: bv16)
    ensures Escaped(ch) == Escaped(ch & 0xFF)
  {
    assert (ch & 0xF0) >> 4 == ((ch & 0xFF) & 0xF0) >> 4;
    assert ch & 0xF == (ch & 0xFF) & 0xF;
  }

  lemma EscapeExamples()
    ensures Escaped(0xAB) == "%AB"
    ensures Escaped(0x00) == "%00"
    ensures Escaped(0xFF) == "%FF"
  {
  }

  /** The escapes of a byte sequence, one `%XX` triple per byte, in order. */
  function EscapeBytes(bytes: seq<bv8>): (r: seq<char>)
    ensures |r| == 3 * |bytes|
  {
    if bytes == [] then []
    else Escaped(bytes[0] as bv16) + EscapeBytes(bytes[1..])
  }

  lemma {:induction false} EscapeBytesAppend(a: seq<bv8>, b: seq<bv8>)
    ensures EscapeBytes(a + b) == EscapeBytes(a) + EscapeBytes(b)
    decreases |a|
  {
    if a == [] {
      assert a + b == b;
    } else {
      assert (a + b)[1..] == a[1..] + b;
      EscapeBytesAppend(a[1..], b);
    }
  }

  /** Escaping one more byte appends its triple. */
  lemma EscapeBytesSnoc(bytes: seq<bv8>, k: int)
    requires 0 <= k < |bytes|
    ensures EscapeBytes(bytes[..k + 1]) == EscapeBytes(bytes[..k]) + Escaped(bytes[k] as bv16)
  {
    assert bytes[..k + 1] == bytes[..k] + [bytes[k]];
    EscapeBytesAppend(bytes[..k], [bytes[k]]);
  }

  /**
   * Percent-decoding of a string made only of `%XX` triples (RFC 3986,
   * section 2.1); any other character makes it fail.
   */
  function PercentDecode(s: seq<char>): Option<seq<bv8>>
  {
    if s == [] then Some([])
    else if 3 <= |s| && s[0] == '%' && IsHexDigit(s[1]) && IsHexDigit(s[2]) then
      match PercentDecode(s[3..])
      case None => None
      case Some(rest) => Some([HexByte(s[1], s[2])] + rest)
    else None
  }

  /** The escape of a byte reads back, as a hex number, as that byte. */
  lemma EscapedByteDecodes(b: bv8)
    ensures IsHexDigit(Escaped(b as bv16)[1]) && IsHexDigit(Escaped(b as bv16)[2])
    ensures HexByte(Escaped(b as bv16)[1], Escaped(b as bv16)[2]) == b
  {
    var e := Escaped(b as bv16);
    EscapedDigits(b as bv16);
    assert ((b as bv16) & 0xFF) as int == b as int;
    assert HexValue(e[1]) * 16 + HexValue(e[2]) == b as int;
  }

  /** Percent-decoding consumes one well-formed triple at the front. */
  lemma PercentDecodeTriple(e: seq<char>, rest: seq<char>, restBytes: seq<bv8>)
    requires |e| == 3 && e[0] == '%' && IsHexDigit(e[1]) && IsHexDigit(e[2])
    requires PercentDecode(rest) == Some(restBytes)
    ensures PercentDecode(e + rest) == Some([HexByte(e[1], e[2])] + restBytes)
  {
    assert (e + rest)[3..] == rest;
  }

  lemma PercentDecodeEscapeCons(b: bv8, rest: seq<bv8>)
    requires PercentDecode(EscapeBytes(rest)) == Some(rest)
    ensures PercentDecode(EscapeBytes([b] + rest)) == Some([b] + rest)
  {
    var e := Escaped(b as bv16);
    assert ([b] + rest)[1..] == rest;
    assert EscapeBytes([b] + rest) == e + EscapeBytes(rest);
    EscapedByteDecodes(b);
    PercentDecodeTriple(e, EscapeBytes(rest), rest);
  }

  /** Decode-back: percent-decoding the escapes of any bytes yields those bytes. */
  lemma {:induction false} PercentDecodeEscapeBytes(bytes: seq<bv8>)
    ensures PercentDecode(EscapeBytes(bytes)) == Some(bytes)
    decreases |bytes|
  {
    if bytes != [] {
      PercentDecodeEscapeBytes(bytes[1..]);
      PercentDecodeEscapeCons(bytes[0], bytes[1..]);
      assert [bytes[0]] + bytes[1..] == bytes;
    }
  }
}
