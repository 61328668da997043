# UTF-8 percent-escaping pipeline of BenchmarkPR32025

BenchmarkPR32025 compares four ways of doing one job. At each position of a UTF-16 string it:

- reads one code unit, or a surrogate pair;
- encodes the scalar value as UTF-8 (RFC 3629, section 3);
- appends each byte to a `ValueStringBuilder` as `%XX` with uppercase hex digits (RFC 3986, section 2.1).

This project models that core in Dafny and proves what it computes.

| module | file | models |
|---|---|---|
| `Wrappers` | `wrappers.dfy` | the `Option` datatype |
| `Utf8` | `utf8.dfy` | `UnsafeEncoding.EncodeToUtf8`, with a reference RFC 3629 decoder |
| `Text` | `value_string_builder.dfy` | `ValueStringBuilder` as an append-only character sequence |
| `UriHelper` | `uri_helper.dfy` | `HexUpperChars` and `EscapeAsciiChar`, with a reference percent-decoder |
| `Pipeline` | `pipeline.dfy` | the surrogate test, the scalar combination, `UnsafeCore`, `SpanSliceCore`, `SpanCore`, `RuneCore` and the benchmark loops |

Machine types are modelled exactly:

- `uint` is `bv32`, so `value + marker` wraps as unchecked C# does.
- `byte` is `bv8`, and the `(byte)` cast is `ToByte`, which keeps the low eight bits.
- A C# `char` (a UTF-16 code unit) is `bv16`.

The source adds an `int` marker constant to a `uint` value. The constant converts to `uint`, so the sum is 32-bit. Even if it were 64-bit, the bits that the shift and the byte cast keep would be the same.

No routine in `Program.cs` calls `UnsafeEncoding.EncodeToUtf8`. The model uses it as the stand-in for the UTF-8 encoding done by `Encoding.UTF8.GetBytes` and `Rune.EncodeToUtf8`. The encoder is a method that writes into an `array<bv8>`. It is proved against the pure function `Utf8.Utf8Bytes`. The four per-position routines are methods of `Pipeline` that take the builder as a parameter. Each is proved to append exactly `Pipeline.PositionOutput`, which is the escapes of the UTF-8 bytes of the scalar at that position. So all four append the same characters for the same well-formed position.

The benchmark loop is `Pipeline.RunBenchmark`. It is proved to return the length of `Pipeline.DriverOutput`. For the 1000-pair `TestUri` that length is 12000, the size of `TargetBuffer` (`Pipeline.Benchmark`).

Three behaviours of the loops are worth knowing:

- The loops step by two at every position, even after a single-unit character, so the unit after it is never visited (`Pipeline.DriverSkipsAfterSingleUnit`: for the input `ab` only `%61` is appended).
- A lone surrogate is excluded by precondition (`Pipeline.WellFormedAt`): `Encoding.UTF8.GetBytes` would substitute U+FFFD and `new Rune(char)` would throw.
- `*(pInput + 1)` is read even at the last position. For a pinned .NET string that read lands on the NUL terminator, which `Pipeline.UnitAfter` returns as 0.

## Model

| member | source | states |
|---|---|---|
| `Utf8.Utf8Bytes` | BenchmarkPR32025/UnsafeEncoding.cs:7-32 | the encoder emits between one and four bytes |
| `Utf8.EncodeToUtf8` | BenchmarkPR32025/UnsafeEncoding.cs:5-33 | `bytesWritten` is the byte count of `value`'s encoding, the first `bytesWritten` cells hold those bytes, and every later cell keeps its old content |
| `Utf8.OneByteForm` | BenchmarkPR32025/UnsafeEncoding.cs:7-11 | for `value <= 0x7F` the single byte written equals `value` |
| `Utf8.TwoByteForm` | BenchmarkPR32025/UnsafeEncoding.cs:12-17 | for 0x80..0x7FF the bytes are `0xC0 \| (v >> 6)` and `0x80 \| (v & 0x3F)`, and the lead byte lies in [0xC2, 0xDF] |
| `Utf8.ThreeByteForm` | BenchmarkPR32025/UnsafeEncoding.cs:18-24 | for 0x800..0xFFFF the lead byte is `0xE0 \| (v >> 12)`, and the continuation bytes carry bits 6-11 and then bits 0-5 |
| `Utf8.FourByteForm` | BenchmarkPR32025/UnsafeEncoding.cs:25-32 | for 0x10000..0x10FFFF the lead byte is `0xF0 \| (v >> 18)` and at most 0xF4, and the continuation bytes carry bits 12-17, 6-11 and 0-5 |
| `Utf8.LeadByteForms` | BenchmarkPR32025/UnsafeEncoding.cs:14-27 | the add-marker-and-shift lead bytes equal the prefix-or forms and lie in [0xC2,0xDF], [0xE0,0xEF] and [0xF0,0xF4] |
| `Utf8.ContinuationForms` | BenchmarkPR32025/UnsafeEncoding.cs:15-30 | the mask-shift-add-0x80 bytes equal `0x80 \| six payload bits` and lie in [0x80, 0xBF] |
| `Utf8.ToByteKeepsSmallValues` | BenchmarkPR32025/UnsafeEncoding.cs:9-30 | the `(byte)` cast is lossless on every quantity below 0x100, which covers every cast for a code point |
| `Utf8.ByteCountByMagnitude` | BenchmarkPR32025/UnsafeEncoding.cs:7-32 | the byte count is 1, 2, 3 or 4, fixed by the thresholds 0x7F, 0x7FF and 0xFFFF |
| `Utf8.LengthIsMinimal` | BenchmarkPR32025/UnsafeEncoding.cs:7-32 | the count is n exactly when the value needs 7, 11, 16 or 21 payload bits, so no form is overlong, including at the 0x7F/0x80, 0x7FF/0x800 and 0xFFFF/0x10000 boundaries |
| `Utf8.TrailingBytesAreContinuations` | BenchmarkPR32025/UnsafeEncoding.cs:14-30 | every byte after the first is a continuation byte in [0x80, 0xBF] |
| `Utf8.DecodeEncode` | BenchmarkPR32025/UnsafeEncoding.cs:7-32 | RFC 3629 decoding of the bytes written for any scalar value gives that value back |
| `Utf8.EncodeDecode` | BenchmarkPR32025/UnsafeEncoding.cs:7-32 | every byte string the RFC 3629 decoder accepts is exactly what the encoder writes for the decoded value |
| `Utf8.SurrogatesAreNotRoundTripped` | BenchmarkPR32025/UnsafeEncoding.cs:18-24 | a surrogate code point is given three bytes that no RFC 3629 decoder accepts |
| `Text.ValueStringBuilder.constructor` | BenchmarkPR32025/Program.cs:25 | a new builder has no content |
| `Text.ValueStringBuilder.Length` | BenchmarkPR32025/Program.cs:35 | `vsb.Length`: the number of characters appended so far, which `RunBenchmark` returns |
| `Text.ValueStringBuilder.Append` | BenchmarkPR32025/UriHelper.cs:16-18 | appending adds one character at the end and leaves the earlier content in place |
| `UriHelper.HexUpperChars` | BenchmarkPR32025/UriHelper.cs:8-12 | the sixteen ASCII codes '0'..'9', 'A'..'F'; `HexTableDigits` states their values |
| `UriHelper.TableChar` | BenchmarkPR32025/UriHelper.cs:17-18 | `(char)HexUpperChars[d]`, widening the byte to a character; `HexTableDigits` states it is the uppercase hex digit of value d |
| `UriHelper.HexTableDigits` | BenchmarkPR32025/UriHelper.cs:8-12 | the table has 16 entries: 0-9 map to '0'..'9' and 10-15 to 'A'..'F', and each entry is an uppercase hex digit whose value is its index |
| `UriHelper.HighNibble` | BenchmarkPR32025/UriHelper.cs:17 | `(ch & 0xf0) >> 4` is always in 0..15, so the table lookup is in bounds |
| `UriHelper.LowNibble` | BenchmarkPR32025/UriHelper.cs:18 | `ch & 0xf` is always in 0..15, so the table lookup is in bounds |
| `UriHelper.NibblesFormLowByte` | BenchmarkPR32025/UriHelper.cs:17-18 | the two nibble indices make up `ch & 0xFF` |
| `UriHelper.Escaped` | BenchmarkPR32025/UriHelper.cs:16-18 | an escape is three characters and the first is '%' |
| `UriHelper.EscapedDigits` | BenchmarkPR32025/UriHelper.cs:16-18 | both digits are uppercase hex digits, and read as a hex number they give `ch & 0xFF` |
| `UriHelper.EscapeAsciiChar` | BenchmarkPR32025/UriHelper.cs:14-19 | the builder's new content is its old content followed by the escape of `ch`, so it grows by exactly 3 and the earlier characters keep their order |
| `UriHelper.EscapeIgnoresHighByte` | BenchmarkPR32025/UriHelper.cs:17-18 | only the low byte of the code unit affects the escape |
| `UriHelper.EscapeExamples` | BenchmarkPR32025/UriHelper.cs:16-18 | 0xAB escapes to `%AB`, 0x00 to `%00` and 0xFF to `%FF` |
| `UriHelper.EscapeBytes` | BenchmarkPR32025/Program.cs:97-100 | escaping n bytes gives 3n characters |
| `UriHelper.EscapeBytesAppend` | BenchmarkPR32025/Program.cs:97-100 | escaping two byte strings one after the other gives the escapes of the joined string |
| `UriHelper.PercentDecodeEscapeBytes` | BenchmarkPR32025/UriHelper.cs:14-19 | percent-decoding the escapes of any byte string gives that byte string back |
| `Pipeline.IsSurrogatePair` | BenchmarkPR32025/Program.cs:90 | `char.IsSurrogatePair`: a high surrogate (0xD800-0xDBFF) followed by a low surrogate (0xDC00-0xDFFF); `SurrogatePairByOffsets` relates it to the offset form |
| `Pipeline.UnitAfter` | BenchmarkPR32025/Program.cs:90 | `*(pInput + 1)`: the next code unit, or the terminating NUL (0) at the last position; `TrailingHighSurrogateIsLone` states its consequence |
| `Pipeline.SurrogatePairByOffsets` | BenchmarkPR32025/Program.cs:90 | the surrogate-pair test holds exactly when the first unit is in 0xD800-0xDBFF and the second in 0xDC00-0xDFFF, which is the unsigned-offset form |
| `Pipeline.CombineSurrogates` | BenchmarkPR32025/Program.cs:129 | the scalar of a pair is a scalar value in [0x10000, 0x10FFFF] |
| `Pipeline.CombineArithmetic` | BenchmarkPR32025/Program.cs:129 | both offsets `hi - 0xD800` and `lo - 0xDC00` are at most 0x3FF, and the 32-bit scalar is `0x10000 + (hi - 0xD800) * 0x400 + (lo - 0xDC00)` |
| `Pipeline.CombineInIntegers` | BenchmarkPR32025/Program.cs:129 | the same formula holds over unbounded integers, so the 32-bit computation never wraps |
| `Pipeline.SplitCombine` | BenchmarkPR32025/Program.cs:129 | combining loses nothing: the RFC 2781 split of the scalar gives the pair back |
| `Pipeline.CombineSplit` | BenchmarkPR32025/Program.cs:129 | every supplementary scalar is the combination of the pair that RFC 2781 encodes it as |
| `Pipeline.CombineExamples` | BenchmarkPR32025/Program.cs:129 | (0xD800, 0xDC00) gives 0x10000, (0xDBFF, 0xDFFF) gives 0x10FFFF and (0xD83F, 0xDFFE) gives 0x1FFFE |
| `Pipeline.ScalarFrom` | BenchmarkPR32025/Program.cs:127-129 | a well-formed position yields a scalar value, at least 0x10000 exactly when it holds a pair |
| `Pipeline.TrailingHighSurrogateIsLone` | BenchmarkPR32025/Program.cs:90 | a high surrogate in the last position meets the terminating NUL, so it is a lone surrogate |
| `Pipeline.UnitsConsumed` | BenchmarkPR32025/Program.cs:94 | the encoder is handed 2 units for a pair and 1 otherwise, never reading beyond the string |
| `Pipeline.ScalarOf` | BenchmarkPR32025/Program.cs:106 | whatever one or two units decode to is a scalar value |
| `Pipeline.ScalarAtUnits` | BenchmarkPR32025/Program.cs:90-94 | the units handed to the encoder decode to the scalar at the position |
| `Pipeline.PositionOutputLength` | BenchmarkPR32025/Program.cs:94-100 | a position appends 3 characters per encoded byte: 3 to 12 in all, and 12 exactly for a pair |
| `Pipeline.PositionOutputDecodes` | BenchmarkPR32025/Program.cs:88-137 | percent-decoding a position's output gives the UTF-8 bytes, and UTF-8 decoding those gives the scalar |
| `Pipeline.GetBytes` | BenchmarkPR32025/Program.cs:94 | `Encoding.UTF8.GetBytes` writes the encoder's bytes for the units' scalar and returns their count |
| `Pipeline.RuneOfChar` | BenchmarkPR32025/Program.cs:129 | a rune built from a non-surrogate unit is a scalar value of at most 0xFFFF |
| `Pipeline.RuneOfPair` | BenchmarkPR32025/Program.cs:129 | a rune built from a pair is a supplementary scalar value |
| `Pipeline.EncodeRuneToUtf8` | BenchmarkPR32025/Program.cs:130 | `Rune.EncodeToUtf8` writes the encoder's bytes for the rune and returns their count |
| `Pipeline.EscapePrefix` | BenchmarkPR32025/Program.cs:97-100 | the indexed loop appends the escapes of the first `count` bytes, in order |
| `Pipeline.EscapeSlice` | BenchmarkPR32025/Program.cs:107-112 | the `foreach` over the slice appends the escapes of its bytes, in order |
| `Pipeline.UnsafeCore` | BenchmarkPR32025/Program.cs:88-101 | appends exactly the escapes of the UTF-8 bytes of the position's scalar, and never more than 4 bytes are encoded |
| `Pipeline.SpanSliceCore` | BenchmarkPR32025/Program.cs:102-113 | appends exactly the same characters as `UnsafeCore` |
| `Pipeline.SpanCore` | BenchmarkPR32025/Program.cs:114-123 | appends exactly the same characters as `UnsafeCore` |
| `Pipeline.RuneCore` | BenchmarkPR32025/Program.cs:125-137 | appends exactly the same characters as `UnsafeCore` |
| `Pipeline.RunCore` | BenchmarkPR32025/Program.cs:29-31 | whichever routine a benchmark calls, one position appends the same characters |
| `Pipeline.RunBenchmark` | BenchmarkPR32025/Program.cs:23-86 | each benchmark returns the length of the escapes of every position the two-step loop visits |
| `Pipeline.Repeat` | BenchmarkPR32025/Program.cs:17 | n copies of s have length n times the length of s |
| `Pipeline.TestPairBytes` | BenchmarkPR32025/Program.cs:17 | the test pair is U+1FFFE, which encodes as F0 9F BF BE |
| `Pipeline.TestPairOutput` | BenchmarkPR32025/Program.cs:17 | a position holding the test pair appends `%F0%9F%BF%BE` |
| `Pipeline.VisitedShift` | BenchmarkPR32025/Program.cs:29-31 | a prefix of even length leaves every visited position of the rest well formed |
| `Pipeline.DriverOutputShift` | BenchmarkPR32025/Program.cs:29-31 | a prefix of even length does not change what the loop appends for the rest |
| `Pipeline.RepeatedPairOutput` | BenchmarkPR32025/Program.cs:17-31 | n copies of the test pair give n copies of `%F0%9F%BF%BE` |
| `Pipeline.TestUriOutputLength` | BenchmarkPR32025/Program.cs:17-18 | `TestUri` gives exactly 12000 characters, the length of `TargetBuffer` |
| `Pipeline.Benchmark` | BenchmarkPR32025/Program.cs:38-54 | every benchmark returns 12000 on `TestUri`, which is the `Debug.Assert` of `Span` |
| `Pipeline.DriverSkipsAfterSingleUnit` | BenchmarkPR32025/Program.cs:29 | the loop steps by two even after a single unit, so for `ab` only `%61` is appended |

## Left out

- The BenchmarkDotNet harness has no behaviour to state: `Main`, the `[Benchmark]` attributes and the timing.
- Pointer pinning (`fixed`), pointer arithmetic and `stackalloc` have no Dafny counterpart. They become indexing into a `seq<bv16>` and fresh `array<bv8>` buffers of `MaxNumberOfBytesEncoded` cells. `UnsafeCore` reinterprets a stack `int` as four bytes; that becomes one such array.
- The internals of `Encoding.UTF8.GetBytes`, `Rune`, `Rune.EncodeToUtf8` and `char.IsSurrogatePair` are foreign code. They are given their standard semantics and reuse the encoder model.
- Lone surrogates are excluded by precondition. The library substitutes U+FFFD in `GetBytes` and throws in `new Rune(char)`, and neither is shown.
- `ValueStringBuilder` is not shown. Its storage, capacity, growth, pooling and the shared `TargetBuffer` are not modelled; only its content, a character sequence, is.
- `UriHelper.PercentDecode` accepts only strings made entirely of `%XX` triples. That is all the pipeline produces, so other RFC 3986 characters are not decoded.
