# PDF object parser, modelled in Dafny

This project models the object layer of a PDF parser written in Rust with
the nom combinator library (`src/objects/`). The parser reads the object
grammar of section 7.3 of ISO 32000-1 from a byte buffer. It returns a typed
`Object` and the unconsumed rest of the buffer, or an error.

Each parser becomes a function `ParseX` from a byte sequence to a
`ParseResult<X>`, over a single recursive `Object` datatype.

- `Success(rest, value)` is nom's `Ok((rest, value))`.
- `Failure(kind)` is nom's `Err(..)`, with a few coarse error kinds.

The modules follow the source files:

| module | models |
|---|---|
| `Parsing` | bytes, the result type, and the nom combinators the parsers use (`tag`, `char`, `take_while`, `multispace0`/`multispace1`, `take_until`) |
| `BooleanParser`, `NullParser`, `NameParser` | `boolean.rs`, `null.rs`, `name.rs` |
| `NumberParser` | `number.rs`: `Integer` with its `i32` range and checked negation; `Real` as a sign and the consumed lexeme |
| `HexStrings` | the hexadecimal half of `string.rs`: `fix_hex_str` (a method with its loop), UTF-8 validation, pairwise hex decoding |
| `Brackets` | `take_until_unbalanced_bracket` (a method with its loop) and the depth/escape scan it performs |
| `Escapes` | `remove_esc_seq`: the right-to-left loop that edits a working copy with `remove`/`insert` while reading escape bytes from the original input (a method with its loop), `parse_octal` and `is_ascii_digit` |
| `StringParser` | `String::parse`, `parse_literal`, `parse_hexadecimal` |
| `ObjectParser` | `mod.rs`, `array.rs`, `dictionary.rs`, `stream.rs`, in one module because the parsers are mutually recursive |
| `NumberFacts`, `ScalarFacts`, `EscapeFacts`, `StringFacts`, `ObjectFacts`, `ObjectDispatch`, `ArrayFacts`, `DictionaryFacts`, `StreamFacts` | the properties of each parser |
| `ObjectExamples`, `ArrayExamples`, `DictionaryExamples`, `StreamExamples` | the unit tests of the source, stated as lemmas |

The main structure of the proofs is as follows.

Termination of the mutual recursion uses the measure `(|input|, rank)`.
The `many0` loops rank above `Object`, which ranks above `Stream`, which
ranks above `Dictionary` and `Array`. Every successful object parse consumes
at least one byte, so each `many0` iteration works on a strictly shorter
suffix.

The escape rewriter is modelled as written:

- `Escapes.Rewrite` is the reverse loop over `(input, working copy, index)`.
- `Escapes.RemoveEscSeq` is the same loop as a method that reassigns a
  `seq<byte>` with `Remove` and `Insert`.
- `EscapeFacts.Unescape` is an independent left-to-right reading.
- `EscapeFacts.RewriteIsUnescape` proves that the two agree on every input.

The loop invariant `Escapes.Ready` says that the working copy still equals
the input up to the next backslash at or after the index. It rules out the
index errors that `Vec::remove` would panic on.

Two consequences of the right-to-left order come out of the model
unchanged, as the code behaves:

- `\\n` yields a newline (`EscapeFacts.EscapedBackslashThenN`).
- A line continuation also swallows the newline byte that a later `\n` or
  `\r` escape produced (`EscapeFacts.ContinuationSwallowsEscapedBreak`).

Some behaviours of the code differ from a plain reading of the PDF
standard. These Dafny definitions follow the code.

- The second and third bytes of an octal escape are taken when they are
  decimal digits. An `8` or `9` there therefore makes the parse fail; it
  does not end the escape.
- A three-digit escape whose first digit is `4` or more overflows the
  checked `u8` arithmetic and fails. The standard says the high-order
  overflow is ignored.
- `\\` removes one backslash. The second backslash is then read as the
  start of an escape of its own.

The accessors `Array::get`, `Stream::get_info` and `Stream::get_data` are
the datatype fields `PdfArray.elements`, `PdfStream.info` and
`PdfStream.data`. `Name::get` and `Boolean::get` are the fields `bytes` and
`value`.

## Model

| member | source | states |
|---|---|---|
| Parsing.Tag | src/objects/null.rs:8 | `tag` succeeds exactly when the input starts with the token, and the rest is what follows it |
| Parsing.Char | src/objects/name.rs:11 | `char(c)` succeeds exactly when the first byte is `c`, and consumes only that byte |
| Parsing.Span | src/objects/number.rs:20 | `take_while` splits the input into the longest prefix that satisfies the predicate and a rest whose first byte does not |
| Parsing.SpanOf | src/objects/number.rs:20 | the split is unique: a run of matching bytes followed by a non-matching byte is exactly what `take_while` returns |
| Parsing.Multispace0 | src/objects/array.rs:16-17 | `multispace0` skips only whitespace, leaves a suffix, and the suffix does not start with whitespace |
| Parsing.Multispace0Of | src/objects/array.rs:16-17 | skipping whitespace is exact: whitespace followed by a non-whitespace byte leaves exactly that rest |
| Parsing.Multispace1 | src/objects/stream.rs:20 | `multispace1` needs at least one whitespace byte, then skips all of the run |
| Parsing.IndexOf | src/objects/string.rs:19 | `take_until(">")` finds the first `>`: every earlier byte differs, and with no `>` it fails |
| BooleanParser.Parse | src/objects/boolean.rs:6-11 | succeeds exactly when the input starts with `true` or `false`, and consumes only the keyword of the value it returns |
| BooleanParser.RoundTrip | src/objects/boolean.rs:6-11 | the keyword of a Boolean, followed by anything, parses back to that Boolean and leaves the rest |
| BooleanParser.NewGet | src/objects/boolean.rs:13-18 | `Boolean::new(b).get() == b` |
| ScalarFacts.BooleanText | src/objects/boolean.rs:6-11 | a Boolean keyword followed by any rest parses to that Boolean with that rest |
| ScalarFacts.BooleanTrue | src/objects/boolean.rs:24-29 | `true` gives Boolean(true) and an empty rest |
| ScalarFacts.BooleanFalse | src/objects/boolean.rs:30-35 | `false` gives Boolean(false) and an empty rest |
| ScalarFacts.BooleanTrailingText | src/objects/boolean.rs:36-41 | `truebu` gives true and leaves `bu` |
| ScalarFacts.BooleanLeadingSpace | src/objects/boolean.rs:42-46 | leading whitespace is not skipped: ` true` fails |
| NullParser.Parse | src/objects/null.rs:7-9 | succeeds exactly when the input starts with `null`, and the rest is what follows the four bytes |
| NullParser.RoundTrip | src/objects/null.rs:7-9 | `null` followed by anything parses to Null and leaves the rest |
| ScalarFacts.NullText | src/objects/null.rs:7-9 | `null` then any rest gives Null with that rest |
| ScalarFacts.NullKeyword | src/objects/null.rs:15-20 | `null` gives Null and an empty rest |
| ScalarFacts.NullTruncated | src/objects/null.rs:21-25 | `nul` fails |
| ScalarFacts.NullLeadingSpace | src/objects/null.rs:8 | ` null` fails: the token must be at offset 0 |
| NameParser.Parse | src/objects/name.rs:9-16 | succeeds exactly when a `/` is followed by at least one regular byte; the body is non-empty, holds no delimiter, and the rest is empty or starts with a delimiter |
| NameParser.RoundTrip | src/objects/name.rs:9-16 | `/` then any valid body then a delimiter (or nothing) parses back to that name |
| NameParser.NewGet | src/objects/name.rs:17-22 | `Name::new(b).get() == b` |
| ScalarFacts.NameText | src/objects/name.rs:9-16 | `/body` followed by a delimiter gives the name `body` and leaves the delimiter |
| ScalarFacts.NameSimple | src/objects/name.rs:29-34 | `/Name1` gives `Name1` and an empty rest |
| ScalarFacts.NameStopsAtPercent | src/objects/name.rs:35-40 | `/A;Name_With-various***characters?%` stops at `%` |
| ScalarFacts.LongBody | src/objects/name.rs:12 | `;`, `_`, `-`, `*` and `?` are regular name bytes |
| ScalarFacts.NameEmptyBody | src/objects/name.rs:41-45 | `/%` fails: the body may not be empty |
| ScalarFacts.NameStopsAtSpace | src/objects/name.rs:46-51 | `/A ` gives `A` and leaves the space |
| NumberParser.ParseI32 | src/objects/number.rs:24 | `str::parse::<i32>` of a digit run succeeds exactly when the run is non-empty and its decimal value is at most `i32::MAX`, giving that value |
| NumberParser.OptSign | src/objects/number.rs:18 | `opt(alt((char('+'), char('-'))))` takes a sign exactly when the first byte is one |
| NumberParser.SignInteger | src/objects/number.rs:59-66 | negates only for `-`, and fails only when it would have to negate `i32::MIN` |
| NumberParser.ParseInteger | src/objects/number.rs:17-28 | on success the consumed bytes are an optional sign and a non-empty digit run, the value is the one they denote, and the rest does not start with a digit or a dot |
| NumberFacts.DecimalRoundTrip | src/objects/number.rs:23-24 | the decimal digits of `n` have the value `n` |
| NumberFacts.IntegerRoundTrip | src/objects/number.rs:17-28 | every `i32` except `i32::MIN`, written in decimal and followed by a non-digit, non-dot byte, parses back to itself |
| NumberFacts.IntegerText | src/objects/number.rs:17-28 | the same with the input given as a parameter |
| NumberFacts.IntegerAccepts | src/objects/number.rs:17-28 | no sign, `+` or `-`, then any non-empty digit run up to `i32::MAX` (leading zeros included) followed by a byte that is neither digit nor dot, parse to the signed value of the digits, leaving that byte |
| NumberFacts.IntegerInput | src/objects/number.rs:18-22 | the sign is taken first, then the run of digits and dots up to the first other byte |
| NumberFacts.MinimumRejected | src/objects/number.rs:23-26 | `-2147483648` fails: `2147483648` does not fit `i32` when read without its sign |
| NumberFacts.DotRejected | src/objects/number.rs:19-22 | a maximal run of digits and dots that holds a dot is rejected |
| NumberFacts.TooLargeRejected | src/objects/number.rs:23-24 | a digit run whose value exceeds `i32::MAX` fails |
| NumberFacts.NoDigitsRejected | src/objects/number.rs:20-24 | an empty digit run fails, with or without a sign |
| NumberFacts.ParseInteger123 | src/objects/number.rs:82-86 | `123` gives 123 and an empty rest |
| NumberFacts.ParseIntegerPlus17 | src/objects/number.rs:88-92 | `+17` gives 17 |
| NumberFacts.ParseIntegerMinus98 | src/objects/number.rs:94-98 | `-98` gives -98 |
| NumberFacts.IntegerTrailingDotRejected | src/objects/number.rs:100-103 | `1.` fails |
| NumberFacts.IntegerLeadingDotRejected | src/objects/number.rs:105-108 | `.1` fails |
| NumberFacts.IntegerLeadingSpaceRejected | src/objects/number.rs:110-113 | ` 1` fails |
| NumberParser.SignReal | src/objects/number.rs:68-75 | the Real is negative exactly when the sign is `-`, and keeps the lexeme |
| NumberParser.RealLexeme | src/objects/number.rs:40-43 | the recognised lexeme is digits with an optional dot and digits, or a dot and at least one digit; the rest does not continue it |
| NumberParser.ParseReal | src/objects/number.rs:38-49 | on success the input is the sign, a valid lexeme and the rest; the value is negative exactly when the sign is `-` |
| NumberFacts.RealLexemeOf | src/objects/number.rs:40-43 | every lexeme of either form, followed by a byte that cannot extend it, is recognised exactly |
| NumberFacts.LexemeWholeDot | src/objects/number.rs:41 | digits, a dot and optional digits form the first alternative |
| NumberFacts.LexemeDotFrac | src/objects/number.rs:42 | a dot and at least one digit form the second alternative |
| NumberFacts.RealRoundTrip | src/objects/number.rs:38-49 | no sign, `+` or `-`, then any Real lexeme followed by a byte that cannot extend it, parse back to that lexeme, negative exactly for `-` |
| NumberFacts.RealInput | src/objects/number.rs:38-49 | the same with the input given as a parameter |
| NumberFacts.RealRejected | src/objects/number.rs:38-49 | an input that starts with neither a sign, a digit nor a dot is no Real |
| NumberFacts.ParseReal345 | src/objects/number.rs:115-119 | `34.5` is consumed whole |
| NumberFacts.ParseRealPlus345 | src/objects/number.rs:121-125 | `+34.5` is a positive Real |
| NumberFacts.ParseRealMinus345 | src/objects/number.rs:127-131 | `-34.5` is a negative Real with lexeme `34.5` |
| NumberFacts.ParseRealTrailingDot | src/objects/number.rs:133-137 | `34.` is consumed whole |
| NumberFacts.ParseRealLeadingDot | src/objects/number.rs:139-143 | `.34` is consumed whole |
| NumberFacts.ParseRealNoDot | src/objects/number.rs:145-149 | `34` is consumed whole |
| NumberFacts.ParseRealSecondDot | src/objects/number.rs:151-155 | `1.2.3` gives `1.2` and leaves `.3` |
| NumberFacts.ParseRealLeadingSpace | src/objects/number.rs:157-160 | ` 1.2.3` fails |
| NumberFacts.ParseRealExponent | src/objects/number.rs:162-166 | `1.2e-1` gives `1.2` and leaves `e-1` |
| HexStrings.Utf8SequenceLength | src/objects/string.rs:20 | an ASCII byte is a one-byte sequence; `0x80`–`0xC1` and bytes above `0xF4` start none |
| HexStrings.AsciiIsUtf8 | src/objects/string.rs:20 | ASCII text passes `from_utf8` |
| HexStrings.Utf8RejectsBadLead | src/objects/string.rs:20 | text starting with an invalid lead byte fails `from_utf8` |
| HexStrings.Utf8Concat | src/objects/string.rs:20 | `IsUtf8`, the model of `from_utf8` succeeding, holds for valid text followed by more valid text |
| HexStrings.HexDigitsOf | src/objects/string.rs:157 | the filter keeps only hex digits, in order |
| HexStrings.HexDigitsOfHex | src/objects/string.rs:157 | a string of hex digits is kept whole by the filter |
| HexStrings.HexDigitsOfNone | src/objects/string.rs:157 | a string without hex digits filters to nothing |
| HexStrings.HexDigitsOfAppend | src/objects/string.rs:157 | the filter distributes over concatenation |
| HexStrings.FixHex | src/objects/string.rs:156-163 | the result has even length, holds only hex digits, starts with the filtered digits, is one byte longer exactly when their count is odd, and that last byte is `0` |
| HexStrings.FixHexStr | src/objects/string.rs:156-163 | the filter-and-push loop computes `FixHex` |
| HexStrings.HexDecode | src/objects/string.rs:22 | `hex::decode` succeeds exactly on an even number of hex digits, and byte `k` is the value of digits `2k` and `2k+1` |
| HexStrings.DecodePairs | src/objects/string.rs:22 | pairwise decoding of an even-length string succeeds exactly when all bytes are hex digits |
| HexStrings.DecodeEncode | src/objects/string.rs:22 | decoding the hex encoding of any bytes gives those bytes back |
| HexStrings.FixedHexDecodes | src/objects/string.rs:21-22 | the decode after `fix_hex_str` cannot fail, and gives half the padded digit count in bytes |
| StringParser.ParseHexadecimal | src/objects/string.rs:18-25 | succeeds exactly when `<` is followed by a `>` and the text between is UTF-8; the rest follows the first `>` and the bytes are the decoded, padded hex digits of the text |
| StringParser.ParseLiteral | src/objects/string.rs:13-17 | succeeds exactly when `(` is followed by a balanced span and the escape rewrite of that span succeeds; input is `(`, span, `)`, rest |
| StringParser.Parse | src/objects/string.rs:10-12 | the hexadecimal form is tried first and the literal form only when it fails |
| StringFacts.HexString | src/objects/string.rs:18-25 | `<text>` with no `>` in the ASCII text gives the decoded, padded hex digits of the text |
| StringFacts.HexUnterminated | src/objects/string.rs:19 | `<` with no `>` after it fails |
| StringFacts.HexNotUtf8 | src/objects/string.rs:20 | `<text>` whose text is not UTF-8 fails |
| StringFacts.HexBlank | src/objects/string.rs:156-163 | `<text>` whose text holds no hex digit gives the empty string |
| StringFacts.ParseString1 | src/objects/string.rs:191-195 | `<901fa3>` gives `[0x90, 0x1f, 0xa3]` |
| StringFacts.ParseString2 | src/objects/string.rs:197-201 | `<901fa>` is padded to `[0x90, 0x1f, 0xa0]` |
| StringFacts.ParseString3 | src/objects/string.rs:203-207 | the spaces in `< 9 0 1 f a 3 >` are ignored |
| StringFacts.ParseString4 | src/objects/string.rs:209-213 | `<  >` gives the empty string |
| Brackets.ScanAppend | src/objects/string.rs:35-46 | the scan state after one more byte is one loop step from the state before |
| Brackets.ClosingIndex | src/objects/string.rs:35-51 | the index where the loop breaks is the first at which the depth reaches -1, or there is none |
| Brackets.TakeUnbalanced | src/objects/string.rs:31-63 | succeeds exactly when the depth reaches -1; the span before is balanced and unescaped at its end, and the rest starts with that `)` |
| Brackets.TakeUntilUnbalancedBracket | src/objects/string.rs:31-63 | the loop over `balance`, `is_escaped` and `index` computes `TakeUnbalanced` |
| Brackets.DepthStep | src/objects/string.rs:36-46 | each byte moves the depth by at most one, and it only goes down at an unescaped `)` |
| Brackets.DepthNonNegative | src/objects/string.rs:47-50 | before the closing index the depth is never negative |
| Brackets.ClosingIsUnescapedParen | src/objects/string.rs:39-41 | the closing byte is a `)` not preceded by an active escape, after a balanced span |
| Brackets.BackslashToggles | src/objects/string.rs:42-43 | a backslash toggles the escape flag and leaves the depth |
| Brackets.EscapedBracketKeepsDepth | src/objects/string.rs:36-46 | `\(` and `\)` leave the depth as it was |
| Brackets.BracketsMoveDepth | src/objects/string.rs:36-41 | an unescaped `(` raises the depth by one and an unescaped `)` lowers it by one |
| Brackets.ScanPlain | src/objects/string.rs:35-46 | text without brackets keeps depth 0 |
| Brackets.TakeBalanced | src/objects/string.rs:31-63 | a span that never goes below depth 0 and ends balanced is returned whole, and the rest starts at the `)` after it |
| Brackets.ClosingIndexIs | src/objects/string.rs:47-50 | the first index at depth -1 is where the loop stops |
| Brackets.TakePlain | src/objects/string.rs:31-63 | text without brackets that does not end in a backslash is the span before the next `)` |
| StringFacts.LiteralString | src/objects/string.rs:13-17 | `(text)rest` with a balanced text gives the escape rewrite of the text and leaves the rest |
| StringFacts.LiteralEscapeFails | src/objects/string.rs:15 | if the escape rewrite fails, the literal fails |
| StringFacts.LiteralUnbalanced | src/objects/string.rs:56-58 | `(` followed by bytes in which the depth never reaches -1 fails |
| StringFacts.PlainLiteral | src/objects/string.rs:13-17 | a literal without brackets or backslashes gives its text unchanged |
| StringFacts.ParseString5 | src/objects/string.rs:215-219 | `( This is string number 1? )` keeps its spaces |
| StringFacts.ParseString6 | src/objects/string.rs:221-225 | `(strangeonium spectroscopy)` gives its text |
| StringFacts.ThreeLines | src/objects/string.rs:71-80 | one continuation, then a continuation followed by a second one, join three lines |
| StringFacts.ParseString7 | src/objects/string.rs:227-232 | the three-line literal gives `This string is split across three lines` |
| StringFacts.TwoOctalEscapes | src/objects/string.rs:120-146 | two three-digit octal escapes each become one byte |
| StringFacts.ParseString8 | src/objects/string.rs:234-242 | `\245` and `\307` become `0o245` and `0o307` |
| StringFacts.ParseString9 | src/objects/string.rs:244-248 | `(\24)` gives `[0o24]` |
| StringFacts.ParseString10 | src/objects/string.rs:250-254 | `(\24r)` gives `[0o24, 'r']` |
| StringFacts.ParseString11 | src/objects/string.rs:256-260 | `(\2)` gives `[0o2]` |
| StringFacts.ParseString12 | src/objects/string.rs:262-266 | `(\2r)` gives `[0o2, 'r']` |
| StringFacts.ParseString13 | src/objects/string.rs:269-273 | `(())` gives `()` |
| StringFacts.ParseString14 | src/objects/string.rs:275-278 | `(()` fails |
| StringFacts.PairDepths | src/objects/string.rs:36-41 | `()` goes to depth 1 and back to 0 |
| StringFacts.ParseString15 | src/objects/string.rs:280-290 | `(()(()))` gives `()(())` |
| StringFacts.NestedDepths | src/objects/string.rs:36-41 | the depth inside `()(())` never goes below 0 and ends at 0 |
| StringFacts.ParseString17 | src/objects/string.rs:292-296 | `(\))` gives `)` |
| StringFacts.ParseString18 | src/objects/string.rs:298-302 | `(\()` gives `(` |
| Escapes.DropLineBreaks | src/objects/string.rs:73-79 | the inner loop removes only CR and LF bytes at the index, keeps the bytes before it, and stops at the first other byte or at the end |
| Escapes.ByteAt | src/objects/string.rs:69 | `input.get(k)` is `Some` exactly when `k` is in range, holding that byte |
| Escapes.NamedEscape | src/objects/string.rs:81-115 | a byte after a backslash is a named escape exactly when it is one of `n r t b f ( )`; the byte it stands for is never a backslash, and is the letter itself exactly for `(` and `)` |
| Escapes.CheckedPow8 | src/objects/string.rs:178 | `8u8.checked_pow(exp)` succeeds exactly for `exp < 3`, giving `8^exp` |
| Escapes.CheckedMul | src/objects/string.rs:177 | `u8::checked_mul` succeeds exactly when the product fits in a byte, giving the product |
| Escapes.CheckedAdd | src/objects/string.rs:133-137 | `u8::checked_add` succeeds exactly when the sum fits in a byte, giving the sum |
| Escapes.ParseOctal | src/objects/string.rs:172-185 | on success the byte is `0`–`7`, `exp < 3`, and the value is the digit times `8^exp`; the exact failure set is `EscapeFacts.ParseOctalInput` |
| Escapes.IsAsciiDigit | src/objects/string.rs:165-170 | `is_ascii_digit` reports a decimal digit and passes the byte through, and reports false for `None` |
| Escapes.OctalEscape | src/objects/string.rs:120-140 | the octal arm spans one to three bytes after the backslash, each a decimal digit, with the third only when the second is one |
| Escapes.OctalBound | src/objects/string.rs:120-146 | the digits of an octal escape hold no backslash |
| Escapes.EditReady | src/objects/string.rs:67-150 | an edit at a backslash that keeps the bytes before it keeps the loop invariant |
| Escapes.Step | src/objects/string.rs:68-148 | one iteration keeps `res[..i]`, keeps the invariant, never grows the buffer, and changes nothing at a byte that is not a backslash |
| Escapes.Rewrite | src/objects/string.rs:67-151 | the loop down to index `lo` keeps `res[..lo]`, keeps the invariant and never grows the buffer |
| Escapes.EscapeAt | src/objects/string.rs:68-150 | the loop body with its `remove` and `insert` calls and its inner `while` loop computes `Step` |
| Escapes.RemoveEscSeq | src/objects/string.rs:65-154 | the reverse loop over a working copy computes `EscapesRemoved` |
| EscapeFacts.ParseOctalInput | src/objects/string.rs:305-318 | `parse_octal(exp, c)` fails exactly when `exp >= 3`, `c` is not `0`–`7`, or `exp == 2` and `c >= '4'` |
| EscapeFacts.ParseOctalOutput | src/objects/string.rs:319-330 | for `exp < 2` and a digit `n <= 7`, `parse_octal` gives `n * 8^exp` |
| EscapeFacts.StepOctal | src/objects/string.rs:130-145 | the octal arm either fails, or removes the backslash and the digits and inserts the value |
| EscapeFacts.RewriteSplit | src/objects/string.rs:67 | running the loop to `lo` is running it to `mid` and then on from there |
| EscapeFacts.RewritePlain | src/objects/string.rs:68 | indices without a backslash leave the working copy alone |
| EscapeFacts.RewriteShift | src/objects/string.rs:67-151 | on a backslash-free prefix the loop over the rest works as on the rest alone, the prefix carried along |
| EscapeFacts.PlainPrefix | src/objects/string.rs:65-154 | a backslash-free prefix comes through the rewriter unchanged |
| EscapeFacts.RewriteIsUnescape | src/objects/string.rs:65-154 | the right-to-left loop equals the left-to-right reading `Unescape` on every input |
| EscapeFacts.UnescapePrefix | src/objects/string.rs:65-154 | the left-to-right reading carries a backslash-free prefix along unchanged |
| EscapeFacts.NoEscapesUnchanged | src/objects/string.rs:65-154 | a buffer without backslashes is returned unchanged |
| EscapeFacts.UnescapeFrom | src/objects/string.rs:65-154 | behind a backslash-free prefix, the rewriter gives the prefix followed by the left-to-right reading of the rest |
| EscapeFacts.NamedEscapeBecomesOneByte | src/objects/string.rs:81-115 | between backslash-free text, each of `\n \r \t \b \f \( \)` becomes its one byte |
| EscapeFacts.UnescapeNamed | src/objects/string.rs:81-115 | in front of any rest, a named escape becomes its one byte followed by the rewrite of the rest |
| EscapeFacts.DoubleBackslashBecomesOne | src/objects/string.rs:116-118 | between backslash-free text, `\\` becomes one backslash when the byte after it starts no escape |
| EscapeFacts.EscapedBackslashThenN | src/objects/string.rs:81-118 | as written, `\\n` between backslash-free text becomes a newline |
| EscapeFacts.UnrecognisedEscapeKept | src/objects/string.rs:147 | between backslash-free text, a backslash before a byte that starts no escape stays, and so does the byte |
| EscapeFacts.LineContinuation | src/objects/string.rs:71-80 | between backslash-free text, a backslash and the whole run of CR and LF after it are removed |
| EscapeFacts.UnescapeContinuationThen | src/objects/string.rs:71-80 | in front of any rest, a continuation gives the rewrite of the rest with its leading CR and LF bytes dropped |
| EscapeFacts.ContinuationThen | src/objects/string.rs:71-80 | a continuation drops the line breaks at the front of what the rest rewrites to |
| EscapeFacts.ContinuationSwallowsEscapedBreak | src/objects/string.rs:71-95 | as written, a continuation also removes the newline that a following `\n` or `\r` produced |
| EscapeFacts.OctalThreeDigits | src/objects/string.rs:120-146 | between backslash-free text, three octal digits, the first at most `3`, become the one byte `64*d1 + 8*d2 + d3` |
| EscapeFacts.UnescapeOctal3 | src/objects/string.rs:120-146 | in front of any rest, the same byte followed by the rewrite of the rest |
| EscapeFacts.OctalTwoDigits | src/objects/string.rs:120-146 | between backslash-free text, two octal digits not followed by a decimal digit become `8*d1 + d2` |
| EscapeFacts.UnescapeOctal2 | src/objects/string.rs:120-146 | in front of any rest that does not start with a digit, the same byte followed by the rewrite of the rest |
| EscapeFacts.OctalOneDigit | src/objects/string.rs:120-146 | between backslash-free text, one octal digit not followed by a decimal digit becomes its value |
| EscapeFacts.UnescapeOctal1 | src/objects/string.rs:120-146 | in front of any rest that does not start with a digit, the digit's value followed by the rewrite of the rest |
| EscapeFacts.OctalSecondDigitNotOctal | src/objects/string.rs:121-134 | an `8` or `9` as the second digit fails the rewrite |
| EscapeFacts.OctalThirdDigitNotOctal | src/objects/string.rs:122-138 | an `8` or `9` as the third digit fails the rewrite |
| EscapeFacts.OctalLeadingDigitTooLarge | src/objects/string.rs:130 | a three-digit escape whose first digit is `4` or more overflows and fails |
| ObjectParser.ParseObject | src/objects/mod.rs:38-51 | a successful parse consumes at least one byte and leaves a suffix of the input |
| ObjectParser.FirstSuccess | src/objects/mod.rs:39-49 | the alternatives from the `i`-th on, tried in order |
| ObjectParser.Alternative | src/objects/mod.rs:40-48 | the `i`-th alternative of `alt`, each leaving a strict suffix |
| ObjectParser.Lift | src/objects/mod.rs:40-48 | `.map(Object::X)` keeps success, rest and value, wrapped in the variant |
| ObjectFacts.DispatchOrder | src/objects/mod.rs:38-51 | the result is that of the first alternative that succeeds, in the order Name, Integer, Stream, Dictionary, String, Real, Boolean, Array, Null |
| ObjectFacts.DispatchFails | src/objects/mod.rs:38-51 | the parse fails exactly when all nine alternatives fail |
| ObjectFacts.SomeAlternativeSucceeds | src/objects/mod.rs:38-51 | a successful parse comes from some alternative |
| ObjectFacts.FirstSuccessIs | src/objects/mod.rs:39-49 | after failing alternatives, the first one that succeeds decides |
| ObjectFacts.AllAlternativesFail | src/objects/mod.rs:39-49 | with all of them failing, `alt` fails |
| ObjectFacts.NameAlternative | src/objects/mod.rs:40 | the first alternative is Name wrapped in `Object::Name` |
| ObjectFacts.IntegerAlternative | src/objects/mod.rs:41 | the second is Integer |
| ObjectFacts.StreamAlternative | src/objects/mod.rs:42 | the third is Stream |
| ObjectFacts.DictionaryAlternative | src/objects/mod.rs:43 | the fourth is Dictionary |
| ObjectFacts.StringAlternative | src/objects/mod.rs:44 | the fifth is String |
| ObjectFacts.RealAlternative | src/objects/mod.rs:45 | the sixth is Real |
| ObjectFacts.BooleanAlternative | src/objects/mod.rs:46 | the seventh is Boolean |
| ObjectFacts.ArrayAlternative | src/objects/mod.rs:47 | the eighth is Array |
| ObjectFacts.NullAlternative | src/objects/mod.rs:48 | the ninth is Null |
| ObjectFacts.AlternativeStart | src/objects/mod.rs:40-48 | each alternative succeeds only on its own first bytes |
| ObjectFacts.ObjectStart | src/objects/mod.rs:38-51 | an object starts with `/`, a sign, a digit, `.`, `<`, `(`, `t`, `f`, `[` or `n` |
| ObjectFacts.ObjectLeadingSpace | src/objects/mod.rs:38-51 | an object never starts with whitespace |
| ObjectFacts.ObjectRejectsCloser | src/objects/mod.rs:38-51 | `]` and `>` start no object, which is how `many0` stops before a closer |
| ObjectFacts.NotDictionary | src/objects/dictionary.rs:22 | without `<<` there is no dictionary |
| ObjectDispatch.ObjectIsName | src/objects/mod.rs:40 | a Name parse is the object's result |
| ObjectDispatch.ObjectIsInteger | src/objects/mod.rs:41 | an Integer parse is the object's result |
| ObjectDispatch.ObjectIsStream | src/objects/mod.rs:42 | a Stream parse is the object's result |
| ObjectDispatch.ObjectIsDictionary | src/objects/mod.rs:43 | a Dictionary parse is the object's result unless a Stream parse succeeds |
| ObjectDispatch.ObjectIsString | src/objects/mod.rs:44 | a String parse is the object's result unless a Dictionary parse succeeds |
| ObjectDispatch.ObjectIsReal | src/objects/mod.rs:45 | a Real parse is the object's result unless an Integer parse succeeds |
| ObjectDispatch.ObjectIsBoolean | src/objects/mod.rs:46 | a Boolean parse is the object's result |
| ObjectDispatch.ObjectIsArray | src/objects/mod.rs:47 | an Array parse is the object's result |
| ObjectDispatch.ObjectIsNull | src/objects/mod.rs:48 | a Null parse is the object's result |
| ObjectParser.GetBoolean | src/objects/mod.rs:58-91 | `get_obj::<Boolean>` is `Some` exactly for the Boolean variant, holding its value |
| ObjectParser.GetName | src/objects/mod.rs:71-91 | the same for Name |
| ObjectParser.GetInteger | src/objects/mod.rs:58-91 | the same for Integer |
| ObjectParser.GetReal | src/objects/mod.rs:58-91 | the same for Real |
| ObjectParser.GetString | src/objects/mod.rs:58-91 | the same for String |
| ObjectParser.GetArray | src/objects/mod.rs:71-91 | the same for Array |
| ObjectParser.GetNull | src/objects/mod.rs:58-91 | the same for Null |
| ObjectParser.GetDictionary | src/objects/mod.rs:71-91 | the same for Dictionary |
| ObjectParser.GetStream | src/objects/mod.rs:71-91 | the same for Stream |
| ObjectExamples.ObjectTrue | src/objects/mod.rs:97-103 | `true` is the Boolean true, found by `get_obj` |
| ObjectExamples.ObjectName | src/objects/mod.rs:104-110 | `/name` is the Name `name` |
| ObjectExamples.ObjectInteger | src/objects/mod.rs:111-117 | `5` is the Integer 5 |
| ObjectExamples.ObjectReal | src/objects/mod.rs:118-124 | `5.` is a Real, because Integer rejects the dot |
| ObjectExamples.ObjectLiteralString | src/objects/mod.rs:125-131 | `(str)` is the String `str` |
| ObjectExamples.ObjectHexString | src/objects/mod.rs:132-138 | `<abc>` is the String `[0xab, 0xc0]`, because Stream and Dictionary need `<<` |
| ObjectExamples.ObjectNull | src/objects/mod.rs:146-152 | `null` is Null |
| ObjectParser.ParseArray | src/objects/array.rs:13-21 | a parsed array starts with `[` and its rest directly follows a `]` |
| ObjectParser.ParseElements | src/objects/array.rs:16 | `many0` leaves a suffix, and with no element it restores the input |
| ArrayFacts.ElementsChain | src/objects/array.rs:16 | the elements are read off the input in order, each an object after optional whitespace |
| ArrayFacts.ElementsMaximal | src/objects/array.rs:16 | `many0` stops only where no further object follows |
| ArrayFacts.ElementsUnique | src/objects/array.rs:16 | any chain of objects that ends where no object follows is what `many0` returns |
| ArrayFacts.ElementsStep | src/objects/array.rs:16 | an object after the whitespace is the first element, with the others after it |
| ArrayFacts.ElementsStop | src/objects/array.rs:16 | with no object after the whitespace, `many0` returns nothing and the whole input |
| ArrayFacts.ArrayOf | src/objects/array.rs:13-21 | `[`, a chain of objects, optional whitespace and `]` is the array of those objects |
| ArrayFacts.ArrayElements | src/objects/array.rs:13-21 | a parsed array holds exactly the chain `many0` read after `[`, and no object follows the chain |
| ArrayFacts.ArrayUnclosed | src/objects/array.rs:17 | an input without `]` is no array |
| ArrayFacts.ArrayNeedsOpening | src/objects/array.rs:15 | an input that does not start with `[` is no array |
| ArrayFacts.ArrayHasClosing | src/objects/array.rs:17 | every parsed array contains a `]` |
| ArrayExamples.ParseArray1 | src/objects/array.rs:33-37 | `[]` is the empty array |
| ArrayExamples.ParseArray2 | src/objects/array.rs:39-44 | `[1.0]` holds the Real `1.0` |
| ArrayExamples.ParseArray3 | src/objects/array.rs:46-53 | `[/size 1.0]` holds the Name `size` and the Real `1.0`, in order |
| ArrayExamples.ParseArray4 | src/objects/array.rs:55-62 | whitespace after `[` and before `]` is skipped |
| ArrayExamples.ParseArray5 | src/objects/array.rs:64-73 | the third element of `[ /size 1.0 []]` is the empty array |
| ArrayExamples.ParseArray6 | src/objects/array.rs:75-85 | the third element of `[ /size 1.0 [true]]` is an array holding true |
| ArrayExamples.ObjectMixedArray | src/objects/mod.rs:139-145 | `[ 3.14 -5 true (Ralph) /SomeName ]` is an Array of five elements: Real, Integer, Boolean, String, Name |
| ObjectParser.ParseDictionary | src/objects/dictionary.rs:20-36 | a parsed dictionary starts with `<<` and its rest directly follows `>>` |
| ObjectParser.ParseEntries | src/objects/dictionary.rs:23-26 | `many0` of pairs leaves a suffix, and with no pair it restores the input |
| ObjectParser.WithoutNulls | src/objects/dictionary.rs:30-31 | the filter keeps exactly the pairs whose value is not Null |
| ObjectParser.Collect | src/objects/dictionary.rs:32 | the keys of the map are exactly the keys of the pairs |
| ObjectParser.Get | src/objects/dictionary.rs:17-19 | `get` is `Some` exactly for a stored key, holding its value |
| ObjectParser.IsEmpty | src/objects/dictionary.rs:37-39 | `is_empty` holds exactly when no key is stored |
| DictionaryFacts.EntriesChain | src/objects/dictionary.rs:23-26 | the pairs are read off the input in order, each a Name and an Object after optional whitespace |
| DictionaryFacts.EntriesMaximal | src/objects/dictionary.rs:23-26 | `many0` stops only where no further pair follows |
| DictionaryFacts.EntriesUnique | src/objects/dictionary.rs:23-26 | any chain of pairs ending where no pair follows is what `many0` returns |
| DictionaryFacts.EntriesStep | src/objects/dictionary.rs:23-26 | a Name and an Object after whitespace form the first pair, with the others after it |
| DictionaryFacts.EntriesStop | src/objects/dictionary.rs:23-26 | with no pair ahead, `many0` returns nothing and the whole input |
| DictionaryFacts.DictionaryOf | src/objects/dictionary.rs:20-36 | `<<`, a chain of pairs, optional whitespace and `>>` give the map of the non-null pairs |
| DictionaryFacts.DictionaryParts | src/objects/dictionary.rs:20-36 | a parsed dictionary is `<<`, the pairs `many0` read, and `>>` after whitespace; its map is the collected non-null pairs |
| DictionaryFacts.DictionaryEntries | src/objects/dictionary.rs:20-36 | the same, with the pairs a maximal chain |
| DictionaryFacts.WithoutNullsAppend | src/objects/dictionary.rs:31 | the filter distributes over concatenation |
| DictionaryFacts.CollectLastWins | src/objects/dictionary.rs:32 | when a key appears again only before, the last pair decides its value |
| DictionaryFacts.CollectFrom | src/objects/dictionary.rs:32 | every stored value comes from the last pair with that key |
| DictionaryFacts.CollectNoNull | src/objects/dictionary.rs:31-32 | no stored value is Null |
| DictionaryFacts.CollectKeys | src/objects/dictionary.rs:31-32 | a key is stored exactly when some pair with a non-null value has it |
| DictionaryFacts.CollectLastNonNull | src/objects/dictionary.rs:29-33 | a key's value is that of its last non-null pair, even after later null pairs with the same key |
| DictionaryFacts.NoNullStored | src/objects/dictionary.rs:31 | no value of a parsed dictionary is Null |
| DictionaryFacts.DictionaryKeys | src/objects/dictionary.rs:29-33 | a key is in the parsed dictionary exactly when some parsed pair with a non-null value has it |
| DictionaryFacts.DictionaryLastWins | src/objects/dictionary.rs:29-33 | `get` of a key returns the value of its last non-null pair |
| DictionaryFacts.DictionaryUnclosed | src/objects/dictionary.rs:27 | without a `>` there is no dictionary |
| DictionaryFacts.KeyWithoutObject | src/objects/dictionary.rs:23-27 | after any chain of pairs, a Name not followed by an object leaves its `/` where `>>` must be, so the dictionary fails |
| DictionaryFacts.DanglingKey | src/objects/dictionary.rs:23-27 | `<</key>>` fails for every key |
| DictionaryExamples.ParseDictionary1 | src/objects/dictionary.rs:48-52 | `<<>>` is the empty dictionary |
| DictionaryExamples.ParseDictionary2 | src/objects/dictionary.rs:54-63 | `<</Version 0.1>>` maps `Version` to the Real `0.1` |
| DictionaryExamples.ParseDictionary3 | src/objects/dictionary.rs:65-74 | whitespace before a key and before `>>` is skipped |
| DictionaryExamples.ParseDictionary4 | src/objects/dictionary.rs:76-87 | `<</Type /Dic /Version 0.1>>` maps both keys |
| DictionaryExamples.ParseDictionary5 | src/objects/dictionary.rs:89-105 | a nested dictionary is a value, and `>>>>` closes both levels |
| DictionaryExamples.ParseDictionary6 | src/objects/dictionary.rs:107-111 | `<</var null>>` is empty |
| DictionaryExamples.ParseDictionary7 | src/objects/dictionary.rs:113-126 | `/Sub null` is absent while the other keys remain |
| DictionaryExamples.ParseDictionaryPrinz | src/objects/mod.rs:153-159 | `<</Name (Prinz)>>` maps `Name` to the String `Prinz` |
| DictionaryExamples.KeyWithoutValue | src/objects/dictionary.rs:23-27 | `<</Key>>` fails: the key has no value |
| ObjectParser.ParseStream | src/objects/stream.rs:17-39 | a parsed stream leaves a rest that directly follows `endstream` |
| ObjectParser.StreamKeyword | src/objects/stream.rs:20 | after optional whitespace, `stream` must be followed by at least one whitespace byte, and all of the run is consumed |
| ObjectParser.StreamBody | src/objects/stream.rs:23-38 | the payload is the one `Length` selects, and the rest follows `endstream` |
| ObjectParser.StreamPayload | src/objects/stream.rs:24-27 | a payload exists exactly when `Length` is an Integer between 0 and the bytes left, and it is that many bytes from the front |
| StreamFacts.StreamOf | src/objects/stream.rs:17-39 | a dictionary whose `Length` is the payload size, `stream`, whitespace, the payload, optional whitespace and `endstream` give that stream, the empty payload of `Length 0` included |
| StreamFacts.EmptyStream | src/objects/stream.rs:20-38 | with `Length 0`, `stream`, whitespace and `endstream` give the empty payload |
| StreamFacts.StreamParts | src/objects/stream.rs:17-39 | a parsed stream's info is the parsed dictionary, its `Length` is the payload size, the payload starts right after the whitespace that follows `stream`, and `endstream` follows |
| StreamFacts.StreamNoLength | src/objects/stream.rs:24 | without `Length`, or with a `Length` that is not an Integer, there is no stream |
| StreamFacts.StreamNegativeLength | src/objects/stream.rs:25 | a negative `Length` fails |
| StreamFacts.StreamTooShort | src/objects/stream.rs:26-27 | fewer bytes than `Length` fail |
| StreamFacts.StreamNoEnd | src/objects/stream.rs:36-38 | no `endstream` after the payload fails, even with a valid dictionary and payload |
| StreamFacts.StreamNeedsSpace | src/objects/stream.rs:20 | `stream` not followed by whitespace fails |
| StreamFacts.NotStream | src/objects/stream.rs:18-22 | a dictionary not followed by `stream` is no stream |
| StreamFacts.DictionaryThenCloser | src/objects/stream.rs:18-22 | a dictionary followed by `>` is no stream, so the object is the dictionary |
| StreamExamples.ParseStream1 | src/objects/stream.rs:53-65 | `<</Length 3>>stream\nabc\nendstream` is consumed whole, with `Length` 3 and payload `abc` |
| StreamExamples.ParseStream2 | src/objects/stream.rs:67-96 | the 93-byte test input is consumed whole, with `Length` 59 and the 59 bytes after `stream\n` as payload |
| StreamExamples.ObjectStream6 | src/objects/mod.rs:160-174 | `<</Length 6>>stream\nstream\nendstream` is a Stream object with `Length` 6 and payload `stream` |
| StreamExamples.ShortLength | src/objects/stream.rs:36-38 | `Length 2` before `abc\nendstream` fails: `c` is not `endstream` |

## Left out

- NumberParser.ParseReal: the `f32` value that `str::parse` and the float negation compute is not modelled. A Real is its sign and the lexeme it consumed.
- NumberParser.SignReal: states the sign and the lexeme, not a float value, for the same reason.
- Brackets.TakeUntilUnbalancedBracket: the `balance` counter is an unbounded integer. The `i32` saturation can only matter for spans of more than two billion brackets.
- nom's error values: the failure kinds are a few coarse constructors. nom's error positions and its `Error`/`Failure`/`Incomplete` distinction are not modelled; all parsers used are the `complete` ones.
- The `hex` crate is modelled as pairwise decoding of an even-length string of digits, in either case. `core::str::from_utf8` is modelled by the well-formed byte sequences of the Unicode standard (Table 3-7).
- `HashMap` is a Dafny `map`. Hashing and iteration order are not modelled. The parsed pairs can repeat a key; `HashMap::from_iter` keeps the later pair, and so does `Collect` (`DictionaryFacts.CollectLastWins`).
- Lifetimes and borrowing are not modelled. `Name` bytes and stream payloads are copies of the input bytes, not slices into it.
- `get_obj` returns an `Option` of the value, not of a reference.
- Recursion depth and stack exhaustion are host resource limits, not logic.
- The derive macros (`Debug`, `Clone`, `PartialEq`, `Hash`) are not modelled.
- Kani harness scaffolding is not modelled; its assertions are the lemmas `EscapeFacts.ParseOctalInput` and `EscapeFacts.ParseOctalOutput`.
- Integer::get and Integer::new, Real::get and Real::new are the datatype fields and constructors.
- StreamExamples.ParseStream2: the 93-byte input is written as three byte displays (head, payload, tail) so that it can be indexed. Their concatenation is the test's array.
- DictionaryExamples.ParseDictionary5: the input literal is given as two string pieces, which concatenate to the test's literal.
- StringFacts.ParseString7 and StringFacts.ParseString8: the inputs are written as concatenations of the literal's pieces and escape bytes.
- The test `parse_string_16` repeats `parse_string_15`; `StringFacts.ParseString15` covers both.
