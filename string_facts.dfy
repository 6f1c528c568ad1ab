/** What src/objects/string.rs promises about `String::parse`, including its
    unit tests, stated over all inputs where they generalise. */
module StringFacts {
  import opened Parsing
  import opened HexStrings
  import opened Brackets
  import opened Escapes
  import opened EscapeFacts
  import opened StringParser

  // The hexadecimal form.

  /** `<`, ASCII text without `>`, `>`: the hex digits of the text, padded to
      an even count, decoded pair by pair. */
  lemma HexString(text: seq<byte>, rest: seq<byte>)
    requires AllAscii(text) && forall k :: 0 <= k < |text| ==> text[k] != GREATER
    ensures HexDecode(FixHex(text)).Some?
    ensures Parse([LESS] + text + [GREATER] + rest) == Success(rest, PdfString(HexDecode(FixHex(text)).value))
  {
    var input := [LESS] + text + [GREATER] + rest;
    HexFound(input, text, rest);
    AsciiIsUtf8(text);
    FixedHexDecodes(text);
    var r := ParseHexadecimal(input);
    assert r.Success?;
    assert r.rest == rest;
  }

  /** Where the hexadecimal form finds its text. */
  lemma HexFound(input: seq<byte>, text: seq<byte>, rest: seq<byte>)
    requires forall k :: 0 <= k < |text| ==> text[k] != GREATER
    requires input == [LESS] + text + [GREATER] + rest
    ensures |input| > 0 && input[0] == LESS
    ensures IndexOf(input[1..], GREATER) == Some(|text|)
    ensures input[1..][..|text|] == text && input[1..|text| + 1] == text
    ensures input[|text| + 2..] == rest
  {
    assert input[1..] == text + ([GREATER] + rest);
    IndexOfAfter(text, [GREATER] + rest);
  }

  lemma {:induction false} IndexOfAfter(text: seq<byte>, t: seq<byte>)
    requires forall k :: 0 <= k < |text| ==> text[k] != GREATER
    requires |t| > 0 && t[0] == GREATER
    ensures IndexOf(text + t, GREATER) == Some(|text|)
    decreases |text|
  {
    if |text| > 0 {
      assert (text + t)[1..] == text[1..] + t;
      IndexOfAfter(text[1..], t);
    } else {
      assert text + t == t;
    }
  }

  /** An unterminated `<` is neither a hexadecimal nor a literal string. */
  lemma HexUnterminated(text: seq<byte>)
    requires forall k :: 0 <= k < |text| ==> text[k] != GREATER
    ensures Parse([LESS] + text).Failure?
  {
    assert ([LESS] + text)[1..] == text;
  }

  /** Non-UTF-8 text between the angle brackets fails the parse. */
  lemma HexNotUtf8(text: seq<byte>, rest: seq<byte>)
    requires forall k :: 0 <= k < |text| ==> text[k] != GREATER
    requires !IsUtf8(text)
    ensures Parse([LESS] + text + [GREATER] + rest).Failure?
  {
    HexFound([LESS] + text + [GREATER] + rest, text, rest);
  }

  /** A decoding is fixed by its digit pairs. */
  lemma DecodeIs(s: seq<byte>, x: seq<byte>)
    requires AllHex(s) && |s| == 2 * |x|
    requires forall k :: 0 <= k < |x| ==> x[k] as int == 16 * Nibble(s[2 * k]) + Nibble(s[2 * k + 1])
    ensures HexDecode(s) == Some(x)
  {
    var r := HexDecode(s);
    assert r.Some? && |r.value| == |x|;
    forall k | 0 <= k < |x|
      ensures r.value[k] == x[k]
    {
      assert r.value[k] as int == 16 * Nibble(s[2 * k]) + Nibble(s[2 * k + 1]);
    }
    assert r.value == x;
  }

  lemma Digits901fa3()
    ensures HexDecode(B("901fa3")) == Some([0x90, 0x1f, 0xa3])
  {
    var s := B("901fa3");
    assert s[0] == '9' as byte && s[1] == '0' as byte && s[2] == '1' as byte;
    assert s[3] == 'f' as byte && s[4] == 'a' as byte && s[5] == '3' as byte;
    DecodeIs(s, [0x90, 0x1f, 0xa3]);
  }

  /** `<901fa3>` gives 0x90 0x1f 0xa3. */
  lemma ParseString1()
    ensures Parse([LESS] + B("901fa3") + [GREATER]) == Success([], PdfString([0x90, 0x1f, 0xa3]))
  {
    var text := B("901fa3");
    HexDigitsOfHex(text);
    Digits901fa3();
    HexStringAlone(text, [0x90, 0x1f, 0xa3]);
  }

  /** `HexString` with nothing after the closing bracket. */
  lemma HexStringAlone(text: seq<byte>, v: seq<byte>)
    requires AllAscii(text) && forall k :: 0 <= k < |text| ==> text[k] != GREATER
    requires HexDecode(FixHex(text)) == Some(v)
    ensures Parse([LESS] + text + [GREATER]) == Success([], PdfString(v))
  {
    HexString(text, []);
    assert [LESS] + text + [GREATER] + [] == [LESS] + text + [GREATER];
  }

  /** `<901fa>` gives 0x90 0x1f 0xa0: the odd digit count is padded with `0`. */
  lemma ParseString2()
    ensures Parse([LESS] + B("901fa") + [GREATER]) == Success([], PdfString([0x90, 0x1f, 0xa0]))
  {
    var text := B("901fa");
    HexDigitsOfHex(text);
    var fixed := text + [ZERO];
    assert FixHex(text) == fixed;
    assert fixed[0] == '9' as byte && fixed[1] == '0' as byte && fixed[2] == '1' as byte;
    assert fixed[3] == 'f' as byte && fixed[4] == 'a' as byte && fixed[5] == '0' as byte;
    DecodeIs(fixed, [0x90, 0x1f, 0xa0]);
    HexStringAlone(text, [0x90, 0x1f, 0xa0]);
  }

  /** `< 9 0 1 f a 3 >` gives 0x90 0x1f 0xa3: the spaces are dropped. */
  lemma ParseString3()
    ensures Parse([LESS] + B(" 9 0 1 f a 3 ") + [GREATER]) == Success([], PdfString([0x90, 0x1f, 0xa3]))
  {
    AsciiText(" 9 0 1 f a 3 ");
    SpacedText();
    HexStringAlone(B(" 9 0 1 f a 3 "), [0x90, 0x1f, 0xa3]);
  }

  lemma SpacedText()
    ensures HexDecode(FixHex(B(" 9 0 1 f a 3 "))) == Some([0x90, 0x1f, 0xa3])
  {
    SpacedDigits();
    Digits901fa3();
  }

  /** The bytes of ASCII text without `>` are ASCII and hold no `>`. */
  lemma AsciiText(s: string)
    requires IsAscii(s) && forall i :: 0 <= i < |s| ==> s[i] != '>'
    ensures AllAscii(B(s)) && forall k :: 0 <= k < |B(s)| ==> B(s)[k] != GREATER
  {
  }

  lemma SpacedDigits()
    ensures HexDigitsOf(B(" 9 0 1 f a 3 ")) == B("901fa3")
  {
    var d := B("901fa3");
    assert B(" 9 0 1 f a 3 ") == [SPACE, d[0]] + ([SPACE, d[1]] + ([SPACE, d[2]] + ([SPACE, d[3]] + ([SPACE, d[4]] + ([SPACE, d[5]] + [SPACE])))));
    SpacedHex(d[5], [SPACE]);
    SpacedHex(d[4], [SPACE, d[5]] + [SPACE]);
    SpacedHex(d[3], [SPACE, d[4]] + ([SPACE, d[5]] + [SPACE]));
    SpacedHex(d[2], [SPACE, d[3]] + ([SPACE, d[4]] + ([SPACE, d[5]] + [SPACE])));
    SpacedHex(d[1], [SPACE, d[2]] + ([SPACE, d[3]] + ([SPACE, d[4]] + ([SPACE, d[5]] + [SPACE]))));
    SpacedHex(d[0], [SPACE, d[1]] + ([SPACE, d[2]] + ([SPACE, d[3]] + ([SPACE, d[4]] + ([SPACE, d[5]] + [SPACE])))));
    assert HexDigitsOf([SPACE]) == [];
    assert [d[0]] + ([d[1]] + ([d[2]] + ([d[3]] + ([d[4]] + ([d[5]] + []))))) == d;
  }

  /** A space before a hex digit is dropped and the digit kept. */
  lemma SpacedHex(c: byte, t: seq<byte>)
    requires IsHexDigit(c)
    ensures HexDigitsOf([SPACE, c] + t) == [c] + HexDigitsOf(t)
  {
    HexDigitsOfAppend([SPACE, c], t);
    assert [SPACE, c][..1] == [SPACE];
  }

  /** Angle brackets around nothing but blanks give the empty string. */
  lemma HexBlank(text: seq<byte>, rest: seq<byte>)
    requires forall k :: 0 <= k < |text| ==> text[k] == SPACE
    ensures Parse([LESS] + text + [GREATER] + rest) == Success(rest, PdfString([]))
  {
    BlankDecodes(text);
    assert AllAscii(text);
    HexString(text, rest);
  }

  lemma BlankDecodes(text: seq<byte>)
    requires forall k :: 0 <= k < |text| ==> text[k] == SPACE
    ensures HexDecode(FixHex(text)) == Some([])
  {
    HexDigitsOfNone(text);
    assert FixHex(text) == [];
  }

  /** `<  >` gives the empty string. */
  lemma ParseString4()
    ensures Parse([LESS] + B("  ") + [GREATER]) == Success([], PdfString([]))
  {
    HexBlank(B("  "), []);
    assert [LESS] + B("  ") + [GREATER] + [] == [LESS] + B("  ") + [GREATER];
  }

  // The literal form.

  /** `(`, text that the bracket scanner takes whole, `)`: the escape
      rewriter's output. */
  lemma LiteralString(text: seq<byte>, rest: seq<byte>, v: seq<byte>)
    requires TakeUnbalanced(text + [RPAREN] + rest) == Success([RPAREN] + rest, text)
    requires EscapesRemoved(text) == Some(v)
    ensures Parse([LPAREN] + text + [RPAREN] + rest) == Success(rest, PdfString(v))
  {
    var input := [LPAREN] + text + [RPAREN] + rest;
    assert input[0] == LPAREN && input[1..] == text + [RPAREN] + rest;
    assert ParseHexadecimal(input).Failure?;
    var r := ParseLiteral(input);
    assert r.Success?;
    assert [LPAREN] + text + [RPAREN] + r.rest == [LPAREN] + text + [RPAREN] + rest;
    assert r.rest == input[|text| + 2..];
  }

  /** A literal string whose escapes fail to rewrite fails to parse. */
  lemma LiteralEscapeFails(text: seq<byte>, rest: seq<byte>)
    requires TakeUnbalanced(text + [RPAREN] + rest) == Success([RPAREN] + rest, text)
    requires EscapesRemoved(text).None?
    ensures Parse([LPAREN] + text + [RPAREN] + rest).Failure?
  {
    var input := [LPAREN] + text + [RPAREN] + rest;
    assert input[0] == LPAREN && input[1..] == text + [RPAREN] + rest;
  }

  /** A literal string that never closes fails to parse. */
  lemma LiteralUnbalanced(s: seq<byte>)
    requires ClosingIndex(s).None?
    ensures Parse([LPAREN] + s).Failure?
  {
    assert ([LPAREN] + s)[0] == LPAREN && ([LPAREN] + s)[1..] == s;
  }

  /** Text without brackets or backslashes comes back as it is. */
  lemma PlainLiteral(text: seq<byte>, rest: seq<byte>)
    requires forall k :: 0 <= k < |text| ==> text[k] != LPAREN && text[k] != RPAREN && text[k] != BACKSLASH
    ensures Parse([LPAREN] + text + [RPAREN] + rest) == Success(rest, PdfString(text))
  {
    TakePlain(text, rest);
    NoEscapesUnchanged(text);
    LiteralString(text, rest, text);
  }

  /** `( This is string number 1? )` gives the text between the brackets. */
  lemma ParseString5()
    ensures Parse([LPAREN] + B(" This is string number 1? ") + [RPAREN]) ==
      Success([], PdfString(B(" This is string number 1? ")))
  {
    PlainLiteral(B(" This is string number 1? "), []);
    assert [LPAREN] + B(" This is string number 1? ") + [RPAREN] + [] == [LPAREN] + B(" This is string number 1? ") + [RPAREN];
  }

  /** `(strangeonium spectroscopy)` gives the text between the brackets. */
  lemma ParseString6()
    ensures Parse([LPAREN] + B("strangeonium spectroscopy") + [RPAREN]) ==
      Success([], PdfString(B("strangeonium spectroscopy")))
  {
    PlainLiteral(B("strangeonium spectroscopy"), []);
    assert [LPAREN] + B("strangeonium spectroscopy") + [RPAREN] + [] == [LPAREN] + B("strangeonium spectroscopy") + [RPAREN];
  }

  /** A string split over three lines by line continuations, the second of
      them `\` LF `\` CR, is joined into one line. */
  lemma ThreeLines(a: seq<byte>, b: seq<byte>, c: seq<byte>)
    requires NoBackslash(a) && NoBackslash(b) && NoBackslash(c)
    requires |b| > 0 && !IsLineBreak(b[0]) && |c| > 0 && !IsLineBreak(c[0])
    ensures EscapesRemoved(a + [BACKSLASH, LF] + b + [BACKSLASH, LF, BACKSLASH, CR] + c) == Some(a + b + c)
  {
    var e := [BACKSLASH, LF] + b + [BACKSLASH, LF, BACKSLASH, CR] + c;
    UnescapeTwoContinuations(b, c);
    assert a + [BACKSLASH, LF] + b + [BACKSLASH, LF, BACKSLASH, CR] + c == a + e;
    UnescapeFrom(a, e);
    assert a + (b + c) == a + b + c;
  }

  lemma UnescapeTwoContinuations(b: seq<byte>, c: seq<byte>)
    requires NoBackslash(b) && NoBackslash(c)
    requires |b| > 0 && !IsLineBreak(b[0]) && |c| > 0 && !IsLineBreak(c[0])
    ensures Unescape([BACKSLASH, LF] + b + [BACKSLASH, LF, BACKSLASH, CR] + c) == Some(b + c)
  {
    var t := b + [BACKSLASH, LF, BACKSLASH, CR] + c;
    UnescapeDoubleBreak(c);
    UnescapePrefix(b, [BACKSLASH, LF, BACKSLASH, CR] + c);
    Associate(b, [BACKSLASH, LF, BACKSLASH, CR], c);
    ContinuationThen([LF], t, b + c);
    assert [BACKSLASH] + [LF] == [BACKSLASH, LF];
    Associate4([BACKSLASH, LF], b, [BACKSLASH, LF, BACKSLASH, CR], c);
  }

  lemma UnescapeDoubleBreak(c: seq<byte>)
    requires NoBackslash(c) && |c| > 0 && !IsLineBreak(c[0])
    ensures Unescape([BACKSLASH, LF, BACKSLASH, CR] + c) == Some(c)
  {
    UnescapePlain(c);
    ContinuationThen([CR], c, c);
    assert [BACKSLASH] + [CR] + c == [BACKSLASH, CR] + c;
    ContinuationThen([LF], [BACKSLASH, CR] + c, c);
    assert [BACKSLASH] + [LF] + ([BACKSLASH, CR] + c) == [BACKSLASH, LF, BACKSLASH, CR] + c;
  }

  lemma ThreeLinesText(input: seq<byte>, a: seq<byte>, b: seq<byte>, c: seq<byte>, v: seq<byte>)
    requires forall k :: 0 <= k < |a| ==> a[k] != LPAREN && a[k] != RPAREN && a[k] != BACKSLASH
    requires forall k :: 0 <= k < |b| ==> b[k] != LPAREN && b[k] != RPAREN && b[k] != BACKSLASH
    requires forall k :: 0 <= k < |c| ==> c[k] != LPAREN && c[k] != RPAREN && c[k] != BACKSLASH
    requires |b| > 0 && !IsLineBreak(b[0]) && |c| > 0 && !IsLineBreak(c[0])
    requires input == [LPAREN] + a + [BACKSLASH, LF] + b + [BACKSLASH, LF, BACKSLASH, CR] + c + [RPAREN]
    requires v == a + b + c
    ensures Parse(input) == Success([], PdfString(v))
  {
    var text := a + [BACKSLASH, LF] + b + [BACKSLASH, LF, BACKSLASH, CR] + c;
    assert input == [LPAREN] + text + [RPAREN] + [];
    ThreeLines(a, b, c);
    assert forall k :: 0 <= k < |text| ==> text[k] != LPAREN && text[k] != RPAREN;
    assert text[|text| - 1] == c[|c| - 1];
    TakePlain(text, []);
    LiteralString(text, [], v);
  }

  /** `(This string is split \` LF `across \` LF `\` CR `three lines)` gives
      `This string is split across three lines`. */
  lemma ParseString7()
    ensures Parse([LPAREN] + B("This string is split ") + [BACKSLASH, LF] + B("across ") +
        [BACKSLASH, LF, BACKSLASH, CR] + B("three lines") + [RPAREN]) ==
      Success([], PdfString(B("This string is split across three lines")))
  {
    var a, b, c := B("This string is split "), B("across "), B("three lines");
    ThreeLinesPieces();
    ThreeLinesText([LPAREN] + a + [BACKSLASH, LF] + b + [BACKSLASH, LF, BACKSLASH, CR] + c + [RPAREN],
      a, b, c, B("This string is split across three lines"));
  }

  lemma ThreeLinesPieces()
    ensures var a, b, c := B("This string is split "), B("across "), B("three lines");
      (forall k :: 0 <= k < |a| ==> a[k] != LPAREN && a[k] != RPAREN && a[k] != BACKSLASH) &&
      (forall k :: 0 <= k < |b| ==> b[k] != LPAREN && b[k] != RPAREN && b[k] != BACKSLASH) &&
      (forall k :: 0 <= k < |c| ==> c[k] != LPAREN && c[k] != RPAREN && c[k] != BACKSLASH) &&
      !IsLineBreak(b[0]) && !IsLineBreak(c[0]) &&
      a + b + c == B("This string is split across three lines")
  {
  }

  /** Text the bracket scanner takes whole and the rewriter turns into `v`. */
  lemma LiteralText(input: seq<byte>, text: seq<byte>, v: seq<byte>)
    requires forall k :: 0 <= k < |text| ==> text[k] != LPAREN && text[k] != RPAREN
    requires |text| > 0 && text[|text| - 1] != BACKSLASH
    requires input == [LPAREN] + text + [RPAREN]
    requires EscapesRemoved(text) == Some(v)
    ensures Parse(input) == Success([], PdfString(v))
  {
    assert input == [LPAREN] + text + [RPAREN] + [];
    TakePlain(text, []);
    LiteralString(text, [], v);
  }

  /** Two three-digit octal escapes between plain text. */
  lemma TwoOctalEscapes(a: seq<byte>, x: seq<byte>, b: seq<byte>, y: seq<byte>, n1: byte, n2: byte)
    requires NoBackslash(a) && NoBackslash(b)
    requires IsOctal3(x, n1) && IsOctal3(y, n2)
    ensures EscapesRemoved(a + [BACKSLASH] + x + b + [BACKSLASH] + y) == Some(a + [n1] + b + [n2])
  {
    var e := [BACKSLASH] + x + (b + [BACKSLASH] + y);
    UnescapeTwoOctals(x, b, y, n1, n2);
    assert a + [BACKSLASH] + x + b + [BACKSLASH] + y == a + e;
    UnescapeFrom(a, e);
    assert a + ([n1] + (b + [n2])) == a + [n1] + b + [n2];
  }

  /** `x` is three octal digits, the first at most `3`, worth `n`. */
  predicate IsOctal3(x: seq<byte>, n: byte) {
    |x| == 3 && ZERO <= x[0] <= '3' as byte && IsOctalDigit(x[1]) && IsOctalDigit(x[2]) &&
    n as int == 64 * (x[0] - ZERO) as int + 8 * (x[1] - ZERO) as int + (x[2] - ZERO) as int
  }

  lemma UnescapeTwoOctals(x: seq<byte>, b: seq<byte>, y: seq<byte>, n1: byte, n2: byte)
    requires NoBackslash(b) && IsOctal3(x, n1) && IsOctal3(y, n2)
    ensures Unescape([BACKSLASH] + x + (b + [BACKSLASH] + y)) == Some([n1] + (b + [n2]))
  {
    UnescapeTailOctal(b, y, n2);
    UnescapeOctal3Then(x, b + [BACKSLASH] + y, n1);
  }

  lemma UnescapeOctal3Then(x: seq<byte>, t: seq<byte>, n: byte)
    requires IsOctal3(x, n)
    ensures Unescape([BACKSLASH] + x + t) == Prepend([n], Unescape(t))
  {
    UnescapeOctal3(x[0], x[1], x[2], t);
    assert [BACKSLASH, x[0], x[1], x[2]] + t == [BACKSLASH] + x + t;
  }

  lemma UnescapeTailOctal(b: seq<byte>, y: seq<byte>, n: byte)
    requires NoBackslash(b) && IsOctal3(y, n)
    ensures Unescape(b + [BACKSLASH] + y) == Some(b + [n])
  {
    UnescapeOctal3Then(y, [], n);
    assert [BACKSLASH] + y + [] == [BACKSLASH] + y;
    assert Unescape([]) == Some([]);
    assert [n] + [] == [n];
    UnescapePrefix(b, [BACKSLASH] + y);
    assert b + ([BACKSLASH] + y) == b + [BACKSLASH] + y;
  }

  lemma OctalTestText(input: seq<byte>, a: seq<byte>, x: seq<byte>, b: seq<byte>, y: seq<byte>, n1: byte, n2: byte)
    requires forall k :: 0 <= k < |a| ==> a[k] != LPAREN && a[k] != RPAREN && a[k] != BACKSLASH
    requires forall k :: 0 <= k < |b| ==> b[k] != LPAREN && b[k] != RPAREN && b[k] != BACKSLASH
    requires IsOctal3(x, n1) && IsOctal3(y, n2)
    requires input == [LPAREN] + a + [BACKSLASH] + x + b + [BACKSLASH] + y + [RPAREN]
    ensures Parse(input) == Success([], PdfString(a + [n1] + b + [n2]))
  {
    var text := a + [BACKSLASH] + x + b + [BACKSLASH] + y;
    TwoOctalEscapes(a, x, b, y, n1, n2);
    assert forall k :: 0 <= k < |text| ==> text[k] != LPAREN && text[k] != RPAREN;
    assert text[|text| - 1] == y[2];
    LiteralText(input, text, a + [n1] + b + [n2]);
  }

  /** `(string with \245two octal characters\307)`: each escape is one byte. */
  lemma ParseString8()
    ensures Parse([LPAREN] + B("string with ") + [BACKSLASH] + B("245") + B("two octal characters") +
        [BACKSLASH] + B("307") + [RPAREN]) ==
      Success([], PdfString(B("string with ") + [0xA5] + B("two octal characters") + [0xC7]))
  {
    OctalTestPieces();
    OctalTestText([LPAREN] + B("string with ") + [BACKSLASH] + B("245") + B("two octal characters") +
        [BACKSLASH] + B("307") + [RPAREN],
      B("string with "), B("245"), B("two octal characters"), B("307"), 0xA5, 0xC7);
  }

  lemma OctalTestPieces()
    ensures var a, x, b, y := B("string with "), B("245"), B("two octal characters"), B("307");
      (forall k :: 0 <= k < |a| ==> a[k] != LPAREN && a[k] != RPAREN && a[k] != BACKSLASH) &&
      (forall k :: 0 <= k < |b| ==> b[k] != LPAREN && b[k] != RPAREN && b[k] != BACKSLASH) &&
      x == ['2' as byte, '4' as byte, '5' as byte] && y == ['3' as byte, '0' as byte, '7' as byte]
  {
  }

  /** `(\24)` gives the one byte 0o24. */
  lemma ParseString9()
    ensures Parse([LPAREN, BACKSLASH, '2' as byte, '4' as byte, RPAREN]) == Success([], PdfString([0x14]))
  {
    OctalTwoDigits([], '2' as byte, '4' as byte, []);
    assert [] + [BACKSLASH, '2' as byte, '4' as byte] + [] == [BACKSLASH, '2' as byte, '4' as byte];
    assert [] + [0x14 as byte] + [] == [0x14];
    LiteralText([LPAREN, BACKSLASH, '2' as byte, '4' as byte, RPAREN], [BACKSLASH, '2' as byte, '4' as byte], [0x14]);
  }

  /** `(\24r)` gives 0o24 and `r`: the escape stops at a non-digit. */
  lemma ParseString10()
    ensures Parse([LPAREN, BACKSLASH, '2' as byte, '4' as byte, 'r' as byte, RPAREN]) ==
      Success([], PdfString([0x14, 'r' as byte]))
  {
    OctalTwoDigits([], '2' as byte, '4' as byte, ['r' as byte]);
    assert [] + [BACKSLASH, '2' as byte, '4' as byte] + ['r' as byte] == [BACKSLASH, '2' as byte, '4' as byte, 'r' as byte];
    assert [] + [0x14 as byte] + ['r' as byte] == [0x14, 'r' as byte];
    LiteralText([LPAREN, BACKSLASH, '2' as byte, '4' as byte, 'r' as byte, RPAREN],
      [BACKSLASH, '2' as byte, '4' as byte, 'r' as byte], [0x14, 'r' as byte]);
  }

  /** `(\2)` gives the one byte 2. */
  lemma ParseString11()
    ensures Parse([LPAREN, BACKSLASH, '2' as byte, RPAREN]) == Success([], PdfString([2]))
  {
    OctalOneDigit([], '2' as byte, []);
    assert [] + [BACKSLASH, '2' as byte] + [] == [BACKSLASH, '2' as byte];
    assert [] + ['2' as byte - ZERO] + [] == [2];
    LiteralText([LPAREN, BACKSLASH, '2' as byte, RPAREN], [BACKSLASH, '2' as byte], [2]);
  }

  /** `(\2r)` gives 2 and `r`. */
  lemma ParseString12()
    ensures Parse([LPAREN, BACKSLASH, '2' as byte, 'r' as byte, RPAREN]) == Success([], PdfString([2, 'r' as byte]))
  {
    OctalOneDigit([], '2' as byte, ['r' as byte]);
    assert [] + [BACKSLASH, '2' as byte] + ['r' as byte] == [BACKSLASH, '2' as byte, 'r' as byte];
    assert [] + ['2' as byte - ZERO] + ['r' as byte] == [2, 'r' as byte];
    LiteralText([LPAREN, BACKSLASH, '2' as byte, 'r' as byte, RPAREN], [BACKSLASH, '2' as byte, 'r' as byte], [2, 'r' as byte]);
  }

  // Bracket balance.

  /** Text that the scanner takes whole although it holds brackets. */
  lemma BalancedText(input: seq<byte>, text: seq<byte>, v: seq<byte>)
    requires forall j :: 0 <= j < |text| ==> DepthAt(text, j) >= 0
    requires Scan(text) == ScanState(0, false)
    requires input == [LPAREN] + text + [RPAREN]
    requires EscapesRemoved(text) == Some(v)
    ensures Parse(input) == Success([], PdfString(v))
  {
    assert input == [LPAREN] + text + [RPAREN] + [];
    TakeBalanced(text, []);
    LiteralString(text, [], v);
  }

  /** `(())` gives `()`. */
  lemma ParseString13()
    ensures Parse([LPAREN, LPAREN, RPAREN, RPAREN]) == Success([], PdfString([LPAREN, RPAREN]))
  {
    var text := [LPAREN, RPAREN];
    PairDepths(text);
    NoEscapesUnchanged(text);
    BalancedText([LPAREN, LPAREN, RPAREN, RPAREN], text, text);
  }

  /** `(()` fails: the depth never drops below zero. */
  lemma ParseString14()
    ensures Parse([LPAREN, LPAREN, RPAREN]).Failure?
  {
    var s := [LPAREN, RPAREN];
    PairDepths(s);
    LiteralUnbalanced(s);
    assert [LPAREN] + s == [LPAREN, LPAREN, RPAREN];
  }

  lemma PairDepths(text: seq<byte>)
    requires text == [LPAREN, RPAREN]
    ensures DepthAt(text, 0) == 1 && DepthAt(text, 1) == 0
    ensures Scan(text) == ScanState(0, false)
  {
    var p1 := text[..1];
    assert p1 == [] + [LPAREN] && text == p1 + [RPAREN] && text[..2] == text;
    ScanAppend([], LPAREN);
    ScanAppend(p1, RPAREN);
  }

  /** `(()(()))` gives `()(())`. */
  lemma ParseString15()
    ensures Parse([LPAREN, LPAREN, RPAREN, LPAREN, LPAREN, RPAREN, RPAREN, RPAREN]) ==
      Success([], PdfString([LPAREN, RPAREN, LPAREN, LPAREN, RPAREN, RPAREN]))
  {
    var text := [LPAREN, RPAREN, LPAREN, LPAREN, RPAREN, RPAREN];
    NestedDepths(text);
    NoEscapesUnchanged(text);
    BalancedText([LPAREN, LPAREN, RPAREN, LPAREN, LPAREN, RPAREN, RPAREN, RPAREN], text, text);
  }

  lemma NestedDepths(text: seq<byte>)
    requires text == [LPAREN, RPAREN, LPAREN, LPAREN, RPAREN, RPAREN]
    ensures forall j :: 0 <= j < |text| ==> DepthAt(text, j) >= 0
    ensures Scan(text) == ScanState(0, false)
  {
    var p1, p2, p3 := text[..1], text[..2], text[..3];
    var p4, p5 := text[..4], text[..5];
    assert p2 == p1 + [RPAREN] && p3 == p2 + [LPAREN] && p4 == p3 + [LPAREN];
    assert p5 == p4 + [RPAREN] && text == p5 + [RPAREN] && p1 == [] + [LPAREN];
    ScanAppend([], LPAREN);
    ScanAppend(p1, RPAREN);
    ScanAppend(p2, LPAREN);
    ScanAppend(p3, LPAREN);
    ScanAppend(p4, RPAREN);
    ScanAppend(p5, RPAREN);
    assert text[..6] == text;
  }

  /** `(\))` gives `)`: the escaped `)` does not close the string. */
  lemma ParseString17()
    ensures Parse([LPAREN, BACKSLASH, RPAREN, RPAREN]) == Success([], PdfString([RPAREN]))
  {
    EscapedBracketText([LPAREN, BACKSLASH, RPAREN, RPAREN], RPAREN);
  }

  /** `(\()` gives `(`: the escaped `(` does not open a level. */
  lemma ParseString18()
    ensures Parse([LPAREN, BACKSLASH, LPAREN, RPAREN]) == Success([], PdfString([LPAREN]))
  {
    EscapedBracketText([LPAREN, BACKSLASH, LPAREN, RPAREN], LPAREN);
  }

  lemma EscapedBracketText(input: seq<byte>, c: byte)
    requires c == LPAREN || c == RPAREN
    requires input == [LPAREN, BACKSLASH, c, RPAREN]
    ensures Parse(input) == Success([], PdfString([c]))
  {
    var text := [BACKSLASH, c];
    assert text[..1] == [] + [BACKSLASH] && text[..2] == text;
    ScanAppend([], BACKSLASH);
    EscapedBracketKeepsDepth([], c);
    assert [] + [BACKSLASH, c] == text;
    NamedEscapeBecomesOneByte([], c, []);
    assert [] + [BACKSLASH, c] + [] == text && [] + [c] + [] == [c];
    BalancedText(input, text, [c]);
  }
}
