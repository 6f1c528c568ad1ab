/** What `Integer::parse` and `Real::parse` accept and reject, stated over all
    inputs, and the unit tests of src/objects/number.rs as instances. */
module NumberFacts {
  import opened Parsing
  import opened NumberParser

  /** The decimal digits of `n`, without leading zeros. */
  function Decimal(n: nat): (r: seq<byte>)
    ensures |r| > 0 && AllDigits(r)
  {
    if n < 10 then [ZERO + n as byte] else Decimal(n / 10) + [ZERO + (n % 10) as byte]
  }

  lemma {:induction false} DecimalRoundTrip(n: nat)
    ensures DecimalValue(Decimal(n)) == n
  {
    if n >= 10 {
      var d := Decimal(n);
      assert d[..|d| - 1] == Decimal(n / 10);
      DecimalRoundTrip(n / 10);
    }
  }

  /** How an i32 is written: a `-` for negative values, then the digits. */
  function FormatInteger(i: Integer): seq<byte> {
    if i.value < 0 then [MINUS] + Decimal(-(i.value as int)) else Decimal(i.value as nat)
  }

  lemma DigitsAreDigitOrDot(d: seq<byte>)
    requires AllDigits(d)
    ensures forall k :: 0 <= k < |d| ==> IsDigitOrDot(d[k])
    ensures DOT !in d
  {
  }

  /** `opt(alt((char('+'), char('-'))))` takes the sign and nothing else. */
  lemma SignSplit(sign: seq<byte>, t: seq<byte>)
    requires sign == [] || sign == [PLUS] || sign == [MINUS]
    requires |t| > 0 && t[0] != PLUS && t[0] != MINUS
    ensures OptSign(sign + t) == (if sign == [] then None else Some(sign[0]), t)
  {
    if sign == [] {
      assert sign + t == t;
    } else {
      assert (sign + t)[0] == sign[0] && (sign + t)[1..] == t;
    }
  }

  /** How the first two combinators of `Integer::parse` split a sign, a run
      of digits and dots, and a remainder that cannot extend the run. */
  lemma IntegerInput(sign: seq<byte>, run: seq<byte>, rest: seq<byte>)
    requires sign == [] || sign == [PLUS] || sign == [MINUS]
    requires |run| > 0 && run[0] != PLUS && run[0] != MINUS
    requires forall k :: 0 <= k < |run| ==> IsDigitOrDot(run[k])
    requires rest == [] || !IsDigitOrDot(rest[0])
    ensures OptSign(sign + run + rest) == (if sign == [] then None else Some(sign[0]), run + rest)
    ensures Span(run + rest, IsDigitOrDot) == (run, rest)
  {
    var t := run + rest;
    RunSplit(run, rest);
    SignSplit(sign, t);
    Associate(sign, run, rest);
  }

  /** `take_while` over digits and dots stops just where the run ends. */
  lemma RunSplit(run: seq<byte>, rest: seq<byte>)
    requires forall k :: 0 <= k < |run| ==> IsDigitOrDot(run[k])
    requires rest == [] || !IsDigitOrDot(rest[0])
    ensures Span(run + rest, IsDigitOrDot) == (run, rest)
  {
    SpanOf(run, rest, IsDigitOrDot);
  }

  /** Every i32 but `i32::MIN` survives printing and parsing back. */
  lemma IntegerRoundTrip(i: Integer, rest: seq<byte>)
    requires i.value as int != I32_MIN
    requires rest == [] || !IsDigitOrDot(rest[0])
    ensures ParseInteger(FormatInteger(i) + rest) == Success(rest, i)
  {
    var mag: nat := if i.value < 0 then -(i.value as int) else i.value as int;
    var digits := Decimal(mag);
    DecimalRoundTrip(mag);
    DigitsAreDigitOrDot(digits);
    var sign := if i.value < 0 then [MINUS] else [];
    assert FormatInteger(i) == sign + digits;
    IntegerAccepts(sign, digits, rest);
  }

  /** `i32::MIN` itself does not parse: its digits are read without the sign,
      and 2147483648 does not fit in an i32. */
  lemma MinimumRejected(rest: seq<byte>)
    requires rest == [] || !IsDigitOrDot(rest[0])
    ensures ParseInteger(FormatInteger(Integer(I32_MIN as i32)) + rest) == Failure(MapResFailed)
  {
    var digits := Decimal(0x8000_0000);
    DecimalRoundTrip(0x8000_0000);
    DigitsAreDigitOrDot(digits);
    assert FormatInteger(Integer(I32_MIN as i32)) == [MINUS] + digits;
    IntegerInput([MINUS], digits, rest);
  }

  /** A dot anywhere in the run of digits and dots rejects the whole number. */
  lemma DotRejected(sign: seq<byte>, run: seq<byte>, rest: seq<byte>)
    requires sign == [] || sign == [PLUS] || sign == [MINUS]
    requires |run| > 0 && run[0] != PLUS && run[0] != MINUS
    requires forall k :: 0 <= k < |run| ==> IsDigitOrDot(run[k])
    requires DOT in run
    requires rest == [] || !IsDigitOrDot(rest[0])
    ensures ParseInteger(sign + run + rest) == Failure(Rejected)
  {
    IntegerInput(sign, run, rest);
  }

  /** A run of digits above `i32::MAX` is rejected, whatever the sign. */
  lemma TooLargeRejected(sign: seq<byte>, digits: seq<byte>, rest: seq<byte>)
    requires sign == [] || sign == [PLUS] || sign == [MINUS]
    requires AllDigits(digits) && DecimalValue(digits) > I32_MAX
    requires rest == [] || !IsDigitOrDot(rest[0])
    ensures ParseInteger(sign + digits + rest) == Failure(MapResFailed)
  {
    DigitsAreDigitOrDot(digits);
    IntegerInput(sign, digits, rest);
  }

  /** Without a digit after the optional sign there is no integer; this covers
      a leading space. */
  lemma NoDigitsRejected(sign: seq<byte>, rest: seq<byte>)
    requires sign == [] || sign == [PLUS] || sign == [MINUS]
    requires rest == [] || !(IsDigitOrDot(rest[0]) || (sign == [] && (rest[0] == PLUS || rest[0] == MINUS)))
    ensures ParseInteger(sign + rest) == Failure(MapResFailed)
  {
    SpanOf([], rest, IsDigitOrDot);
    assert [] + rest == rest;
    if sign != [] {
      assert (sign + rest)[1..] == rest;
    } else {
      assert sign + rest == rest;
    }
  }

  /** The lexeme `whole` `.` `frac` (the dot optional when `whole` is not
      empty) is recognised exactly when what follows cannot extend it. */
  lemma RealLexemeOf(whole: seq<byte>, dot: bool, frac: seq<byte>, rest: seq<byte>)
    requires AllDigits(whole) && AllDigits(frac)
    requires dot ==> |whole| + |frac| > 0
    requires !dot ==> |whole| > 0 && frac == []
    requires rest == [] || !IsDigit(rest[0])
    requires !dot ==> rest == [] || rest[0] != DOT
    ensures var lex := whole + (if dot then [DOT] else []) + frac;
            RealLexeme(lex + rest) == Success(rest, lex)
  {
    if |whole| > 0 && dot {
      LexemeWholeDot(whole, frac, rest);
    } else if |whole| > 0 {
      assert whole + [] + frac == whole;
      SpanOf(whole, rest, IsDigit);
    } else {
      assert whole + [DOT] + frac == [DOT] + frac;
      LexemeDotFrac(frac, rest);
    }
  }

  lemma LexemeWholeDot(whole: seq<byte>, frac: seq<byte>, rest: seq<byte>)
    requires AllDigits(whole) && |whole| > 0 && AllDigits(frac)
    requires rest == [] || !IsDigit(rest[0])
    ensures RealLexeme(whole + [DOT] + frac + rest) == Success(rest, whole + [DOT] + frac)
  {
    var after := [DOT] + (frac + rest);
    Associate(whole, [DOT], frac);
    Associate(whole, [DOT] + frac, rest);
    Associate([DOT], frac, rest);
    SpanOf(whole, after, IsDigit);
    assert after[1..] == frac + rest;
    SpanOf(frac, rest, IsDigit);
  }

  lemma LexemeDotFrac(frac: seq<byte>, rest: seq<byte>)
    requires AllDigits(frac) && |frac| > 0
    requires rest == [] || !IsDigit(rest[0])
    ensures RealLexeme([DOT] + frac + rest) == Success(rest, [DOT] + frac)
  {
    var s := [DOT] + (frac + rest);
    Associate([DOT], frac, rest);
    SpanOf([], s, IsDigit);
    assert [] + s == s;
    assert s[1..] == frac + rest;
    SpanOf(frac, rest, IsDigit);
  }

  /** With its sign, if any, such a lexeme is what `Real::parse` returns. */
  lemma RealRoundTrip(sign: seq<byte>, whole: seq<byte>, dot: bool, frac: seq<byte>, rest: seq<byte>)
    requires sign == [] || sign == [PLUS] || sign == [MINUS]
    requires AllDigits(whole) && AllDigits(frac)
    requires dot ==> |whole| + |frac| > 0
    requires !dot ==> |whole| > 0 && frac == []
    requires rest == [] || !IsDigit(rest[0])
    requires !dot ==> rest == [] || rest[0] != DOT
    ensures var lex := whole + (if dot then [DOT] else []) + frac;
            ParseReal(sign + lex + rest) == Success(rest, Real(sign == [MINUS], lex))
  {
    var lex := whole + (if dot then [DOT] else []) + frac;
    RealLexemeOf(whole, dot, frac, rest);
    LexemeFront(whole, dot, frac, rest);
    Associate(sign, lex, rest);
    SignSplit(sign, lex + rest);
  }

  /** Such a lexeme starts with a digit or a dot, never with a sign. */
  lemma LexemeFront(whole: seq<byte>, dot: bool, frac: seq<byte>, rest: seq<byte>)
    requires AllDigits(whole) && AllDigits(frac)
    requires dot ==> |whole| + |frac| > 0
    requires !dot ==> |whole| > 0 && frac == []
    ensures var s := whole + (if dot then [DOT] else []) + frac + rest;
            |s| > 0 && (IsDigit(s[0]) || s[0] == DOT)
  {
    var s := whole + (if dot then [DOT] else []) + frac + rest;
    if |whole| > 0 {
      assert s[0] == whole[0];
    } else {
      assert s[0] == DOT;
    }
  }

  /** When the bytes after the sign start neither with a digit nor with a dot
      followed by a digit, there is no real; this covers a leading space. */
  lemma RealRejected(input: seq<byte>)
    requires |input| > 0 && !IsDigit(input[0]) && input[0] != DOT && input[0] != PLUS && input[0] != MINUS
    ensures ParseReal(input).Failure?
  {
  }

  /** `RealRoundTrip` for a given input buffer and lexeme. */
  lemma RealInput(input: seq<byte>, sign: seq<byte>, whole: seq<byte>, dot: bool, frac: seq<byte>, lex: seq<byte>, rest: seq<byte>)
    requires AllDigits(whole) && AllDigits(frac)
    requires dot ==> |whole| + |frac| > 0
    requires !dot ==> |whole| > 0 && frac == []
    requires rest == [] || !IsDigit(rest[0])
    requires !dot ==> rest == [] || rest[0] != DOT
    requires sign == [] || sign == [PLUS] || sign == [MINUS]
    requires lex == whole + (if dot then [DOT] else []) + frac
    requires input == sign + lex + rest
    ensures ParseReal(input) == Success(rest, Real(sign == [MINUS], lex))
  {
    RealRoundTrip(sign, whole, dot, frac, rest);
  }

  /** Any sign, or none, and any run of digits up to `i32::MAX`, leading
      zeros included, parse to the signed value of the digits. */
  lemma IntegerAccepts(sign: seq<byte>, digits: seq<byte>, rest: seq<byte>)
    requires sign == [] || sign == [PLUS] || sign == [MINUS]
    requires AllDigits(digits) && |digits| > 0 && DecimalValue(digits) <= I32_MAX
    requires rest == [] || !IsDigitOrDot(rest[0])
    ensures ParseInteger(sign + digits + rest) ==
      Success(rest, Integer((if sign == [MINUS] then -(DecimalValue(digits) as int) else DecimalValue(digits) as int) as i32))
  {
    var mag := DecimalValue(digits) as i32;
    var o := if sign == [] then None else Some(sign[0]);
    var i := Integer((if sign == [MINUS] then -(DecimalValue(digits) as int) else DecimalValue(digits) as int) as i32);
    DigitsAreDigitOrDot(digits);
    IntegerInput(sign, digits, rest);
    assert ParseI32(digits) == Some(mag);
    assert SignInteger(o, mag) == Some(i);
    IntegerFrom(sign + digits + rest, o, digits, rest, mag, i);
  }

  /** The steps of `Integer::parse`, one after the other. */
  lemma IntegerFrom(input: seq<byte>, o: Option<byte>, run: seq<byte>, rest: seq<byte>, v: i32, i: Integer)
    requires OptSign(input) == (o, run + rest)
    requires Span(run + rest, IsDigitOrDot) == (run, rest)
    requires DOT !in run && ParseI32(run) == Some(v) && SignInteger(o, v) == Some(i)
    ensures ParseInteger(input) == Success(rest, i)
  {
  }

  /** `IntegerRoundTrip` for a given input buffer. */
  lemma IntegerText(input: seq<byte>, i: Integer, rest: seq<byte>)
    requires i.value as int != I32_MIN
    requires rest == [] || !IsDigitOrDot(rest[0])
    requires input == FormatInteger(i) + rest
    ensures ParseInteger(input) == Success(rest, i)
  {
    IntegerRoundTrip(i, rest);
  }

  // The unit tests of src/objects/number.rs.

  lemma ParseInteger123()
    ensures ParseInteger(B("123")) == Success([], Integer(123))
  {
    IntegerText(B("123"), Integer(123), []);
  }

  lemma ParseIntegerPlus17()
    ensures ParseInteger(B("+17")) == Success([], Integer(17))
  {
    assert B("+17") == [PLUS] + B("17") + [];
    assert DecimalValue(B("17")) == 17;
    IntegerAccepts([PLUS], B("17"), []);
  }

  lemma ParseIntegerMinus98()
    ensures ParseInteger(B("-98")) == Success([], Integer(-98))
  {
    IntegerText(B("-98"), Integer(-98), []);
  }

  lemma IntegerTrailingDotRejected()
    ensures ParseInteger(B("1.")) == Failure(Rejected)
  {
    assert B("1.")[1] == DOT;
    DotRejected([], B("1."), []);
  }

  lemma IntegerLeadingDotRejected()
    ensures ParseInteger(B(".1")) == Failure(Rejected)
  {
    DotRejected([], B(".1"), []);
  }

  lemma IntegerLeadingSpaceRejected()
    ensures ParseInteger(B(" 1")) == Failure(MapResFailed)
  {
    NoDigitsRejected([], B(" 1"));
  }

  lemma ParseReal345()
    ensures ParseReal(B("34.5")) == Success([], Real(false, B("34.5")))
  {
    RealInput(B("34.5"), [], B("34"), true, B("5"), B("34.5"), []);
  }

  lemma ParseRealMinus345()
    ensures ParseReal(B("-34.5")) == Success([], Real(true, B("34.5")))
  {
    RealInput(B("-34.5"), [MINUS], B("34"), true, B("5"), B("34.5"), []);
  }

  lemma ParseRealPlus345()
    ensures ParseReal(B("+34.5")) == Success([], Real(false, B("34.5")))
  {
    RealInput(B("+34.5"), [PLUS], B("34"), true, B("5"), B("34.5"), []);
  }

  lemma ParseRealTrailingDot()
    ensures ParseReal(B("34.")) == Success([], Real(false, B("34.")))
  {
    RealInput(B("34."), [], B("34"), true, [], B("34."), []);
  }

  lemma ParseRealLeadingDot()
    ensures ParseReal(B(".34")) == Success([], Real(false, B(".34")))
  {
    RealInput(B(".34"), [], [], true, B("34"), B(".34"), []);
  }

  lemma ParseRealNoDot()
    ensures ParseReal(B("34")) == Success([], Real(false, B("34")))
  {
    RealInput(B("34"), [], B("34"), false, [], B("34"), []);
  }

  lemma ParseRealSecondDot()
    ensures ParseReal(B("1.2.3")) == Success(B(".3"), Real(false, B("1.2")))
  {
    RealInput(B("1.2.3"), [], B("1"), true, B("2"), B("1.2"), B(".3"));
  }

  lemma ParseRealExponent()
    ensures ParseReal(B("1.2e-1")) == Success(B("e-1"), Real(false, B("1.2")))
  {
    RealInput(B("1.2e-1"), [], B("1"), true, B("2"), B("1.2"), B("e-1"));
  }

  lemma ParseRealLeadingSpace()
    ensures ParseReal(B(" 1.2.3")).Failure?
  {
    RealRejected(B(" 1.2.3"));
  }
}
