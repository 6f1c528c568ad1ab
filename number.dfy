/** Integer and real numbers (src/objects/number.rs). */
module NumberParser {
  import opened Parsing

  /** Rust `i32`. */
  newtype i32 = x: int | -0x8000_0000 <= x < 0x8000_0000

  const I32_MIN: int := -0x8000_0000
  const I32_MAX: int := 0x7fff_ffff

  /** `Integer::new(i)` is the constructor and `get` the field `value`. */
  datatype Integer = Integer(value: i32)

  /** A real number. Its f32 value is left abstract: the model keeps whether
      the sign was `-` and the unsigned lexeme that `str::parse::<f32>` reads. */
  datatype Real = Real(negative: bool, lexeme: seq<byte>)

  /** `opt(alt((char('+'), char('-'))))`: an optional leading sign. */
  function OptSign(s: seq<byte>): (r: (Option<byte>, seq<byte>))
    ensures r.0.Some? <==> |s| > 0 && (s[0] == PLUS || s[0] == MINUS)
    ensures r.0.Some? ==> r.0.value == s[0] && r.1 == s[1..]
    ensures r.0.None? ==> r.1 == s
  {
    if |s| > 0 && (s[0] == PLUS || s[0] == MINUS) then (Some(s[0]), s[1..]) else (None, s)
  }

  /** The bytes `Integer::parse` takes after the sign: digits and dots. */
  predicate IsDigitOrDot(c: byte) {
    IsDigit(c) || c == DOT
  }

  predicate AllDigits(s: seq<byte>) {
    forall i :: 0 <= i < |s| ==> IsDigit(s[i])
  }

  /** The value of a run of decimal digits, most significant first. */
  function DecimalValue(s: seq<byte>): nat
    requires AllDigits(s)
  {
    if |s| == 0 then 0 else DecimalValue(s[..|s| - 1]) * 10 + (s[|s| - 1] - ZERO) as nat
  }

  /** `str::parse::<i32>` applied to a run of digits (no sign can occur in
      it): the empty run and a value above `i32::MAX` are errors. */
  function ParseI32(run: seq<byte>): (r: Option<i32>)
    requires AllDigits(run)
    ensures r.Some? <==> 0 < |run| && DecimalValue(run) <= I32_MAX
    ensures r.Some? ==> 0 <= r.value as int == DecimalValue(run)
  {
    if |run| == 0 || DecimalValue(run) > I32_MAX then None else Some(DecimalValue(run) as i32)
  }

  /** `sign_integer`: negates only for `-`, with overflow-checked negation. */
  function SignInteger(sign: Option<byte>, value: i32): (r: Option<Integer>)
    ensures r.None? <==> sign == Some(MINUS) && value as int == I32_MIN
    ensures r.Some? ==> r.value.value as int == if sign == Some(MINUS) then -(value as int) else value as int
  {
    if sign == Some(MINUS) then
      if value as int == I32_MIN then None else Some(Integer(-value))
    else Some(Integer(value))
  }

  /** What `Integer::parse` accepts: an optional sign and at least one digit. */
  predicate IsIntegerLexeme(s: seq<byte>) {
    |s| > 0 && var d := if s[0] == PLUS || s[0] == MINUS then s[1..] else s;
    |d| > 0 && AllDigits(d)
  }

  /** The value such a lexeme denotes. */
  function LexemeValue(s: seq<byte>): int
    requires IsIntegerLexeme(s)
  {
    if s[0] == MINUS then -(DecimalValue(s[1..]) as int)
    else if s[0] == PLUS then DecimalValue(s[1..])
    else DecimalValue(s)
  }

  /** `Integer::parse`: optional sign, then the maximal run of digits and
      dots, which `verify` rejects if it holds a dot; the digits are parsed as
      an unsigned i32 and then signed. Nothing is skipped before the number. */
  function ParseInteger(input: seq<byte>): (r: ParseResult<Integer>)
    ensures r.Success? ==> IsSuffix(r.rest, input) && |r.rest| < |input|
    ensures r.Success? ==> IsIntegerLexeme(Consumed(input, r.rest))
    ensures r.Success? ==> r.value.value as int == LexemeValue(Consumed(input, r.rest))
    ensures r.Success? ==> r.rest == [] || !IsDigitOrDot(r.rest[0])
  {
    var (sign, s) := OptSign(input);
    var (run, rest) := Span(s, IsDigitOrDot);
    if DOT in run then Failure(Rejected)
    else
      match ParseI32(run)
      case None => Failure(MapResFailed)
      case Some(v) =>
        match SignInteger(sign, v)
        case None => Failure(MapOptFailed)
        case Some(i) =>
          assert input == (if sign.Some? then [sign.value] else []) + run + rest;
          assert Consumed(input, rest) == (if sign.Some? then [sign.value] else []) + run;
          Success(rest, i)
  }

  /** `sign_real`: negation only for `-`. */
  function SignReal(sign: Option<byte>, lexeme: seq<byte>): (r: Real)
    ensures r.negative <==> sign == Some(MINUS)
    ensures r.lexeme == lexeme
  {
    Real(sign == Some(MINUS), lexeme)
  }

  /** The lexical forms of a real: digits, digits and a dot and maybe more
      digits, or a dot and at least one digit. */
  predicate IsRealLexeme(s: seq<byte>) {
    (|s| > 0 && AllDigits(s)) ||
    exists k :: 0 <= k < |s| && s[k] == DOT && AllDigits(s[..k]) && AllDigits(s[k + 1..]) && (k > 0 || k + 1 < |s|)
  }

  /** `recognize(alt(((digit1, opt((char('.'), digit0))), (char('.'), digit1))))`:
      the lexeme and the remainder. */
  function RealLexeme(s: seq<byte>): (r: ParseResult<seq<byte>>)
    ensures r.Success? ==> s == r.value + r.rest && IsRealLexeme(r.value)
    ensures r.Success? ==> r.rest == [] || !IsDigit(r.rest[0])
    ensures r.Success? && DOT !in r.value ==> r.rest == [] || r.rest[0] != DOT
  {
    var (d1, r1) := Span(s, IsDigit);
    if |d1| > 0 then
      if |r1| > 0 && r1[0] == DOT then
        var (d2, r2) := Span(r1[1..], IsDigit);
        var lex := d1 + [DOT] + d2;
        assert lex[..|d1|] == d1 && lex[|d1| + 1..] == d2;
        Cons(r1);
        Associate(d1 + [DOT], d2, r2);
        Associate(d1, [DOT], d2 + r2);
        Success(r2, lex)
      else
        Success(r1, d1)
    else if |s| > 0 && s[0] == DOT then
      var (d2, r2) := Span(s[1..], IsDigit);
      if |d2| > 0 then
        var lex := [DOT] + d2;
        assert lex[..0] == [] && lex[1..] == d2;
        Cons(s);
        Associate([DOT], d2, r2);
        Success(r2, lex)
      else Failure(NoDigit)
    else Failure(NoDigit)
  }

  /** `Real::parse`: optional sign, then the lexeme. `str::parse::<f32>`
      accepts every lexeme of this shape, so only the lexeme can fail. */
  function ParseReal(input: seq<byte>): (r: ParseResult<Real>)
    ensures r.Success? ==> IsSuffix(r.rest, input) && |r.rest| < |input|
    ensures r.Success? ==> IsRealLexeme(r.value.lexeme)
    ensures r.Success? ==> input == SignOf(input) + r.value.lexeme + r.rest
    ensures r.Success? ==> (r.value.negative <==> SignOf(input) == [MINUS])
    ensures r.Success? ==> r.rest == [] || !IsDigit(r.rest[0])
  {
    var (sign, s) := OptSign(input);
    match RealLexeme(s)
    case Failure(e) => Failure(e)
    case Success(rest, lex) =>
      assert SignOf(input) + s == input;
      assert sign == Some(MINUS) <==> SignOf(input) == [MINUS];
      Success(rest, SignReal(sign, lex))
  }

  /** The sign byte at the front of `s`, if there is one. */
  function SignOf(s: seq<byte>): (r: seq<byte>)
    ensures |r| <= 1 && |r| <= |s| && r == s[..|r|]
  {
    if |s| > 0 && (s[0] == PLUS || s[0] == MINUS) then [s[0]] else []
  }
}
