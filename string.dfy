/** Literal and hexadecimal strings (src/objects/string.rs `String::parse`,
    `parse_literal` and `parse_hexadecimal`). */
module StringParser {
  import opened Parsing
  import opened HexStrings
  import opened Brackets
  import opened Escapes

  const LESS: byte := 60
  const GREATER: byte := 62

  /** `String(Vec<u8>)`; `get` is the field `bytes`. */
  datatype PdfString = PdfString(bytes: seq<byte>)

  /** `parse_hexadecimal`: `<`, everything up to the first `>`, `>`; the text
      must be UTF-8, is passed through `fix_hex_str` and then decoded. */
  function ParseHexadecimal(input: seq<byte>): (r: ParseResult<PdfString>)
    ensures r.Success? <==> (|input| > 0 && input[0] == LESS && IndexOf(input[1..], GREATER).Some? &&
      IsUtf8(input[1..][..IndexOf(input[1..], GREATER).value]))
    ensures r.Success? ==> IsSuffix(r.rest, input) && |r.rest| < |input|
    ensures r.Success? ==>
      var k := IndexOf(input[1..], GREATER).value;
      r.rest == input[k + 2..] &&
      HexDecode(FixHex(input[1..k + 1])) == Some(r.value.bytes)
  {
    match Char(LESS, input)
    case Failure(e) => Failure(e)
    case Success(s, _) =>
      match IndexOf(s, GREATER)
      case None => Failure(NoTerminator)
      case Some(k) =>
        var text := s[..k];
        if !IsUtf8(text) then Failure(MapResFailed)
        else
          FixedHexDecodes(text);
          assert input[1..k + 1] == text && s[k + 1..] == input[k + 2..];
          assert input[|input| - |s[k + 1..]|..] == s[k + 1..];
          match HexDecode(FixHex(text))
          case None => Failure(MapResFailed)
          case Some(bytes) => Success(s[k + 1..], PdfString(bytes))
  }

  /** `parse_literal`: `(`, the text up to the unbalanced `)`, `)`; the text
      then goes through the escape rewriter, whose error fails the parse. */
  function ParseLiteral(input: seq<byte>): (r: ParseResult<PdfString>)
    ensures r.Success? <==> (|input| > 0 && input[0] == LPAREN && TakeUnbalanced(input[1..]).Success? &&
      EscapesRemoved(TakeUnbalanced(input[1..]).value).Some?)
    ensures r.Success? ==> IsSuffix(r.rest, input) && |r.rest| < |input|
    ensures r.Success? ==>
      var t := TakeUnbalanced(input[1..]);
      input == [LPAREN] + t.value + [RPAREN] + r.rest &&
      EscapesRemoved(t.value) == Some(r.value.bytes)
  {
    match Char(LPAREN, input)
    case Failure(e) => Failure(e)
    case Success(s, _) =>
      match TakeUnbalanced(s)
      case Failure(e) => Failure(e)
      case Success(closing, text) =>
        match Char(RPAREN, closing)
        case Failure(e) => Failure(e)
        case Success(rest, _) =>
          match EscapesRemoved(text)
          case None => Failure(MapResFailed)
          case Some(bytes) =>
            assert input == [LPAREN] + text + [RPAREN] + rest;
            assert input[|input| - |rest|..] == rest;
            Success(rest, PdfString(bytes))
  }

  /** `String::parse`: the hexadecimal form first, then the literal form. */
  function Parse(input: seq<byte>): (r: ParseResult<PdfString>)
    ensures ParseHexadecimal(input).Success? ==> r == ParseHexadecimal(input)
    ensures ParseHexadecimal(input).Failure? ==> r == ParseLiteral(input)
    ensures r.Success? ==> IsSuffix(r.rest, input) && |r.rest| < |input|
  {
    match ParseHexadecimal(input)
    case Success(rest, v) => Success(rest, v)
    case Failure(_) =>
      match ParseLiteral(input)
      case Failure(e) => Failure(e)
      case Success(rest, v) => Success(rest, v)
  }
}
