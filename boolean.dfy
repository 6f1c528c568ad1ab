/** The `true` / `false` keywords (src/objects/boolean.rs). */
module BooleanParser {
  import opened Parsing

  /** `Boolean::new(b)` is the constructor and `get` the field `value`. */
  datatype Boolean = Boolean(value: bool)

  /** The keyword that denotes `b`. */
  function Keyword(b: Boolean): seq<byte> {
    if b.value then B("true") else B("false")
  }

  /** `Boolean::parse`: `alt((tag("true"), tag("false")))`. Only the keyword is
      consumed and nothing is skipped before it. */
  function Parse(input: seq<byte>): (r: ParseResult<Boolean>)
    ensures r.Success? <==> StartsWith(input, B("true")) || StartsWith(input, B("false"))
    ensures r.Success? ==> input == Keyword(r.value) + r.rest
  {
    match Tag(B("true"), input)
    case Success(rest, _) => Success(rest, Boolean(true))
    case Failure(_) =>
      match Tag(B("false"), input)
      case Success(rest, _) => Success(rest, Boolean(false))
      case Failure(e) => Failure(e)
  }

  /** Printing a boolean and parsing it back gives the same boolean, whatever follows. */
  lemma RoundTrip(b: Boolean, rest: seq<byte>)
    ensures Parse(Keyword(b) + rest) == Success(rest, b)
  {
    var input := Keyword(b) + rest;
    assert input[..|Keyword(b)|] == Keyword(b);
    if !b.value {
      assert input[0] != B("true")[0];
    }
  }

  /** `new(b).get() == b`. */
  lemma NewGet(b: bool)
    ensures Boolean(b).value == b
  {
  }
}
