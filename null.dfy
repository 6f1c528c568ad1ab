/** The `null` keyword (src/objects/null.rs). */
module NullParser {
  import opened Parsing

  /** The unit marker `Null`. */
  datatype Null = Null

  /** `Null::parse`: `tag("null")`. */
  function Parse(input: seq<byte>): (r: ParseResult<Null>)
    ensures r.Success? <==> StartsWith(input, B("null"))
    ensures r.Success? ==> input == B("null") + r.rest
  {
    match Tag(B("null"), input)
    case Success(rest, _) => Success(rest, Null)
    case Failure(e) => Failure(e)
  }

  /** `null` followed by anything parses to `Null` and leaves what follows. */
  lemma RoundTrip(rest: seq<byte>)
    ensures Parse(B("null") + rest) == Success(rest, Null)
  {
    assert (B("null") + rest)[..4] == B("null");
  }
}
