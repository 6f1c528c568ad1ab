/** Names: `/` followed by a run of regular bytes (src/objects/name.rs). */
module NameParser {
  import opened Parsing

  /** `Name::new(b)` is the constructor and `get` the field `bytes`. */
  datatype Name = Name(bytes: seq<byte>)

  /** The bytes that end a name: `\n \r % ( ) < > [ ] { }` and space. */
  predicate IsDelimiter(c: byte) {
    c in {LF, CR, 37, 40, 41, 60, 62, 91, 93, 123, 125, SPACE}
  }

  /** The bytes a name body may hold; note that `/` and tab are among them. */
  predicate IsRegular(c: byte) {
    !IsDelimiter(c)
  }

  /** A body `Parse` can return: non-empty and free of delimiters. */
  predicate IsBody(s: seq<byte>) {
    |s| > 0 && forall i :: 0 <= i < |s| ==> IsRegular(s[i])
  }

  /** `Name::parse`: `preceded(char('/'), take_while1(regular))`. */
  function Parse(input: seq<byte>): (r: ParseResult<Name>)
    ensures r.Success? <==> |input| >= 2 && input[0] == SLASH && IsRegular(input[1])
    ensures r.Success? ==> input == [SLASH] + r.value.bytes + r.rest
    ensures r.Success? ==> IsBody(r.value.bytes)
    ensures r.Success? ==> r.rest == [] || IsDelimiter(r.rest[0])
  {
    match Char(SLASH, input)
    case Failure(e) => Failure(e)
    case Success(s, _) =>
      var (body, rest) := Span(s, IsRegular);
      if |body| == 0 then Failure(EmptyRun) else Success(rest, Name(body))
  }

  /** Writing a valid body after `/` and parsing it back gives the same name,
      as long as what follows starts with a delimiter or is empty. */
  lemma RoundTrip(body: seq<byte>, rest: seq<byte>)
    requires IsBody(body)
    requires rest == [] || IsDelimiter(rest[0])
    ensures Parse([SLASH] + body + rest) == Success(rest, Name(body))
  {
    var input := [SLASH] + body + rest;
    assert input[1..] == body + rest;
    SpanOf(body, rest, IsRegular);
  }

  /** `new(b).get() == b`. */
  lemma NewGet(b: seq<byte>)
    ensures Name(b).bytes == b
  {
  }
}
