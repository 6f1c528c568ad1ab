/** The unit tests of src/objects/boolean.rs, null.rs and name.rs, as
    instances of the general contracts of those parsers. */
module ScalarFacts {
  import opened Parsing
  import BooleanParser
  import NullParser
  import NameParser

  /** `BooleanParser.RoundTrip` for a given input buffer. */
  lemma BooleanText(input: seq<byte>, b: BooleanParser.Boolean, rest: seq<byte>)
    requires input == BooleanParser.Keyword(b) + rest
    ensures BooleanParser.Parse(input) == Success(rest, b)
  {
    BooleanParser.RoundTrip(b, rest);
  }

  lemma BooleanTrue()
    ensures BooleanParser.Parse(B("true")) == Success([], BooleanParser.Boolean(true))
  {
    BooleanText(B("true"), BooleanParser.Boolean(true), []);
  }

  lemma BooleanFalse()
    ensures BooleanParser.Parse(B("false")) == Success([], BooleanParser.Boolean(false))
  {
    BooleanText(B("false"), BooleanParser.Boolean(false), []);
  }

  lemma BooleanTrailingText()
    ensures BooleanParser.Parse(B("truebu")) == Success(B("bu"), BooleanParser.Boolean(true))
  {
    BooleanText(B("truebu"), BooleanParser.Boolean(true), B("bu"));
  }

  lemma BooleanLeadingSpace()
    ensures BooleanParser.Parse(B(" true")).Failure?
  {
    assert B(" true")[0] == SPACE;
  }

  /** `NullParser.RoundTrip` for a given input buffer. */
  lemma NullText(input: seq<byte>, rest: seq<byte>)
    requires input == B("null") + rest
    ensures NullParser.Parse(input) == Success(rest, NullParser.Null)
  {
    NullParser.RoundTrip(rest);
  }

  lemma NullKeyword()
    ensures NullParser.Parse(B("null")) == Success([], NullParser.Null)
  {
    NullText(B("null"), []);
  }

  lemma NullTruncated()
    ensures NullParser.Parse(B("nul")).Failure?
  {
  }

  lemma NullLeadingSpace()
    ensures NullParser.Parse(B(" null")).Failure?
  {
    assert B(" null")[0] == SPACE;
  }

  /** `NameParser.RoundTrip` for a given input buffer. */
  lemma NameText(input: seq<byte>, body: seq<byte>, rest: seq<byte>)
    requires NameParser.IsBody(body)
    requires rest == [] || NameParser.IsDelimiter(rest[0])
    requires input == [SLASH] + body + rest
    ensures NameParser.Parse(input) == Success(rest, NameParser.Name(body))
  {
    NameParser.RoundTrip(body, rest);
  }

  lemma NameSimple()
    ensures NameParser.Parse(B("/Name1")) == Success([], NameParser.Name(B("Name1")))
  {
    NameText(B("/Name1"), B("Name1"), []);
  }

  /** The input `/A;Name_With-various***characters?%`, written as `/`, the body
      and the `%` that ends it. */
  lemma NameStopsAtPercent()
    ensures NameParser.Parse([SLASH] + B("A;Name_With-various***characters?") + B("%"))
         == Success(B("%"), NameParser.Name(B("A;Name_With-various***characters?")))
  {
    LongBody();
    NameText([SLASH] + B("A;Name_With-various***characters?") + B("%"), B("A;Name_With-various***characters?"), B("%"));
  }

  lemma NameEmptyBody()
    ensures NameParser.Parse(B("/%")).Failure?
  {
    assert B("/%")[1] == 37;
  }

  lemma NameStopsAtSpace()
    ensures NameParser.Parse(B("/A ")) == Success(B(" "), NameParser.Name(B("A")))
  {
    NameText(B("/A "), B("A"), B(" "));
  }

  lemma LongBody()
    ensures NameParser.IsBody(B("A;Name_With-various***characters?"))
  {
  }
}
