/** What src/objects/stream.rs promises about `Stream::parse`: a
    dictionary, `stream` and its whitespace, exactly `Length` bytes of
    payload, then `endstream`; and each way it fails. */
module StreamFacts {
  import opened Parsing
  import opened ObjectParser
  import opened ObjectFacts
  import opened ObjectDispatch
  import opened ArrayFacts
  import NumberParser
  import StringParser

  /** `Length` holds a non-negative Integer `n`. */
  predicate LengthIs(info: PdfDictionary, n: int) {
    LENGTH in info.entries && info.entries[LENGTH].Integer? &&
    info.entries[LENGTH].integer.value as int == n && n >= 0
  }

  lemma StreamKeywordOf(ws1: seq<byte>, ws2: seq<byte>, u: seq<byte>)
    requires AllMultispace(ws1) && AllMultispace(ws2) && |ws2| > 0
    requires |u| > 0 && !IsMultispace(u[0])
    ensures StreamKeyword(ws1 + (STREAM + (ws2 + u))) == Success(u, ())
  {
    var k := STREAM + (ws2 + u);
    Multispace0Of(ws1, k);
    assert k[..6] == STREAM && k[6..] == ws2 + u;
    Multispace0Of(ws2, u);
  }

  lemma StreamBodyOf(info: PdfDictionary, data: seq<byte>, ws: seq<byte>, rest: seq<byte>)
    requires LengthIs(info, |data|) && AllMultispace(ws)
    ensures StreamBody(info, data + (ws + (ENDSTREAM + rest))) == Success(rest, PdfStream(info, data))
  {
    var s := data + (ws + (ENDSTREAM + rest));
    assert s[..|data|] == data && s[|data|..] == ws + (ENDSTREAM + rest);
    Multispace0Of(ws, ENDSTREAM + rest);
    assert (ENDSTREAM + rest)[..9] == ENDSTREAM && (ENDSTREAM + rest)[9..] == rest;
  }

  /** A dictionary whose `Length` is the payload's size, `stream`, at least
      one whitespace byte, the payload, optional whitespace and `endstream`
      make the stream of that payload. A non-empty payload must not start
      with whitespace, since `multispace1` would take it; an empty one
      (`Length 0`) is a stream too. */
  lemma StreamOf(input: seq<byte>, t: seq<byte>, info: PdfDictionary, ws1: seq<byte>, ws2: seq<byte>,
                 data: seq<byte>, ws3: seq<byte>, rest: seq<byte>)
    requires ParseDictionary(input) == Success(t, info)
    requires t == ws1 + (STREAM + (ws2 + (data + (ws3 + (ENDSTREAM + rest)))))
    requires AllMultispace(ws1) && AllMultispace(ws2) && |ws2| > 0 && AllMultispace(ws3)
    requires |data| > 0 ==> !IsMultispace(data[0])
    requires LengthIs(info, |data|)
    ensures ParseStream(input) == Success(rest, PdfStream(info, data))
  {
    if |data| > 0 {
      var u := data + (ws3 + (ENDSTREAM + rest));
      StreamKeywordOf(ws1, ws2, u);
      StreamBodyOf(info, data, ws3, rest);
      StreamThen(input, t, info, u, rest, PdfStream(info, data));
    } else {
      EmptyPayload(ws2, ws3, ENDSTREAM + rest);
      EmptyStream(t, info, ws1, ws2 + ws3, rest);
      StreamThen(input, t, info, ENDSTREAM + rest, rest, PdfStream(info, data));
    }
  }

  /** `stream`, whitespace and straight away `endstream`, with `Length 0`. */
  lemma EmptyStream(t: seq<byte>, info: PdfDictionary, ws1: seq<byte>, ws: seq<byte>, rest: seq<byte>)
    requires t == ws1 + (STREAM + (ws + (ENDSTREAM + rest)))
    requires AllMultispace(ws1) && AllMultispace(ws) && |ws| > 0
    requires LengthIs(info, 0)
    ensures StreamKeyword(t) == Success(ENDSTREAM + rest, ())
    ensures StreamBody(info, ENDSTREAM + rest) == Success(rest, PdfStream(info, []))
  {
    StreamKeywordOf(ws1, ws, ENDSTREAM + rest);
    StreamBodyOf(info, [], [], rest);
    assert [] + ([] + (ENDSTREAM + rest)) == ENDSTREAM + rest;
  }

  lemma StreamThen(input: seq<byte>, t: seq<byte>, info: PdfDictionary, u: seq<byte>, rest: seq<byte>, v: PdfStream)
    requires ParseDictionary(input) == Success(t, info)
    requires StreamKeyword(t) == Success(u, ())
    requires StreamBody(info, u) == Success(rest, v)
    ensures ParseStream(input) == Success(rest, v)
  {
  }

  /** With no payload the whitespace before and after it is one run. */
  lemma EmptyPayload(ws2: seq<byte>, ws3: seq<byte>, e: seq<byte>)
    requires AllMultispace(ws2) && AllMultispace(ws3)
    ensures ws2 + ([] + (ws3 + e)) == (ws2 + ws3) + e
    ensures AllMultispace(ws2 + ws3)
  {
    assert [] + (ws3 + e) == ws3 + e;
  }

  /** A parsed stream is its dictionary, then `Length` bytes of payload
      taken right after the whitespace that follows `stream`, then
      `endstream` after optional whitespace. */
  lemma StreamParts(input: seq<byte>, rest: seq<byte>, v: PdfStream)
    requires ParseStream(input) == Success(rest, v)
    ensures ParseDictionary(input).Success? && ParseDictionary(input).value == v.info
    ensures LengthIs(v.info, |v.data|)
    ensures var s := StreamKeyword(ParseDictionary(input).rest);
      s.Success? && StartsWith(s.rest, v.data) &&
      StartsWith(Multispace0(s.rest[|v.data|..]), ENDSTREAM) &&
      rest == Multispace0(s.rest[|v.data|..])[9..]
  {
  }

  /** Without `Length`, or with a `Length` that is not an Integer, there is
      no stream. */
  lemma StreamNoLength(input: seq<byte>)
    requires ParseDictionary(input).Success?
    requires var info := ParseDictionary(input).value;
      LENGTH !in info.entries || !info.entries[LENGTH].Integer?
    ensures ParseStream(input).Failure?
  {
  }

  /** A negative `Length` fails the conversion to `usize`. */
  lemma StreamNegativeLength(input: seq<byte>)
    requires ParseDictionary(input).Success?
    requires var info := ParseDictionary(input).value;
      LENGTH in info.entries && info.entries[LENGTH].Integer? && info.entries[LENGTH].integer.value < 0
    ensures ParseStream(input).Failure?
  {
  }

  /** Fewer bytes after `stream` than `Length` says: no stream. */
  lemma StreamTooShort(input: seq<byte>)
    requires ParseDictionary(input).Success?
    requires var s := StreamKeyword(ParseDictionary(input).rest);
      var info := ParseDictionary(input).value;
      s.Success? && LENGTH in info.entries && info.entries[LENGTH].Integer? &&
      info.entries[LENGTH].integer.value as int > |s.rest|
    ensures ParseStream(input).Failure?
  {
  }

  lemma BodyNoEnd(info: PdfDictionary, s: seq<byte>, n: nat)
    requires LengthIs(info, n) && n <= |s|
    requires !StartsWith(Multispace0(s[n..]), ENDSTREAM)
    ensures StreamBody(info, s).Failure?
  {
  }

  /** A valid dictionary and payload are still no stream unless
      `endstream` follows. */
  lemma StreamNoEnd(input: seq<byte>, n: nat)
    requires ParseDictionary(input).Success? && LengthIs(ParseDictionary(input).value, n)
    requires var s := StreamKeyword(ParseDictionary(input).rest);
      s.Success? && n <= |s.rest| && !StartsWith(Multispace0(s.rest[n..]), ENDSTREAM)
    ensures ParseStream(input).Failure?
  {
    BodyNoEnd(ParseDictionary(input).value, StreamKeyword(ParseDictionary(input).rest).rest, n);
  }

  lemma KeywordNeedsSpace(ws: seq<byte>, u: seq<byte>)
    requires AllMultispace(ws) && (u == [] || !IsMultispace(u[0]))
    ensures StreamKeyword(ws + (STREAM + u)).Failure?
  {
    var k := STREAM + u;
    Multispace0Of(ws, k);
    assert k[..6] == STREAM && k[6..] == u;
  }

  lemma KeywordMissing(input: seq<byte>)
    requires ParseDictionary(input).Success?
    requires StreamKeyword(ParseDictionary(input).rest).Failure?
    ensures ParseStream(input).Failure?
  {
  }

  /** `stream` must be followed by at least one whitespace byte. */
  lemma StreamNeedsSpace(input: seq<byte>, ws: seq<byte>, u: seq<byte>)
    requires ParseDictionary(input).Success?
    requires ParseDictionary(input).rest == ws + (STREAM + u) && AllMultispace(ws)
    requires u == [] || !IsMultispace(u[0])
    ensures ParseStream(input).Failure?
  {
    KeywordNeedsSpace(ws, u);
    KeywordMissing(input);
  }

  /** A dictionary not followed by `stream` is no stream. */
  lemma NotStream(input: seq<byte>)
    requires ParseDictionary(input).Success?
    requires !StartsWith(Multispace0(ParseDictionary(input).rest), STREAM)
    ensures ParseStream(input).Failure?
  {
    KeywordMissing(input);
  }

  lemma KeywordAfterCloser(t: seq<byte>)
    requires |t| > 0 && t[0] == StringParser.GREATER
    ensures StreamKeyword(t).Failure?
  {
    Multispace0Of([], t);
    assert [] + t == t;
  }

  /** A dictionary followed by `>` (an enclosing `>>`) is no stream, so
      `Object::parse` takes the Dictionary alternative. */
  lemma DictionaryThenCloser(input: seq<byte>, t: seq<byte>, d: PdfDictionary)
    requires ParseDictionary(input) == Success(t, d)
    requires |t| > 0 && t[0] == StringParser.GREATER
    ensures ParseStream(input).Failure?
    ensures ParseObject(input) == Success(t, Dictionary(d))
  {
    KeywordAfterCloser(t);
    KeywordMissing(input);
    ObjectIsDictionary(input, t, d);
  }
}
