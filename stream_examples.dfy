/** The unit tests of src/objects/stream.rs, and the stream test of
    src/objects/mod.rs, as instances of `StreamFacts.StreamOf`. */
module StreamExamples {
  import opened Parsing
  import opened ObjectParser
  import opened ObjectFacts
  import opened ObjectDispatch
  import opened ArrayFacts
  import opened DictionaryFacts
  import opened StreamFacts
  import opened ArrayExamples
  import opened DictionaryExamples
  import NameParser
  import NumberParser
  import NumberFacts

  /** The bytes `Length` and `abc`. */
  const LENGTH_BODY: seq<byte> := [76, 101, 110, 103, 116, 104]
  const ABC: seq<byte> := [97, 98, 99]

  /** The stream dictionary of one pair, `Length` to `i`. */
  function LengthInfo(i: NumberParser.Integer): PdfDictionary {
    PdfDictionary(Collect(WithoutNulls([(LENGTH, Integer(i))])))
  }

  lemma LengthKey()
    ensures LENGTH == NameParser.Name(LENGTH_BODY) && NameParser.IsBody(LENGTH_BODY)
  {
    assert B("Length") == LENGTH_BODY;
  }

  lemma LengthValue(i: NumberParser.Integer)
    requires i.value >= 0
    ensures LengthIs(LengthInfo(i), i.value as int)
  {
    OnlyPair((LENGTH, Integer(i)));
  }

  /** `<<`, whitespace, `/Length`, a space, a non-negative Integer,
      whitespace and `>>` make the dictionary `LengthInfo(i)`. */
  lemma LengthDictionary(u: seq<byte>, ws0: seq<byte>, i: NumberParser.Integer, ws1: seq<byte>, t: seq<byte>)
    requires AllMultispace(ws0) && AllMultispace(ws1) && i.value >= 0
    requires u == OPEN_DICT + (ws0 + ([SLASH] + LENGTH_BODY + ([SPACE] + (NumberFacts.FormatInteger(i) + (ws1 + (CLOSE_DICT + t))))))
    ensures ParseDictionary(u) == Success(t, LengthInfo(i))
    ensures LengthIs(LengthInfo(i), i.value as int)
  {
    var r := ws1 + (CLOSE_DICT + t);
    var v := NumberFacts.FormatInteger(i) + r;
    var s := ws0 + ([SLASH] + LENGTH_BODY + ([SPACE] + v));
    OpenedDict(u, s);
    LengthKey();
    assert r[0] == (if ws1 == [] then StringParser.GREATER else ws1[0]);
    IntegerElement(v, i, r);
    EntryChainNil(r);
    PairCons(s, ws0, LENGTH_BODY, v, r, Integer(i), [], r);
    assert [(NameParser.Name(LENGTH_BODY), Integer(i))] + [] == [(LENGTH, Integer(i))];
    DictionaryOf(u, [(LENGTH, Integer(i))], ws1, t);
    LengthValue(i);
  }

  /** The dictionary, then `stream`, the payload and `endstream`. */
  lemma LengthStream(u: seq<byte>, ws0: seq<byte>, i: NumberParser.Integer, ws1: seq<byte>,
                     ws2: seq<byte>, ws3: seq<byte>, ws4: seq<byte>, data: seq<byte>, rest: seq<byte>)
    requires AllMultispace(ws0) && AllMultispace(ws1) && AllMultispace(ws2)
    requires AllMultispace(ws3) && |ws3| > 0 && AllMultispace(ws4)
    requires |data| > 0 && !IsMultispace(data[0]) && i.value as int == |data|
    requires u == OPEN_DICT + (ws0 + ([SLASH] + LENGTH_BODY + ([SPACE] + (NumberFacts.FormatInteger(i) +
      (ws1 + (CLOSE_DICT + (ws2 + (STREAM + (ws3 + (data + (ws4 + (ENDSTREAM + rest))))))))))))
    ensures ParseStream(u) == Success(rest, PdfStream(LengthInfo(i), data))
  {
    var t := ws2 + (STREAM + (ws3 + (data + (ws4 + (ENDSTREAM + rest)))));
    LengthDictionary(u, ws0, i, ws1, t);
    StreamOf(u, t, LengthInfo(i), ws2, ws3, data, ws4, rest);
  }

  /** `LF` is whitespace. */
  lemma OneNewline()
    ensures AllMultispace([LF])
  {
  }

  // stream.rs, stream_1: `<</Length 3>>stream\nabc\nendstream`.

  const THREE: NumberParser.Integer := NumberParser.Integer(3)

  const STREAM_1: seq<byte> := OPEN_DICT + ([] + ([SLASH] + LENGTH_BODY + ([SPACE] + (NumberFacts.FormatInteger(THREE) +
    ([] + (CLOSE_DICT + ([] + (STREAM + ([LF] + (ABC + ([LF] + (ENDSTREAM + []))))))))))))

  lemma Stream1(u: seq<byte>)
    requires u == STREAM_1
    ensures ParseStream(u) == Success([], PdfStream(LengthInfo(THREE), ABC))
  {
    OneNewline();
    LengthStream(u, [], THREE, [], [], [LF], [LF], ABC, []);
  }

  lemma Split1()
    ensures "<</Length 3>>stream\nabc\nendstream" == "<</Length 3>>" + "stream\nabc\nendstream"
  {
  }

  lemma Head1()
    ensures B("<</Length 3>>") == OPEN_DICT + ([] + ([SLASH] + LENGTH_BODY + ([SPACE] + ([51] + ([] + CLOSE_DICT)))))
  {
  }

  lemma Tail1()
    ensures B("stream\nabc\nendstream") == [] + (STREAM + ([LF] + (ABC + ([LF] + (ENDSTREAM + [])))))
  {
  }

  lemma HeadRegroup(digits: seq<byte>, ws0: seq<byte>, ws1: seq<byte>, x: seq<byte>)
    ensures (OPEN_DICT + (ws0 + ([SLASH] + LENGTH_BODY + ([SPACE] + (digits + (ws1 + CLOSE_DICT)))))) + x ==
      OPEN_DICT + (ws0 + ([SLASH] + LENGTH_BODY + ([SPACE] + (digits + (ws1 + (CLOSE_DICT + x))))))
  {
  }

  lemma Pieces1()
    ensures B("<</Length 3>>stream\nabc\nendstream") == STREAM_1
  {
    Split1();
    BConcat("<</Length 3>>", "stream\nabc\nendstream");
    Head1();
    Tail1();
    assert NumberFacts.FormatInteger(THREE) == [51];
    HeadRegroup([51], [], [], [] + (STREAM + ([LF] + (ABC + ([LF] + (ENDSTREAM + []))))));
  }

  /** `<</Length 3>>stream\nabc\nendstream`: all of the input is taken,
      `Length` is the Integer 3 and the payload is `abc`. */
  lemma ParseStream1(u: seq<byte>)
    requires u == B("<</Length 3>>stream\nabc\nendstream")
    ensures var r := ParseStream(u);
      r.Success? && r.rest == [] && Get(r.value.info, LENGTH) == Some(Integer(THREE)) &&
      GetInteger(Get(r.value.info, LENGTH).value) == Some(THREE) && r.value.data == ABC
  {
    Pieces1();
    Stream1(u);
    OnlyPair((LENGTH, Integer(THREE)));
  }

  // stream.rs, stream_2: a 59-byte binary payload, with newlines around
  // `/Length 59` and `>>`.

  /** The 93 input bytes of the test, cut after `stream\n` and before
      `\nendstream`. */
  const STREAM_2_HEAD: seq<byte> := [
    0x3C, 0x3C, 0x0A, 0x2F, 0x4C, 0x65, 0x6E, 0x67, 0x74, 0x68, 0x20, 0x35, 0x39, 0x0A,
    0x3E, 0x3E, 0x0A, 0x73, 0x74, 0x72, 0x65, 0x61, 0x6D, 0x0A]
  const STREAM_2_DATA: seq<byte> := [
    0x78, 0x9C, 0x25, 0xC8, 0xDB, 0x09, 0xC0, 0x20, 0x14, 0x04, 0xD1, 0x59, 0xF3, 0xD0] + [
    0x10, 0x09, 0xF6, 0x9F, 0x6E, 0xAC, 0xC3, 0x56, 0x44, 0x59, 0xEE, 0xCF, 0x81, 0x19,
    0x60, 0xAD, 0xC4, 0x07, 0x46, 0x26, 0x99, 0x43, 0xB4, 0x78, 0xA7, 0xB9, 0xC4, 0x8C,
    0xBC, 0x4D, 0xD6, 0xFB, 0x47, 0x16, 0xF3, 0xA8, 0x0E, 0x50, 0xEB, 0xB0, 0x01, 0xFC,
    0x17, 0x06, 0x3E]
  const STREAM_2_TAIL: seq<byte> := [0x0A, 0x65, 0x6E, 0x64, 0x73, 0x74, 0x72, 0x65, 0x61, 0x6D]

  const FIFTY_NINE: NumberParser.Integer := NumberParser.Integer(59)

  lemma Head2()
    ensures STREAM_2_HEAD == OPEN_DICT + ([LF] + ([SLASH] + LENGTH_BODY + ([SPACE] + (NumberFacts.FormatInteger(FIFTY_NINE) +
      ([LF] + (CLOSE_DICT + ([LF] + (STREAM + [LF]))))))))
  {
    assert NumberFacts.FormatInteger(FIFTY_NINE) == [0x35, 0x39];
  }

  lemma Tail2()
    ensures STREAM_2_TAIL == [LF] + (ENDSTREAM + [])
  {
  }

  lemma Regroup2(digits: seq<byte>, data: seq<byte>, tail: seq<byte>)
    ensures (OPEN_DICT + ([LF] + ([SLASH] + LENGTH_BODY + ([SPACE] + (digits + ([LF] + (CLOSE_DICT + ([LF] + (STREAM + [LF]))))))))) +
      data + tail ==
      OPEN_DICT + ([LF] + ([SLASH] + LENGTH_BODY + ([SPACE] + (digits + ([LF] + (CLOSE_DICT + ([LF] + (STREAM + ([LF] + (data + tail))))))))))
  {
  }

  lemma NoSpaceAhead2()
    ensures |STREAM_2_DATA| == 59 && !IsMultispace(STREAM_2_DATA[0])
  {
    assert STREAM_2_DATA[0] == 0x78;
  }

  /** The 93 bytes of stream_2: all are taken, `Length` is 59 and the
      payload is the 59 bytes between `stream\n` and `\nendstream`. */
  lemma ParseStream2(u: seq<byte>)
    requires u == STREAM_2_HEAD + STREAM_2_DATA + STREAM_2_TAIL
    ensures var r := ParseStream(u);
      r.Success? && r.rest == [] && Get(r.value.info, LENGTH) == Some(Integer(FIFTY_NINE)) &&
      r.value.data == STREAM_2_DATA
  {
    Head2();
    Tail2();
    Regroup2(NumberFacts.FormatInteger(FIFTY_NINE), STREAM_2_DATA, [LF] + (ENDSTREAM + []));
    OneNewline();
    NoSpaceAhead2();
    LengthStream(u, [LF], FIFTY_NINE, [LF], [LF], [LF], [LF], STREAM_2_DATA, []);
    OnlyPair((LENGTH, Integer(FIFTY_NINE)));
  }

  // mod.rs, stream_1: `Object::parse` of `<</Length 6>>stream\nstream\nendstream`,
  // whose payload is the word `stream` itself.

  const SIX: NumberParser.Integer := NumberParser.Integer(6)

  const STREAM_6: seq<byte> := OPEN_DICT + ([] + ([SLASH] + LENGTH_BODY + ([SPACE] + (NumberFacts.FormatInteger(SIX) +
    ([] + (CLOSE_DICT + ([] + (STREAM + ([LF] + (STREAM + ([LF] + (ENDSTREAM + []))))))))))))

  lemma Stream6(u: seq<byte>)
    requires u == STREAM_6
    ensures ParseObject(u) == Success([], Stream(PdfStream(LengthInfo(SIX), STREAM)))
  {
    OneNewline();
    LengthStream(u, [], SIX, [], [], [LF], [LF], STREAM, []);
    ObjectIsStream(u, [], PdfStream(LengthInfo(SIX), STREAM));
  }

  lemma Split6()
    ensures "<</Length 6>>stream\nstream\nendstream" == "<</Length 6>>" + "stream\nstream\nendstream"
  {
  }

  lemma Head6()
    ensures B("<</Length 6>>") == OPEN_DICT + ([] + ([SLASH] + LENGTH_BODY + ([SPACE] + ([54] + ([] + CLOSE_DICT)))))
  {
  }

  lemma Tail6()
    ensures B("stream\nstream\nendstream") == [] + (STREAM + ([LF] + (STREAM + ([LF] + (ENDSTREAM + [])))))
  {
  }

  lemma Pieces6()
    ensures B("<</Length 6>>stream\nstream\nendstream") == STREAM_6
  {
    Split6();
    BConcat("<</Length 6>>", "stream\nstream\nendstream");
    Head6();
    Tail6();
    assert NumberFacts.FormatInteger(SIX) == [54];
    HeadRegroup([54], [], [], [] + (STREAM + ([LF] + (STREAM + ([LF] + (ENDSTREAM + []))))));
  }

  /** `<</Length 6>>stream\nstream\nendstream` is a Stream object: `get_obj`
      finds the stream, its `Length` is 6 and its payload is `stream`; the
      payload is not mistaken for the keyword. */
  lemma ObjectStream6(u: seq<byte>)
    requires u == B("<</Length 6>>stream\nstream\nendstream")
    ensures var r := ParseObject(u);
      r.Success? && r.rest == [] && GetStream(r.value).Some? &&
      Get(GetStream(r.value).value.info, LENGTH) == Some(Integer(SIX)) &&
      GetInteger(Get(GetStream(r.value).value.info, LENGTH).value) == Some(SIX) &&
      GetStream(r.value).value.data == STREAM
  {
    Pieces6();
    Stream6(u);
    OnlyPair((LENGTH, Integer(SIX)));
  }

  // The payload's size is set by `Length` alone: with `Length 2` the
  // bytes after `ab` are `c` and not `endstream`.

  const TWO: NumberParser.Integer := NumberParser.Integer(2)

  const SHORT_BODY: seq<byte> := ABC + ([LF] + (ENDSTREAM + []))

  /** Two bytes of `abc\nendstream` leave `c\nendstream`, which does not
      start with `endstream`. */
  lemma ShortBody()
    ensures StreamBody(LengthInfo(TWO), SHORT_BODY).Failure?
  {
    LengthValue(TWO);
    var after := SHORT_BODY[2..];
    assert after[0] == 99;
    Multispace0Of([], after);
    assert [] + after == after;
    BodyNoEnd(LengthInfo(TWO), SHORT_BODY, 2);
  }

  lemma ShortKeyword()
    ensures StreamKeyword([] + (STREAM + ([LF] + SHORT_BODY))) == Success(SHORT_BODY, ())
  {
    OneNewline();
    StreamKeywordOf([], [LF], SHORT_BODY);
  }

  lemma ShortLength(u: seq<byte>)
    requires u == OPEN_DICT + ([] + ([SLASH] + LENGTH_BODY + ([SPACE] + (NumberFacts.FormatInteger(TWO) +
      ([] + (CLOSE_DICT + ([] + (STREAM + ([LF] + SHORT_BODY)))))))))
    ensures ParseStream(u).Failure?
  {
    LengthDictionary(u, [], TWO, [], [] + (STREAM + ([LF] + SHORT_BODY)));
    ShortKeyword();
    ShortBody();
  }
}
