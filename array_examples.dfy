/** The unit tests of src/objects/array.rs, and the array test of
    src/objects/mod.rs, as instances of the element-chain lemmas. */
module ArrayExamples {
  import opened Parsing
  import opened ObjectParser
  import opened ObjectFacts
  import opened ObjectDispatch
  import opened ArrayFacts
  import NumberParser
  import NameParser
  import BooleanParser
  import StringParser
  import NumberFacts
  import ScalarFacts
  import StringFacts
  import Brackets

  // Objects as array elements.

  /** Digits, a dot and digits: a Real, since `Integer::parse` rejects the dot. */
  lemma RealElement(u: seq<byte>, whole: seq<byte>, frac: seq<byte>, t: seq<byte>)
    requires |whole| > 0 && NumberParser.AllDigits(whole) && NumberParser.AllDigits(frac)
    requires t == [] || !NumberParser.IsDigitOrDot(t[0])
    requires u == whole + [DOT] + frac + t
    ensures ParseObject(u) == Success(t, Real(NumberParser.Real(false, whole + [DOT] + frac)))
  {
    var lex := whole + [DOT] + frac;
    NumberFacts.DigitsAreDigitOrDot(whole);
    NumberFacts.DigitsAreDigitOrDot(frac);
    assert lex[|whole|] == DOT && lex[0] == whole[0];
    assert u == [] + lex + t;
    NumberFacts.DotRejected([], lex, t);
    NumberFacts.RealInput(u, [], whole, true, frac, lex, t);
    ObjectIsReal(u, t, NumberParser.Real(false, lex));
  }

  lemma NameElement(u: seq<byte>, body: seq<byte>, t: seq<byte>)
    requires NameParser.IsBody(body) && (t == [] || NameParser.IsDelimiter(t[0]))
    requires u == [SLASH] + body + t
    ensures ParseObject(u) == Success(t, Name(NameParser.Name(body)))
  {
    ScalarFacts.NameText(u, body, t);
    ObjectIsName(u, t, NameParser.Name(body));
  }

  lemma BooleanElement(u: seq<byte>, b: BooleanParser.Boolean, t: seq<byte>)
    requires u == BooleanParser.Keyword(b) + t
    ensures ParseObject(u) == Success(t, Boolean(b))
  {
    ScalarFacts.BooleanText(u, b, t);
    ObjectIsBoolean(u, t, b);
  }

  lemma StringElement(u: seq<byte>, text: seq<byte>, t: seq<byte>)
    requires forall k :: 0 <= k < |text| ==> text[k] != Brackets.LPAREN && text[k] != Brackets.RPAREN && text[k] != BACKSLASH
    requires u == [Brackets.LPAREN] + text + [Brackets.RPAREN] + t
    ensures ParseObject(u) == Success(t, String(StringParser.PdfString(text)))
  {
    StringFacts.PlainLiteral(text, t);
    NotDictionary(u);
    ObjectIsString(u, t, StringParser.PdfString(text));
  }

  lemma IntegerElement(u: seq<byte>, i: NumberParser.Integer, t: seq<byte>)
    requires i.value as int != NumberParser.I32_MIN
    requires t == [] || !NumberParser.IsDigitOrDot(t[0])
    requires u == NumberFacts.FormatInteger(i) + t
    ensures ParseObject(u) == Success(t, Integer(i))
  {
    NumberFacts.IntegerText(u, i, t);
    ObjectIsInteger(u, t, i);
  }

  /** The bytes `1.0` and `size`, and the objects they make. */
  const ONE_LEX: seq<byte> := [49, DOT, 48]
  const SIZE: seq<byte> := [115, 105, 122, 101]
  const ONE: Object := Real(NumberParser.Real(false, ONE_LEX))
  const SIZE_NAME: Object := Name(NameParser.Name(SIZE))
  const TRUE: Object := Boolean(BooleanParser.Boolean(true))

  lemma OneElement(u: seq<byte>, t: seq<byte>)
    requires t == [] || !NumberParser.IsDigitOrDot(t[0])
    requires u == ONE_LEX + t
    ensures ParseObject(u) == Success(t, ONE)
  {
    assert ONE_LEX == [49] + [DOT] + [48];
    RealElement(u, [49], [48], t);
  }

  lemma SizeElement(u: seq<byte>, t: seq<byte>)
    requires |t| > 0 && NameParser.IsDelimiter(t[0])
    requires u == [SLASH] + SIZE + t
    ensures ParseObject(u) == Success(t, SIZE_NAME)
  {
    NameElement(u, SIZE, t);
  }

  /** `u` is `[` followed by `s`. */
  lemma Opened(u: seq<byte>, s: seq<byte>)
    requires u == [LBRACKET] + s
    ensures |u| > 0 && u[0] == LBRACKET && u[1..] == s
  {
  }

  lemma OneSpace()
    ensures AllMultispace([SPACE])
  {
  }

  /** One element after its whitespace. */
  lemma Chain1(s: seq<byte>, ws1: seq<byte>, u1: seq<byte>, t1: seq<byte>, o1: Object)
    requires s == ws1 + u1 && AllMultispace(ws1) && ParseObject(u1) == Success(t1, o1)
    ensures IsElementChain(s, [o1], t1)
  {
    ChainNil(t1);
    ChainCons(s, ws1, u1, t1, [o1], t1);
  }

  /** Two elements, each after its whitespace. */
  lemma Chain2(s: seq<byte>, ws1: seq<byte>, u1: seq<byte>, t1: seq<byte>, o1: Object,
               ws2: seq<byte>, u2: seq<byte>, t2: seq<byte>, o2: Object)
    requires s == ws1 + u1 && AllMultispace(ws1) && ParseObject(u1) == Success(t1, o1)
    requires t1 == ws2 + u2 && AllMultispace(ws2) && ParseObject(u2) == Success(t2, o2)
    ensures IsElementChain(s, [o1, o2], t2)
  {
    ChainNil(t2);
    ChainCons(t1, ws2, u2, t2, [o2], t2);
    assert [o1, o2][1..] == [o2];
    ChainCons(s, ws1, u1, t1, [o1, o2], t2);
  }

  /** Three elements, each after its whitespace. */
  lemma Chain3(s: seq<byte>, ws1: seq<byte>, u1: seq<byte>, t1: seq<byte>, o1: Object,
               ws2: seq<byte>, u2: seq<byte>, t2: seq<byte>, o2: Object,
               ws3: seq<byte>, u3: seq<byte>, t3: seq<byte>, o3: Object)
    requires s == ws1 + u1 && AllMultispace(ws1) && ParseObject(u1) == Success(t1, o1)
    requires t1 == ws2 + u2 && AllMultispace(ws2) && ParseObject(u2) == Success(t2, o2)
    requires t2 == ws3 + u3 && AllMultispace(ws3) && ParseObject(u3) == Success(t3, o3)
    ensures IsElementChain(s, [o1, o2, o3], t3)
  {
    Chain2(t1, ws2, u2, t2, o2, ws3, u3, t3, o3);
    assert [o1, o2, o3][1..] == [o2, o3];
    ChainCons(s, ws1, u1, t1, [o1, o2, o3], t3);
  }

  // parse_array_1

  lemma Array1(u: seq<byte>)
    requires u == [LBRACKET] + ([] + ([RBRACKET] + []))
    ensures ParseArray(u) == Success([], PdfArray([]))
  {
    Opened(u, [] + ([RBRACKET] + []));
    ChainNil(u[1..]);
    ArrayOf(u, [], [], []);
  }

  lemma Pieces1()
    ensures B("[]") == [LBRACKET] + ([] + ([RBRACKET] + []))
  {
  }

  /** `[]` is the empty array. */
  lemma ParseArray1()
    ensures ParseArray(B("[]")) == Success([], PdfArray([]))
  {
    Pieces1();
    Array1(B("[]"));
  }

  // parse_array_2

  lemma Array2Chain(s: seq<byte>)
    requires s == ONE_LEX + ([] + ([RBRACKET] + []))
    ensures IsElementChain(s, [ONE], [] + ([RBRACKET] + []))
  {
    var r := [] + ([RBRACKET] + []);
    OneElement(s, r);
    assert s == [] + s;
    Chain1(s, [], s, r, ONE);
  }

  lemma Array2(u: seq<byte>)
    requires u == [LBRACKET] + (ONE_LEX + ([] + ([RBRACKET] + [])))
    ensures ParseArray(u) == Success([], PdfArray([ONE]))
  {
    Opened(u, ONE_LEX + ([] + ([RBRACKET] + [])));
    Array2Chain(u[1..]);
    ArrayOf(u, [ONE], [], []);
  }

  lemma Pieces2()
    ensures B("[1.0]") == [LBRACKET] + (ONE_LEX + ([] + ([RBRACKET] + [])))
  {
  }

  /** `[1.0]` is the array holding the Real `1.0`. */
  lemma ParseArray2()
    ensures ParseArray(B("[1.0]")) == Success([], PdfArray([ONE]))
  {
    Pieces2();
    Array2(B("[1.0]"));
  }

  // parse_array_3

  lemma Array3Chain(s: seq<byte>)
    requires s == [SLASH] + SIZE + ([SPACE] + (ONE_LEX + ([] + ([RBRACKET] + []))))
    ensures IsElementChain(s, [SIZE_NAME, ONE], [] + ([RBRACKET] + []))
  {
    var r := [] + ([RBRACKET] + []);
    var u2 := ONE_LEX + r;
    var t1 := [SPACE] + u2;
    OneElement(u2, r);
    SizeElement(s, t1);
    assert s == [] + s;
    Chain2(s, [], s, t1, SIZE_NAME, [SPACE], u2, r, ONE);
  }

  lemma Array3(u: seq<byte>)
    requires u == [LBRACKET] + ([SLASH] + SIZE + ([SPACE] + (ONE_LEX + ([] + ([RBRACKET] + [])))))
    ensures ParseArray(u) == Success([], PdfArray([SIZE_NAME, ONE]))
  {
    Opened(u, [SLASH] + SIZE + ([SPACE] + (ONE_LEX + ([] + ([RBRACKET] + [])))));
    Array3Chain(u[1..]);
    ArrayOf(u, [SIZE_NAME, ONE], [], []);
  }

  lemma Pieces3()
    ensures B("[/size 1.0]") == [LBRACKET] + ([SLASH] + SIZE + ([SPACE] + (ONE_LEX + ([] + ([RBRACKET] + [])))))
  {
  }

  /** `[/size 1.0]`: the Name `size`, then the Real `1.0`. */
  lemma ParseArray3()
    ensures ParseArray(B("[/size 1.0]")) == Success([], PdfArray([SIZE_NAME, ONE]))
  {
    Pieces3();
    Array3(B("[/size 1.0]"));
  }

  // parse_array_4

  lemma Array4Chain(s: seq<byte>)
    requires s == [SPACE] + ([SLASH] + SIZE + ([SPACE] + (ONE_LEX + ([SPACE] + ([RBRACKET] + [])))))
    ensures IsElementChain(s, [SIZE_NAME, ONE], [SPACE] + ([RBRACKET] + []))
  {
    var r := [SPACE] + ([RBRACKET] + []);
    var u2 := ONE_LEX + r;
    var t1 := [SPACE] + u2;
    var v0 := [SLASH] + SIZE + t1;
    OneElement(u2, r);
    SizeElement(v0, t1);
    Chain2(s, [SPACE], v0, t1, SIZE_NAME, [SPACE], u2, r, ONE);
  }

  lemma Array4(u: seq<byte>)
    requires u == [LBRACKET] + ([SPACE] + ([SLASH] + SIZE + ([SPACE] + (ONE_LEX + ([SPACE] + ([RBRACKET] + []))))))
    ensures ParseArray(u) == Success([], PdfArray([SIZE_NAME, ONE]))
  {
    Opened(u, [SPACE] + ([SLASH] + SIZE + ([SPACE] + (ONE_LEX + ([SPACE] + ([RBRACKET] + []))))));
    Array4Chain(u[1..]);
    OneSpace();
    ArrayOf(u, [SIZE_NAME, ONE], [SPACE], []);
  }

  lemma Pieces4()
    ensures B("[ /size 1.0 ]") == [LBRACKET] + ([SPACE] + ([SLASH] + SIZE + ([SPACE] + (ONE_LEX + ([SPACE] + ([RBRACKET] + []))))))
  {
  }

  /** `[ /size 1.0 ]`: whitespace after `[` and before `]` is skipped. */
  lemma ParseArray4()
    ensures ParseArray(B("[ /size 1.0 ]")) == Success([], PdfArray([SIZE_NAME, ONE]))
  {
    Pieces4();
    Array4(B("[ /size 1.0 ]"));
  }

  // parse_array_5 and parse_array_6

  /** The chain ` /size 1.0 ` followed by an element `x` that leaves `]`. */
  lemma SizeOneThen(s: seq<byte>, u3: seq<byte>, x: Object)
    requires s == [SPACE] + ([SLASH] + SIZE + ([SPACE] + (ONE_LEX + ([SPACE] + u3))))
    requires ParseObject(u3) == Success([] + ([RBRACKET] + []), x)
    ensures IsElementChain(s, [SIZE_NAME, ONE, x], [] + ([RBRACKET] + []))
  {
    var t2 := [SPACE] + u3;
    var u2 := ONE_LEX + t2;
    var t1 := [SPACE] + u2;
    var v0 := [SLASH] + SIZE + t1;
    OneElement(u2, t2);
    SizeElement(v0, t1);
    Chain3(s, [SPACE], v0, t1, SIZE_NAME, [SPACE], u2, t2, ONE, [SPACE], u3, [] + ([RBRACKET] + []), x);
  }

  /** `[]` as an element, followed by `]`. */
  lemma EmptyElement(u: seq<byte>)
    requires u == [LBRACKET] + ([] + ([RBRACKET] + ([] + ([RBRACKET] + []))))
    ensures ParseObject(u) == Success([] + ([RBRACKET] + []), Array(PdfArray([])))
  {
    Opened(u, [] + ([RBRACKET] + ([] + ([RBRACKET] + []))));
    ChainNil(u[1..]);
    ArrayOf(u, [], [], [] + ([RBRACKET] + []));
    ObjectIsArray(u, [] + ([RBRACKET] + []), PdfArray([]));
  }

  lemma Array5(u: seq<byte>, u3: seq<byte>)
    requires u3 == [LBRACKET] + ([] + ([RBRACKET] + ([] + ([RBRACKET] + []))))
    requires u == [LBRACKET] + ([SPACE] + ([SLASH] + SIZE + ([SPACE] + (ONE_LEX + ([SPACE] + u3)))))
    ensures ParseArray(u) == Success([], PdfArray([SIZE_NAME, ONE, Array(PdfArray([]))]))
  {
    Opened(u, [SPACE] + ([SLASH] + SIZE + ([SPACE] + (ONE_LEX + ([SPACE] + u3)))));
    EmptyElement(u3);
    SizeOneThen(u[1..], u3, Array(PdfArray([])));
    ArrayOf(u, [SIZE_NAME, ONE, Array(PdfArray([]))], [], []);
  }

  lemma Pieces5()
    ensures B("[ /size 1.0 []]") == [LBRACKET] + ([SPACE] + ([SLASH] + SIZE + ([SPACE] + (ONE_LEX + ([SPACE] + ([LBRACKET] + ([] + ([RBRACKET] + ([] + ([RBRACKET] + []))))))))))
  {
  }

  /** `[ /size 1.0 []]`: the third element is the empty array. */
  lemma ParseArray5()
    ensures ParseArray(B("[ /size 1.0 []]")) == Success([], PdfArray([SIZE_NAME, ONE, Array(PdfArray([]))]))
  {
    var u3 := [LBRACKET] + ([] + ([RBRACKET] + ([] + ([RBRACKET] + []))));
    Pieces5();
    Array5(B("[ /size 1.0 []]"), u3);
  }

  lemma TrueChain(s: seq<byte>)
    requires s == BooleanParser.Keyword(BooleanParser.Boolean(true)) + ([] + ([RBRACKET] + ([] + ([RBRACKET] + []))))
    ensures IsElementChain(s, [TRUE], [] + ([RBRACKET] + ([] + ([RBRACKET] + []))))
  {
    var r := [] + ([RBRACKET] + ([] + ([RBRACKET] + [])));
    BooleanElement(s, BooleanParser.Boolean(true), r);
    assert s == [] + s;
    Chain1(s, [], s, r, TRUE);
  }

  /** `[true]` as an element, followed by `]`. */
  lemma TrueArrayElement(u: seq<byte>)
    requires u == [LBRACKET] + (BooleanParser.Keyword(BooleanParser.Boolean(true)) + ([] + ([RBRACKET] + ([] + ([RBRACKET] + [])))))
    ensures ParseObject(u) == Success([] + ([RBRACKET] + []), Array(PdfArray([TRUE])))
  {
    Opened(u, BooleanParser.Keyword(BooleanParser.Boolean(true)) + ([] + ([RBRACKET] + ([] + ([RBRACKET] + [])))));
    TrueChain(u[1..]);
    ArrayOf(u, [TRUE], [], [] + ([RBRACKET] + []));
    ObjectIsArray(u, [] + ([RBRACKET] + []), PdfArray([TRUE]));
  }

  lemma Array6(u: seq<byte>, u3: seq<byte>)
    requires u3 == [LBRACKET] + (BooleanParser.Keyword(BooleanParser.Boolean(true)) + ([] + ([RBRACKET] + ([] + ([RBRACKET] + [])))))
    requires u == [LBRACKET] + ([SPACE] + ([SLASH] + SIZE + ([SPACE] + (ONE_LEX + ([SPACE] + u3)))))
    ensures ParseArray(u) == Success([], PdfArray([SIZE_NAME, ONE, Array(PdfArray([TRUE]))]))
  {
    Opened(u, [SPACE] + ([SLASH] + SIZE + ([SPACE] + (ONE_LEX + ([SPACE] + u3)))));
    TrueArrayElement(u3);
    SizeOneThen(u[1..], u3, Array(PdfArray([TRUE])));
    ArrayOf(u, [SIZE_NAME, ONE, Array(PdfArray([TRUE]))], [], []);
  }

  lemma Pieces6()
    ensures B("[ /size 1.0 [true]]") == [LBRACKET] + ([SPACE] + ([SLASH] + SIZE + ([SPACE] + (ONE_LEX + ([SPACE] + ([LBRACKET] + (BooleanParser.Keyword(BooleanParser.Boolean(true)) + ([] + ([RBRACKET] + ([] + ([RBRACKET] + [])))))))))))
  {
  }

  /** `[ /size 1.0 [true]]`: the third element is an array holding `true`. */
  lemma ParseArray6()
    ensures ParseArray(B("[ /size 1.0 [true]]")) == Success([], PdfArray([SIZE_NAME, ONE, Array(PdfArray([TRUE]))]))
  {
    var u3 := [LBRACKET] + (BooleanParser.Keyword(BooleanParser.Boolean(true)) + ([] + ([RBRACKET] + ([] + ([RBRACKET] + [])))));
    Pieces6();
    Array6(B("[ /size 1.0 [true]]"), u3);
  }

  // parse_array of src/objects/mod.rs

  const PI_LEX: seq<byte> := [51, DOT, 49, 52]
  const MINUS_FIVE: seq<byte> := [MINUS, 53]
  const RALPH: seq<byte> := [82, 97, 108, 112, 104]
  const SOME_NAME: seq<byte> := [83, 111, 109, 101, 78, 97, 109, 101]
  const PI: Object := Real(NumberParser.Real(false, PI_LEX))
  const FIVE_BELOW: Object := Integer(NumberParser.Integer(-5))
  const RALPH_STRING: Object := String(StringParser.PdfString(RALPH))
  const SOME: Object := Name(NameParser.Name(SOME_NAME))

  lemma PiElement(u: seq<byte>, t: seq<byte>)
    requires t == [] || !NumberParser.IsDigitOrDot(t[0])
    requires u == PI_LEX + t
    ensures ParseObject(u) == Success(t, PI)
  {
    assert PI_LEX == [51] + [DOT] + [49, 52];
    RealElement(u, [51], [49, 52], t);
  }

  lemma MinusFiveElement(u: seq<byte>, t: seq<byte>)
    requires t == [] || !NumberParser.IsDigitOrDot(t[0])
    requires u == MINUS_FIVE + t
    ensures ParseObject(u) == Success(t, FIVE_BELOW)
  {
    assert NumberFacts.FormatInteger(NumberParser.Integer(-5)) == MINUS_FIVE;
    IntegerElement(u, NumberParser.Integer(-5), t);
  }

  lemma RalphElement(u: seq<byte>, t: seq<byte>)
    requires u == [Brackets.LPAREN] + RALPH + [Brackets.RPAREN] + t
    ensures ParseObject(u) == Success(t, RALPH_STRING)
  {
    StringElement(u, RALPH, t);
  }

  lemma SomeNameElement(u: seq<byte>, t: seq<byte>)
    requires |t| > 0 && NameParser.IsDelimiter(t[0])
    requires u == [SLASH] + SOME_NAME + t
    ensures ParseObject(u) == Success(t, SOME)
  {
    NameElement(u, SOME_NAME, t);
  }

  /** The bytes after the `[` of the mixed array, and their suffixes after
      each element. */
  const END: seq<byte> := [SPACE] + ([RBRACKET] + [])
  const AFTER_RALPH: seq<byte> := [SPACE] + ([SLASH] + SOME_NAME + END)
  const AFTER_TRUE: seq<byte> := [SPACE] + ([Brackets.LPAREN] + RALPH + [Brackets.RPAREN] + AFTER_RALPH)
  const AFTER_FIVE: seq<byte> := [SPACE] + (BooleanParser.Keyword(BooleanParser.Boolean(true)) + AFTER_TRUE)
  const AFTER_PI: seq<byte> := [SPACE] + (MINUS_FIVE + AFTER_FIVE)
  const MIXED: seq<byte> := [SPACE] + (PI_LEX + AFTER_PI)

  // The mixed array's chain, built from its last element back.

  lemma MixedFromName()
    ensures IsElementChain(AFTER_RALPH, [SOME], END)
  {
    SomeNameElement([SLASH] + SOME_NAME + END, END);
    OneSpace();
    Chain1(AFTER_RALPH, [SPACE], [SLASH] + SOME_NAME + END, END, SOME);
  }

  lemma MixedFromString()
    ensures IsElementChain(AFTER_TRUE, [RALPH_STRING, SOME], END)
  {
    var u := [Brackets.LPAREN] + RALPH + [Brackets.RPAREN] + AFTER_RALPH;
    MixedFromName();
    RalphElement(u, AFTER_RALPH);
    OneSpace();
    assert [RALPH_STRING, SOME][1..] == [SOME];
    ChainCons(AFTER_TRUE, [SPACE], u, AFTER_RALPH, [RALPH_STRING, SOME], END);
  }

  lemma MixedFromBoolean()
    ensures IsElementChain(AFTER_FIVE, [TRUE, RALPH_STRING, SOME], END)
  {
    var u := BooleanParser.Keyword(BooleanParser.Boolean(true)) + AFTER_TRUE;
    MixedFromString();
    BooleanElement(u, BooleanParser.Boolean(true), AFTER_TRUE);
    OneSpace();
    assert [TRUE, RALPH_STRING, SOME][1..] == [RALPH_STRING, SOME];
    ChainCons(AFTER_FIVE, [SPACE], u, AFTER_TRUE, [TRUE, RALPH_STRING, SOME], END);
  }

  lemma MixedFromInteger()
    ensures IsElementChain(AFTER_PI, [FIVE_BELOW, TRUE, RALPH_STRING, SOME], END)
  {
    MixedFromBoolean();
    MinusFiveElement(MINUS_FIVE + AFTER_FIVE, AFTER_FIVE);
    OneSpace();
    assert [FIVE_BELOW, TRUE, RALPH_STRING, SOME][1..] == [TRUE, RALPH_STRING, SOME];
    ChainCons(AFTER_PI, [SPACE], MINUS_FIVE + AFTER_FIVE, AFTER_FIVE, [FIVE_BELOW, TRUE, RALPH_STRING, SOME], END);
  }

  lemma MixedChain()
    ensures IsElementChain(MIXED, [PI, FIVE_BELOW, TRUE, RALPH_STRING, SOME], END)
  {
    MixedFromInteger();
    PiElement(PI_LEX + AFTER_PI, AFTER_PI);
    OneSpace();
    assert [PI, FIVE_BELOW, TRUE, RALPH_STRING, SOME][1..] == [FIVE_BELOW, TRUE, RALPH_STRING, SOME];
    ChainCons(MIXED, [SPACE], PI_LEX + AFTER_PI, AFTER_PI, [PI, FIVE_BELOW, TRUE, RALPH_STRING, SOME], END);
  }

  lemma MixedArray(u: seq<byte>)
    requires u == [LBRACKET] + MIXED
    ensures ParseObject(u) == Success([], Array(PdfArray([PI, FIVE_BELOW, TRUE, RALPH_STRING, SOME])))
  {
    Opened(u, MIXED);
    MixedChain();
    OneSpace();
    ArrayOf(u, [PI, FIVE_BELOW, TRUE, RALPH_STRING, SOME], [SPACE], []);
    ObjectIsArray(u, [], PdfArray([PI, FIVE_BELOW, TRUE, RALPH_STRING, SOME]));
  }

  lemma MixedSplit()
    ensures "[ 3.14 -5 true (Ralph) /SomeName ]" == "[ 3.14 -5 true" + " (Ralph) /SomeName ]"
  {
  }

  lemma MixedHead()
    ensures B("[ 3.14 -5 true") == [LBRACKET] + ([SPACE] + (PI_LEX + ([SPACE] + (MINUS_FIVE + ([SPACE] + BooleanParser.Keyword(BooleanParser.Boolean(true)))))))
  {
  }

  lemma MixedTail()
    ensures B(" (Ralph) /SomeName ]") == AFTER_TRUE
  {
  }

  lemma PiecesMixed()
    ensures B("[ 3.14 -5 true (Ralph) /SomeName ]") == [LBRACKET] + MIXED
  {
    MixedSplit();
    BConcat("[ 3.14 -5 true", " (Ralph) /SomeName ]");
    MixedHead();
    MixedTail();
    MixedRegroup(BooleanParser.Keyword(BooleanParser.Boolean(true)), AFTER_TRUE);
  }

  lemma MixedRegroup(k: seq<byte>, x: seq<byte>)
    ensures ([LBRACKET] + ([SPACE] + (PI_LEX + ([SPACE] + (MINUS_FIVE + ([SPACE] + k)))))) + x ==
      [LBRACKET] + ([SPACE] + (PI_LEX + ([SPACE] + (MINUS_FIVE + ([SPACE] + (k + x))))))
  {
  }

  /** `Object::parse` reads `[ 3.14 -5 true (Ralph) /SomeName ]` as an
      Array of five elements: a Real, an Integer, a Boolean, a String and a
      Name. */
  lemma ObjectMixedArray()
    ensures ParseObject(B("[ 3.14 -5 true (Ralph) /SomeName ]")) ==
      Success([], Array(PdfArray([PI, FIVE_BELOW, TRUE, RALPH_STRING, SOME])))
    ensures GetArray(ParseObject(B("[ 3.14 -5 true (Ralph) /SomeName ]")).value).Some?
    ensures |GetArray(ParseObject(B("[ 3.14 -5 true (Ralph) /SomeName ]")).value).value.elements| == 5
  {
    var u := B("[ 3.14 -5 true (Ralph) /SomeName ]");
    PiecesMixed();
    MixedArray(u);
    assert GetArray(ParseObject(u).value) == Some(PdfArray([PI, FIVE_BELOW, TRUE, RALPH_STRING, SOME]));
  }
}
