/** The unit tests of src/objects/dictionary.rs, and the dictionary test of
    src/objects/mod.rs, as instances of the pair-chain lemmas. */
module DictionaryExamples {
  import opened Parsing
  import opened ObjectParser
  import opened ObjectFacts
  import opened ObjectDispatch
  import opened ArrayFacts
  import opened DictionaryFacts
  import opened ArrayExamples
  import NameParser
  import NumberParser
  import StringParser
  import ScalarFacts
  import NullParser
  import StreamFacts
  import Brackets

  /** The bytes of the keys and values the tests use. */
  const VERSION: seq<byte> := [86, 101, 114, 115, 105, 111, 110]
  const TYPE: seq<byte> := [84, 121, 112, 101]
  const DIC: seq<byte> := [68, 105, 99]
  const SUB: seq<byte> := [83, 117, 98]
  const VAR: seq<byte> := [118, 97, 114]
  const POINT_ONE_LEX: seq<byte> := [48, DOT, 49]
  const NULL_LEX: seq<byte> := [110, 117, 108, 108]

  const VERSION_KEY: NameParser.Name := NameParser.Name(VERSION)
  const TYPE_KEY: NameParser.Name := NameParser.Name(TYPE)
  const SUB_KEY: NameParser.Name := NameParser.Name(SUB)
  const POINT_ONE: Object := Real(NumberParser.Real(false, POINT_ONE_LEX))
  const DIC_NAME: Object := Name(NameParser.Name(DIC))
  const SUB_NAME: Object := Name(NameParser.Name(SUB))

  /** `>>` and nothing after it: where every test's pairs end. */
  const CLOSED: seq<byte> := [] + (CLOSE_DICT + [])

  lemma OpenedDict(u: seq<byte>, s: seq<byte>)
    requires u == OPEN_DICT + s
    ensures StartsWith(u, OPEN_DICT) && u[2..] == s
  {
    assert u[..2] == OPEN_DICT;
  }

  lemma Keys()
    ensures NameParser.IsBody(VERSION) && NameParser.IsBody(TYPE) && NameParser.IsBody(DIC)
    ensures NameParser.IsBody(SUB) && NameParser.IsBody(VAR)
  {
  }

  /** One pair in front of a chain: whitespace, `/key`, a space, a value. */
  lemma PairCons(s: seq<byte>, ws: seq<byte>, key: seq<byte>, u: seq<byte>, t: seq<byte>, v: Object,
                 es: seq<Entry>, r: seq<byte>)
    requires AllMultispace(ws) && NameParser.IsBody(key)
    requires s == ws + ([SLASH] + key + ([SPACE] + u))
    requires ParseObject(u) == Success(t, v)
    requires IsEntryChain(t, es, r)
    ensures IsEntryChain(s, [(NameParser.Name(key), v)] + es, r)
  {
    var u1 := [SLASH] + key + ([SPACE] + u);
    ScalarFacts.NameText(u1, key, [SPACE] + u);
    OneSpace();
    var all := [(NameParser.Name(key), v)] + es;
    assert all[0] == (NameParser.Name(key), v) && all[1..] == es;
    EntryCons(s, ws, u1, [SPACE] + u, [SPACE], u, t, all, r);
  }

  lemma PointOneValue(u: seq<byte>, t: seq<byte>)
    requires t == [] || !NumberParser.IsDigitOrDot(t[0])
    requires u == POINT_ONE_LEX + t
    ensures ParseObject(u) == Success(t, POINT_ONE)
  {
    assert POINT_ONE_LEX == [48] + [DOT] + [49];
    RealElement(u, [48], [49], t);
  }

  lemma NameValue(u: seq<byte>, body: seq<byte>, t: seq<byte>)
    requires NameParser.IsBody(body) && |t| > 0 && NameParser.IsDelimiter(t[0])
    requires u == [SLASH] + body + t
    ensures ParseObject(u) == Success(t, Name(NameParser.Name(body)))
  {
    NameElement(u, body, t);
  }

  lemma NullValue(u: seq<byte>, t: seq<byte>)
    requires u == NULL_LEX + t
    ensures ParseObject(u) == Success(t, Null)
  {
    assert NULL_LEX == B("null");
    ScalarFacts.NullText(u, t);
    ObjectIsNull(u, t);
  }

  // dictionary.rs, parse_dictionary_1: `<<>>` is empty.

  lemma Dictionary1(u: seq<byte>)
    requires u == OPEN_DICT + CLOSED
    ensures ParseDictionary(u) == Success([], PdfDictionary(map[]))
  {
    OpenedDict(u, CLOSED);
    EntryChainNil(CLOSED);
    DictionaryOf(u, [], [], []);
  }

  lemma Pieces1()
    ensures B("<<>>") == OPEN_DICT + CLOSED
  {
  }

  lemma ParseDictionary1(u: seq<byte>)
    requires u == B("<<>>")
    ensures ParseDictionary(u) == Success([], PdfDictionary(map[]))
    ensures IsEmpty(ParseDictionary(u).value)
  {
    Pieces1();
    Dictionary1(u);
  }

  // dictionary.rs, parse_dictionary_2 and _3: `/Version 0.1`, with and
  // without the optional whitespace.

  /** `/Version 0.1` in front of the chain `es` that `t` holds. */
  lemma VersionPair(s: seq<byte>, ws: seq<byte>, t: seq<byte>, es: seq<Entry>, r: seq<byte>)
    requires AllMultispace(ws) && (t == [] || !NumberParser.IsDigitOrDot(t[0]))
    requires s == ws + ([SLASH] + VERSION + ([SPACE] + (POINT_ONE_LEX + t)))
    requires IsEntryChain(t, es, r)
    ensures IsEntryChain(s, [(VERSION_KEY, POINT_ONE)] + es, r)
  {
    Keys();
    PointOneValue(POINT_ONE_LEX + t, t);
    PairCons(s, ws, VERSION, POINT_ONE_LEX + t, t, POINT_ONE, es, r);
  }

  lemma VersionOnly(ws: seq<byte>, end: seq<byte>)
    requires AllMultispace(ws) && |end| > 0 && !NumberParser.IsDigitOrDot(end[0])
    ensures IsEntryChain(ws + ([SLASH] + VERSION + ([SPACE] + (POINT_ONE_LEX + end))), [(VERSION_KEY, POINT_ONE)], end)
  {
    EntryChainNil(end);
    VersionPair(ws + ([SLASH] + VERSION + ([SPACE] + (POINT_ONE_LEX + end))), ws, end, [], end);
    assert [(VERSION_KEY, POINT_ONE)] + [] == [(VERSION_KEY, POINT_ONE)];
  }

  /** A dictionary of one non-null pair maps its key to its value. */
  lemma OnlyPair(e: Entry)
    requires !e.1.Null?
    ensures Get(PdfDictionary(Collect(WithoutNulls([e]))), e.0) == Some(e.1)
  {
    CollectLastNonNull([e], 0);
  }

  lemma Dictionary2(u: seq<byte>)
    requires u == OPEN_DICT + ([] + ([SLASH] + VERSION + ([SPACE] + (POINT_ONE_LEX + CLOSED))))
    ensures ParseDictionary(u) == Success([], PdfDictionary(Collect(WithoutNulls([(VERSION_KEY, POINT_ONE)]))))
  {
    var s := [] + ([SLASH] + VERSION + ([SPACE] + (POINT_ONE_LEX + CLOSED)));
    OpenedDict(u, s);
    VersionOnly([], CLOSED);
    DictionaryOf(u, [(VERSION_KEY, POINT_ONE)], [], []);
  }

  lemma Pieces2()
    ensures B("<</Version 0.1>>") == OPEN_DICT + ([] + ([SLASH] + VERSION + ([SPACE] + (POINT_ONE_LEX + CLOSED))))
  {
  }

  /** `<</Version 0.1>>`: `get` finds the Real `0.1` under `Version`. */
  lemma ParseDictionary2(u: seq<byte>)
    requires u == B("<</Version 0.1>>")
    ensures var r := ParseDictionary(u);
      r.Success? && r.rest == [] && Get(r.value, VERSION_KEY) == Some(POINT_ONE)
  {
    Pieces2();
    Dictionary2(u);
    OnlyPair((VERSION_KEY, POINT_ONE));
  }

  /** The value under `Version` is the Real `0.1`. */
  lemma PointOneReal()
    ensures GetReal(POINT_ONE) == Some(NumberParser.Real(false, B("0.1")))
  {
    assert B("0.1") == POINT_ONE_LEX;
  }

  lemma Dictionary3(u: seq<byte>)
    requires u == OPEN_DICT + ([SPACE] + ([SLASH] + VERSION + ([SPACE] + (POINT_ONE_LEX + ([SPACE] + (CLOSE_DICT + []))))))
    ensures ParseDictionary(u) == Success([], PdfDictionary(Collect(WithoutNulls([(VERSION_KEY, POINT_ONE)]))))
  {
    var s := [SPACE] + ([SLASH] + VERSION + ([SPACE] + (POINT_ONE_LEX + ([SPACE] + (CLOSE_DICT + [])))));
    OpenedDict(u, s);
    OneSpace();
    VersionOnly([SPACE], [SPACE] + (CLOSE_DICT + []));
    DictionaryOf(u, [(VERSION_KEY, POINT_ONE)], [SPACE], []);
  }

  lemma Pieces3()
    ensures B("<< /Version 0.1 >>") ==
      OPEN_DICT + ([SPACE] + ([SLASH] + VERSION + ([SPACE] + (POINT_ONE_LEX + ([SPACE] + (CLOSE_DICT + []))))))
  {
  }

  /** `<< /Version 0.1 >>`: whitespace before a key and before `>>` is skipped. */
  lemma ParseDictionary3(u: seq<byte>)
    requires u == B("<< /Version 0.1 >>")
    ensures var r := ParseDictionary(u);
      r.Success? && r.rest == [] && Get(r.value, VERSION_KEY) == Some(POINT_ONE)
  {
    Pieces3();
    Dictionary3(u);
    OnlyPair((VERSION_KEY, POINT_ONE));
  }

  /** `/key /body` in front of the chain `es` that `t` holds. */
  lemma NamePair(s: seq<byte>, ws: seq<byte>, key: seq<byte>, body: seq<byte>, t: seq<byte>,
                 es: seq<Entry>, r: seq<byte>)
    requires AllMultispace(ws) && NameParser.IsBody(key) && NameParser.IsBody(body)
    requires |t| > 0 && NameParser.IsDelimiter(t[0])
    requires s == ws + ([SLASH] + key + ([SPACE] + ([SLASH] + body + t)))
    requires IsEntryChain(t, es, r)
    ensures IsEntryChain(s, [(NameParser.Name(key), Name(NameParser.Name(body)))] + es, r)
  {
    NameValue([SLASH] + body + t, body, t);
    PairCons(s, ws, key, [SLASH] + body + t, t, Name(NameParser.Name(body)), es, r);
  }

  /** `<</Type /Dic`: the opening the last three tests share. */
  lemma TypeDicHead()
    ensures B("<</Type /Dic") == OPEN_DICT + ([] + ([SLASH] + TYPE + ([SPACE] + ([SLASH] + DIC))))
  {
  }

  lemma TypeDicRegroup(x: seq<byte>)
    ensures (OPEN_DICT + ([] + ([SLASH] + TYPE + ([SPACE] + ([SLASH] + DIC))))) + x ==
      OPEN_DICT + ([] + ([SLASH] + TYPE + ([SPACE] + ([SLASH] + DIC + x))))
  {
  }

  /** `<</Type /Dic` followed by `tail`. */
  lemma TypeDicThen(lit: string, tail: string, t: seq<byte>)
    requires IsAscii(tail) && lit == "<</Type /Dic" + tail && B(tail) == t
    ensures IsAscii(lit) && B(lit) == OPEN_DICT + ([] + ([SLASH] + TYPE + ([SPACE] + ([SLASH] + DIC + t))))
  {
    BConcat("<</Type /Dic", tail);
    TypeDicHead();
    TypeDicRegroup(t);
  }

  /** Type and Version are different keys. */
  lemma KeysDiffer()
    ensures TYPE_KEY != VERSION_KEY && TYPE_KEY != SUB_KEY && VERSION_KEY != SUB_KEY
  {
    assert |TYPE| != |VERSION| && TYPE != SUB && |VERSION| != |SUB|;
  }

  lemma Two(a: Entry, b: Entry)
    ensures [a] + [b] == [a, b]
  {
  }

  // dictionary.rs, parse_dictionary_4: `<</Type /Dic /Version 0.1>>`.

  const AFTER_DIC_4: seq<byte> := [SPACE] + ([SLASH] + VERSION + ([SPACE] + (POINT_ONE_LEX + CLOSED)))
  const PAIRS_4: seq<Entry> := [(TYPE_KEY, DIC_NAME), (VERSION_KEY, POINT_ONE)]

  lemma Chain4()
    ensures IsEntryChain([] + ([SLASH] + TYPE + ([SPACE] + ([SLASH] + DIC + AFTER_DIC_4))), PAIRS_4, CLOSED)
  {
    OneSpace();
    VersionOnly([SPACE], CLOSED);
    Keys();
    NamePair([] + ([SLASH] + TYPE + ([SPACE] + ([SLASH] + DIC + AFTER_DIC_4))), [], TYPE, DIC, AFTER_DIC_4,
      [(VERSION_KEY, POINT_ONE)], CLOSED);
  }

  lemma Dictionary4(u: seq<byte>)
    requires u == OPEN_DICT + ([] + ([SLASH] + TYPE + ([SPACE] + ([SLASH] + DIC + AFTER_DIC_4))))
    ensures ParseDictionary(u) == Success([], PdfDictionary(Collect(WithoutNulls(PAIRS_4))))
  {
    OpenedDict(u, [] + ([SLASH] + TYPE + ([SPACE] + ([SLASH] + DIC + AFTER_DIC_4))));
    Chain4();
    DictionaryOf(u, PAIRS_4, [], []);
  }

  lemma Tail4()
    ensures B(" /Version 0.1>>") == AFTER_DIC_4
  {
  }

  lemma Split4()
    ensures "<</Type /Dic /Version 0.1>>" == "<</Type /Dic" + " /Version 0.1>>"
  {
  }

  lemma Pieces4()
    ensures B("<</Type /Dic /Version 0.1>>") == OPEN_DICT + ([] + ([SLASH] + TYPE + ([SPACE] + ([SLASH] + DIC + AFTER_DIC_4))))
  {
    Split4();
    Tail4();
    TypeDicThen("<</Type /Dic /Version 0.1>>", " /Version 0.1>>", AFTER_DIC_4);
  }

  lemma Result4(u: seq<byte>)
    requires u == OPEN_DICT + ([] + ([SLASH] + TYPE + ([SPACE] + ([SLASH] + DIC + AFTER_DIC_4))))
    ensures var r := ParseDictionary(u);
      r.Success? && r.rest == [] &&
      Get(r.value, TYPE_KEY) == Some(DIC_NAME) && Get(r.value, VERSION_KEY) == Some(POINT_ONE)
  {
    Dictionary4(u);
    Gets4();
  }

  lemma Gets4()
    ensures Get(PdfDictionary(Collect(WithoutNulls(PAIRS_4))), TYPE_KEY) == Some(DIC_NAME)
    ensures Get(PdfDictionary(Collect(WithoutNulls(PAIRS_4))), VERSION_KEY) == Some(POINT_ONE)
  {
    KeysDiffer();
    CollectLastNonNull(PAIRS_4, 0);
    CollectLastNonNull(PAIRS_4, 1);
  }

  /** `<</Type /Dic /Version 0.1>>`: `get` finds the Name `Dic` under `Type`
      and the Real `0.1` under `Version`. */
  lemma ParseDictionary4(u: seq<byte>)
    requires u == B("<</Type /Dic /Version 0.1>>")
    ensures var r := ParseDictionary(u);
      r.Success? && r.rest == [] &&
      Get(r.value, TYPE_KEY) == Some(DIC_NAME) && Get(r.value, VERSION_KEY) == Some(POINT_ONE)
  {
    Pieces4();
    Result4(u);
  }

  // dictionary.rs, parse_dictionary_6: `<</var null>>` is empty.

  const PAIRS_6: seq<Entry> := [(NameParser.Name(VAR), Null)]

  lemma Dictionary6(u: seq<byte>)
    requires u == OPEN_DICT + ([] + ([SLASH] + VAR + ([SPACE] + (NULL_LEX + CLOSED))))
    ensures ParseDictionary(u) == Success([], PdfDictionary(Collect(WithoutNulls(PAIRS_6))))
  {
    var s := [] + ([SLASH] + VAR + ([SPACE] + (NULL_LEX + CLOSED)));
    OpenedDict(u, s);
    Keys();
    EntryChainNil(CLOSED);
    NullValue(NULL_LEX + CLOSED, CLOSED);
    PairCons(s, [], VAR, NULL_LEX + CLOSED, CLOSED, Null, [], CLOSED);
    assert [(NameParser.Name(VAR), Null)] + [] == PAIRS_6;
    DictionaryOf(u, PAIRS_6, [], []);
  }

  lemma Pieces6()
    ensures B("<</var null>>") == OPEN_DICT + ([] + ([SLASH] + VAR + ([SPACE] + (NULL_LEX + CLOSED))))
  {
  }

  lemma NullDropped()
    ensures Collect(WithoutNulls(PAIRS_6)) == map[]
  {
    assert WithoutNulls(PAIRS_6) == [];
  }

  /** `<</var null>>`: the only pair is null, so the dictionary is empty. */
  lemma ParseDictionary6(u: seq<byte>)
    requires u == B("<</var null>>")
    ensures var r := ParseDictionary(u);
      r.Success? && r.rest == [] && IsEmpty(r.value)
  {
    Pieces6();
    Dictionary6(u);
    NullDropped();
  }

  // dictionary.rs, parse_dictionary_7: `<</Type /Dic /Version 0.1 /Sub null>>`.

  const SUB_NULL: seq<byte> := [SPACE] + ([SLASH] + SUB + ([SPACE] + (NULL_LEX + CLOSED)))
  const AFTER_DIC_7: seq<byte> := [SPACE] + ([SLASH] + VERSION + ([SPACE] + (POINT_ONE_LEX + SUB_NULL)))
  const PAIRS_7: seq<Entry> := [(TYPE_KEY, DIC_NAME), (VERSION_KEY, POINT_ONE), (SUB_KEY, Null)]

  lemma SubNullChain()
    ensures IsEntryChain(SUB_NULL, [(SUB_KEY, Null)], CLOSED)
  {
    OneSpace();
    Keys();
    EntryChainNil(CLOSED);
    NullValue(NULL_LEX + CLOSED, CLOSED);
    PairCons(SUB_NULL, [SPACE], SUB, NULL_LEX + CLOSED, CLOSED, Null, [], CLOSED);
    assert [(SUB_KEY, Null)] + [] == [(SUB_KEY, Null)];
  }

  lemma VersionSubChain()
    ensures IsEntryChain(AFTER_DIC_7, [(VERSION_KEY, POINT_ONE), (SUB_KEY, Null)], CLOSED)
  {
    OneSpace();
    SubNullChain();
    VersionPair(AFTER_DIC_7, [SPACE], SUB_NULL, [(SUB_KEY, Null)], CLOSED);
    Two((VERSION_KEY, POINT_ONE), (SUB_KEY, Null));
  }

  lemma Chain7()
    ensures IsEntryChain([] + ([SLASH] + TYPE + ([SPACE] + ([SLASH] + DIC + AFTER_DIC_7))), PAIRS_7, CLOSED)
  {
    VersionSubChain();
    Keys();
    NamePair([] + ([SLASH] + TYPE + ([SPACE] + ([SLASH] + DIC + AFTER_DIC_7))), [], TYPE, DIC, AFTER_DIC_7,
      [(VERSION_KEY, POINT_ONE), (SUB_KEY, Null)], CLOSED);
  }

  lemma Dictionary7(u: seq<byte>)
    requires u == OPEN_DICT + ([] + ([SLASH] + TYPE + ([SPACE] + ([SLASH] + DIC + AFTER_DIC_7))))
    ensures ParseDictionary(u) == Success([], PdfDictionary(Collect(WithoutNulls(PAIRS_7))))
  {
    OpenedDict(u, [] + ([SLASH] + TYPE + ([SPACE] + ([SLASH] + DIC + AFTER_DIC_7))));
    Chain7();
    DictionaryOf(u, PAIRS_7, [], []);
  }

  lemma Tail7()
    ensures B(" /Version 0.1 /Sub null>>") == AFTER_DIC_7
  {
  }

  lemma Split7()
    ensures "<</Type /Dic /Version 0.1 /Sub null>>" == "<</Type /Dic" + " /Version 0.1 /Sub null>>"
  {
  }

  lemma Pieces7()
    ensures B("<</Type /Dic /Version 0.1 /Sub null>>") == OPEN_DICT + ([] + ([SLASH] + TYPE + ([SPACE] + ([SLASH] + DIC + AFTER_DIC_7))))
  {
    Split7();
    Tail7();
    TypeDicThen("<</Type /Dic /Version 0.1 /Sub null>>", " /Version 0.1 /Sub null>>", AFTER_DIC_7);
  }

  lemma Result7(u: seq<byte>)
    requires u == OPEN_DICT + ([] + ([SLASH] + TYPE + ([SPACE] + ([SLASH] + DIC + AFTER_DIC_7))))
    ensures var r := ParseDictionary(u);
      r.Success? && r.rest == [] && Get(r.value, TYPE_KEY) == Some(DIC_NAME) &&
      Get(r.value, VERSION_KEY) == Some(POINT_ONE) && Get(r.value, SUB_KEY) == None
  {
    Dictionary7(u);
    Gets7();
  }

  lemma Gets7()
    ensures Get(PdfDictionary(Collect(WithoutNulls(PAIRS_7))), TYPE_KEY) == Some(DIC_NAME)
    ensures Get(PdfDictionary(Collect(WithoutNulls(PAIRS_7))), VERSION_KEY) == Some(POINT_ONE)
    ensures Get(PdfDictionary(Collect(WithoutNulls(PAIRS_7))), SUB_KEY) == None
  {
    KeysDiffer();
    CollectLastNonNull(PAIRS_7, 0);
    CollectLastNonNull(PAIRS_7, 1);
    SubDropped();
  }

  /** The only `Sub` pair is null, so `Sub` is not collected. */
  lemma SubDropped()
    ensures SUB_KEY !in Collect(WithoutNulls(PAIRS_7))
  {
    KeysDiffer();
    CollectKeys(PAIRS_7, SUB_KEY);
  }

  /** `<</Type /Dic /Version 0.1 /Sub null>>`: `Sub` is absent while the
      other keys remain. */
  lemma ParseDictionary7(u: seq<byte>)
    requires u == B("<</Type /Dic /Version 0.1 /Sub null>>")
    ensures var r := ParseDictionary(u);
      r.Success? && r.rest == [] && Get(r.value, TYPE_KEY) == Some(DIC_NAME) &&
      Get(r.value, VERSION_KEY) == Some(POINT_ONE) && Get(r.value, SUB_KEY) == None
  {
    Pieces7();
    Result7(u);
  }

  // dictionary.rs, parse_dictionary_5: a nested dictionary as a value,
  // whose `>>` is followed straight by the outer `>>`.

  const INNER_PAIRS: seq<Entry> := [(TYPE_KEY, SUB_NAME)]
  const INNER: PdfDictionary := PdfDictionary(Collect(WithoutNulls(INNER_PAIRS)))
  const INNER_PAIRS_TEXT: seq<byte> :=
    [SPACE] + ([SLASH] + TYPE + ([SPACE] + ([SLASH] + SUB + ([SPACE] + (CLOSE_DICT + CLOSED)))))
  const INNER_TEXT: seq<byte> := OPEN_DICT + INNER_PAIRS_TEXT
  const SUB_DICT: seq<byte> := [] + ([SLASH] + SUB + ([SPACE] + INNER_TEXT))
  const AFTER_DIC_5: seq<byte> := [SPACE] + ([SLASH] + VERSION + ([SPACE] + (POINT_ONE_LEX + SUB_DICT)))
  const PAIRS_5: seq<Entry> := [(TYPE_KEY, DIC_NAME), (VERSION_KEY, POINT_ONE), (SUB_KEY, Dictionary(INNER))]

  /** `<< /Type /Sub >>` parses as a dictionary and leaves the outer `>>`. */
  lemma InnerDictionary()
    ensures ParseDictionary(INNER_TEXT) == Success(CLOSED, INNER)
  {
    var t := [SPACE] + (CLOSE_DICT + CLOSED);
    OpenedDict(INNER_TEXT, INNER_PAIRS_TEXT);
    OneSpace();
    Keys();
    EntryChainNil(t);
    NamePair(INNER_PAIRS_TEXT, [SPACE], TYPE, SUB, t, [], t);
    assert [(TYPE_KEY, SUB_NAME)] + [] == INNER_PAIRS;
    DictionaryOf(INNER_TEXT, INNER_PAIRS, [SPACE], CLOSED);
  }

  /** Since `>` and not `stream` follows, `Object::parse` makes it a Dictionary. */
  lemma InnerObject()
    ensures ParseObject(INNER_TEXT) == Success(CLOSED, Dictionary(INNER))
  {
    InnerDictionary();
    StreamFacts.DictionaryThenCloser(INNER_TEXT, CLOSED, INNER);
  }

  lemma SubDictChain()
    ensures IsEntryChain(SUB_DICT, [(SUB_KEY, Dictionary(INNER))], CLOSED)
  {
    InnerObject();
    Keys();
    EntryChainNil(CLOSED);
    PairCons(SUB_DICT, [], SUB, INNER_TEXT, CLOSED, Dictionary(INNER), [], CLOSED);
    assert [(SUB_KEY, Dictionary(INNER))] + [] == [(SUB_KEY, Dictionary(INNER))];
  }

  /** `/Version 0.1` with no whitespace before the one pair that follows. */
  lemma VersionBefore(s: seq<byte>, t: seq<byte>, e: Entry, r: seq<byte>)
    requires s == [SPACE] + ([SLASH] + VERSION + ([SPACE] + (POINT_ONE_LEX + t)))
    requires |t| > 0 && t[0] == SLASH
    requires IsEntryChain(t, [e], r)
    ensures IsEntryChain(s, [(VERSION_KEY, POINT_ONE), e], r)
  {
    OneSpace();
    VersionPair(s, [SPACE], t, [e], r);
    Two((VERSION_KEY, POINT_ONE), e);
  }

  lemma VersionSubDictChain()
    ensures IsEntryChain(AFTER_DIC_5, [(VERSION_KEY, POINT_ONE), (SUB_KEY, Dictionary(INNER))], CLOSED)
  {
    SubDictChain();
    VersionBefore(AFTER_DIC_5, SUB_DICT, (SUB_KEY, Dictionary(INNER)), CLOSED);
  }

  lemma Chain5()
    ensures IsEntryChain([] + ([SLASH] + TYPE + ([SPACE] + ([SLASH] + DIC + AFTER_DIC_5))), PAIRS_5, CLOSED)
  {
    VersionSubDictChain();
    Keys();
    NamePair([] + ([SLASH] + TYPE + ([SPACE] + ([SLASH] + DIC + AFTER_DIC_5))), [], TYPE, DIC, AFTER_DIC_5,
      [(VERSION_KEY, POINT_ONE), (SUB_KEY, Dictionary(INNER))], CLOSED);
  }

  lemma Dictionary5(u: seq<byte>)
    requires u == OPEN_DICT + ([] + ([SLASH] + TYPE + ([SPACE] + ([SLASH] + DIC + AFTER_DIC_5))))
    ensures ParseDictionary(u) == Success([], PdfDictionary(Collect(WithoutNulls(PAIRS_5))))
  {
    OpenedDict(u, [] + ([SLASH] + TYPE + ([SPACE] + ([SLASH] + DIC + AFTER_DIC_5))));
    Chain5();
    DictionaryOf(u, PAIRS_5, [], []);
  }

  lemma SplitTail5()
    ensures " /Version 0.1/Sub << /Type /Sub >>>>" == " /Version 0.1" + "/Sub << /Type /Sub >>>>"
  {
  }

  lemma VersionText()
    ensures B(" /Version 0.1") == [SPACE] + ([SLASH] + VERSION + ([SPACE] + POINT_ONE_LEX))
  {
  }

  lemma SubDictText()
    ensures B("/Sub << /Type /Sub >>>>") == SUB_DICT
  {
  }

  lemma VersionRegroup(x: seq<byte>)
    ensures ([SPACE] + ([SLASH] + VERSION + ([SPACE] + POINT_ONE_LEX))) + x ==
      [SPACE] + ([SLASH] + VERSION + ([SPACE] + (POINT_ONE_LEX + x)))
  {
  }

  lemma Tail5()
    ensures B(" /Version 0.1/Sub << /Type /Sub >>>>") == AFTER_DIC_5
  {
    SplitTail5();
    BConcat(" /Version 0.1", "/Sub << /Type /Sub >>>>");
    VersionText();
    SubDictText();
    VersionRegroup(SUB_DICT);
  }

  lemma Pieces5()
    ensures B("<</Type /Dic") + B(" /Version 0.1/Sub << /Type /Sub >>>>") ==
      OPEN_DICT + ([] + ([SLASH] + TYPE + ([SPACE] + ([SLASH] + DIC + AFTER_DIC_5))))
  {
    TypeDicHead();
    Tail5();
    TypeDicRegroup(AFTER_DIC_5);
  }

  lemma GetType5()
    ensures Get(PdfDictionary(Collect(WithoutNulls(PAIRS_5))), TYPE_KEY) == Some(DIC_NAME)
  {
    KeysDiffer();
    CollectLastNonNull(PAIRS_5, 0);
  }

  lemma GetVersion5()
    ensures Get(PdfDictionary(Collect(WithoutNulls(PAIRS_5))), VERSION_KEY) == Some(POINT_ONE)
  {
    KeysDiffer();
    CollectLastNonNull(PAIRS_5, 1);
  }

  lemma GetSub5()
    ensures Get(PdfDictionary(Collect(WithoutNulls(PAIRS_5))), SUB_KEY) == Some(Dictionary(INNER))
  {
    CollectLastNonNull(PAIRS_5, 2);
  }

  lemma InnerGet()
    ensures Get(INNER, TYPE_KEY) == Some(SUB_NAME)
  {
    OnlyPair((TYPE_KEY, SUB_NAME));
  }

  lemma Result5(u: seq<byte>)
    requires u == OPEN_DICT + ([] + ([SLASH] + TYPE + ([SPACE] + ([SLASH] + DIC + AFTER_DIC_5))))
    ensures var r := ParseDictionary(u);
      r.Success? && r.rest == [] && Get(r.value, TYPE_KEY) == Some(DIC_NAME) &&
      Get(r.value, VERSION_KEY) == Some(POINT_ONE) && Get(r.value, SUB_KEY) == Some(Dictionary(INNER))
  {
    Dictionary5(u);
    GetType5();
    GetVersion5();
    GetSub5();
  }

  /** `<</Type /Dic /Version 0.1/Sub << /Type /Sub >>>>`: `Sub` holds the
      inner dictionary, whose `Type` is the Name `Sub`; `>>>>` closes both.
      The text is given in two pieces only to keep the literal short. */
  lemma ParseDictionary5(u: seq<byte>)
    requires u == B("<</Type /Dic") + B(" /Version 0.1/Sub << /Type /Sub >>>>")
    ensures var r := ParseDictionary(u);
      r.Success? && r.rest == [] && Get(r.value, TYPE_KEY) == Some(DIC_NAME) &&
      Get(r.value, VERSION_KEY) == Some(POINT_ONE) && Get(r.value, SUB_KEY) == Some(Dictionary(INNER)) &&
      Get(INNER, TYPE_KEY) == Some(SUB_NAME)
  {
    Pieces5();
    Result5(u);
    InnerGet();
  }

  // mod.rs, parse_dictionary: `<</Name (Prinz)>>`.

  const NAME: seq<byte> := [78, 97, 109, 101]
  const PRINZ: seq<byte> := [80, 114, 105, 110, 122]
  const PRINZ_STRING: Object := String(StringParser.PdfString(PRINZ))
  const PAIRS_PRINZ: seq<Entry> := [(NameParser.Name(NAME), PRINZ_STRING)]

  lemma PrinzValue(u: seq<byte>, t: seq<byte>)
    requires u == [Brackets.LPAREN] + PRINZ + [Brackets.RPAREN] + t
    ensures ParseObject(u) == Success(t, PRINZ_STRING)
  {
    StringElement(u, PRINZ, t);
  }

  lemma DictionaryPrinz(u: seq<byte>)
    requires u == OPEN_DICT + ([] + ([SLASH] + NAME + ([SPACE] + ([Brackets.LPAREN] + PRINZ + [Brackets.RPAREN] + CLOSED))))
    ensures ParseDictionary(u) == Success([], PdfDictionary(Collect(WithoutNulls(PAIRS_PRINZ))))
  {
    var v := [Brackets.LPAREN] + PRINZ + [Brackets.RPAREN] + CLOSED;
    var s := [] + ([SLASH] + NAME + ([SPACE] + v));
    OpenedDict(u, s);
    assert NameParser.IsBody(NAME);
    EntryChainNil(CLOSED);
    PrinzValue(v, CLOSED);
    PairCons(s, [], NAME, v, CLOSED, PRINZ_STRING, [], CLOSED);
    assert [(NameParser.Name(NAME), PRINZ_STRING)] + [] == PAIRS_PRINZ;
    DictionaryOf(u, PAIRS_PRINZ, [], []);
  }

  lemma PiecesPrinz()
    ensures B("<</Name (Prinz)>>") ==
      OPEN_DICT + ([] + ([SLASH] + NAME + ([SPACE] + ([Brackets.LPAREN] + PRINZ + [Brackets.RPAREN] + CLOSED))))
  {
  }

  /** `<</Name (Prinz)>>`: `get` finds the String `Prinz` under `Name`. */
  lemma ParseDictionaryPrinz(u: seq<byte>)
    requires u == B("<</Name (Prinz)>>")
    ensures var r := ParseDictionary(u);
      r.Success? && r.rest == [] && Get(r.value, NameParser.Name(NAME)) == Some(PRINZ_STRING)
  {
    PiecesPrinz();
    DictionaryPrinz(u);
    OnlyPair((NameParser.Name(NAME), PRINZ_STRING));
  }

  // A key that has no value: `<</Key>>` is not a dictionary.

  lemma KeyWithoutValue(u: seq<byte>)
    requires u == B("<</Key>>")
    ensures ParseDictionary(u).Failure?
  {
    var key: seq<byte> := [75, 101, 121];
    assert u == OPEN_DICT + ([SLASH] + key + CLOSE_DICT);
    DanglingKey(u, key);
  }
}
