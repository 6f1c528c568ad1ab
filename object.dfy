/** The object tree and its mutually recursive parsers (src/objects/mod.rs,
    array.rs, dictionary.rs and stream.rs). The four parsers call one
    another, so they live in one module; termination is by the length of the
    input, then by a rank: the `many0` loops (6) above `Object::parse` (5),
    above its `alt` (4, then the alternatives still to try), above each
    alternative (3), above `Stream::parse` (2), above `Dictionary::parse` and
    `Array::parse` (1). Every call that goes back up the ranks is on a
    strictly shorter input. */
module ObjectParser {
  import opened Parsing
  import BooleanParser
  import NullParser
  import NameParser
  import NumberParser
  import StringParser

  /** `Object`: one variant per kind of PDF object. The `Null` variant holds
      the unit marker, so it carries nothing here. */
  datatype Object =
    | Boolean(boolean: BooleanParser.Boolean)
    | Name(name: NameParser.Name)
    | Integer(integer: NumberParser.Integer)
    | Real(number: NumberParser.Real)
    | String(text: StringParser.PdfString)
    | Array(list: PdfArray)
    | Null
    | Dictionary(dict: PdfDictionary)
    | Stream(stream: PdfStream)

  /** `Array(Vec<Object>)`; `get` is the field `elements`. */
  datatype PdfArray = PdfArray(elements: seq<Object>)

  /** `Dictionary(HashMap<Name, Object>)`. */
  datatype PdfDictionary = PdfDictionary(entries: map<NameParser.Name, Object>)

  /** `Stream { info, data }`; `get_info` and `get_data` are the fields. */
  datatype PdfStream = PdfStream(info: PdfDictionary, data: seq<byte>)

  /** A key/value pair as `many0(pair(..))` yields it. */
  type Entry = (NameParser.Name, Object)

  /** A parser that consumed the prefix `p` left a strictly shorter suffix. */
  lemma ConsumedPrefix(p: seq<byte>, rest: seq<byte>, input: seq<byte>)
    requires input == p + rest && |p| > 0
    ensures IsSuffix(rest, input) && |rest| < |input|
  {
    assert input[|input| - |rest|..] == rest;
  }

  /** The bytes `t` come right before the remainder `rest` of `input`: a
      parser that ends with `tag(t)` leaves such a remainder. */
  predicate Precedes(t: seq<byte>, rest: seq<byte>, input: seq<byte>) {
    |t| + |rest| <= |input| && input[|input| - |rest| - |t|..|input| - |rest|] == t
  }

  lemma PrecedesIn(t: seq<byte>, rest: seq<byte>, mid: seq<byte>, input: seq<byte>)
    requires mid == t + rest && IsSuffix(mid, input)
    ensures Precedes(t, rest, input)
  {
    assert input[|input| - |rest| - |t|..|input| - |rest|] == mid[..|t|];
  }

  lemma PrecedesSuffix(t: seq<byte>, rest: seq<byte>, mid: seq<byte>, input: seq<byte>)
    requires Precedes(t, rest, mid) && IsSuffix(mid, input)
    ensures Precedes(t, rest, input)
  {
    assert input[|input| - |rest| - |t|..|input| - |rest|] == mid[|mid| - |rest| - |t|..|mid| - |rest|];
  }

  // ---------------------------------------------------------------- mod.rs

  /** `Object::parse`: `alt` over the nine variant parsers, in source order;
      nothing is skipped before the object. */
  function ParseObject(input: seq<byte>): (r: ParseResult<Object>)
    ensures r.Success? ==> IsSuffix(r.rest, input) && |r.rest| < |input|
    decreases |input|, 5, 0
  {
    FirstSuccess(input, 0)
  }

  /** `alt`, from alternative `i` on: the first one that succeeds, or the
      last one's error. */
  function FirstSuccess(input: seq<byte>, i: nat): (r: ParseResult<Object>)
    requires i < 9
    ensures r.Success? ==> IsSuffix(r.rest, input) && |r.rest| < |input|
    decreases |input|, 4, 9 - i
  {
    var a := Alternative(input, i);
    if a.Success? || i == 8 then a else FirstSuccess(input, i + 1)
  }

  /** A variant parser's result, wrapped as an object (`.map(Object::X)`). */
  function Lift<T>(r: ParseResult<T>, wrap: T -> Object): (o: ParseResult<Object>)
    ensures o.Success? <==> r.Success?
    ensures o.Success? ==> o.rest == r.rest && o.value == wrap(r.value)
  {
    match r
    case Success(rest, v) => Success(rest, wrap(v))
    case Failure(e) => Failure(e)
  }

  /** Alternative `i` of the `alt` in `Object::parse`, counting from 0: Name,
      Integer, Stream, Dictionary, String, Real, Boolean, Array, Null. */
  function Alternative(input: seq<byte>, i: nat): (r: ParseResult<Object>)
    requires i < 9
    ensures r.Success? ==> IsSuffix(r.rest, input) && |r.rest| < |input|
    decreases |input|, 3, 0
  {
    if i == 0 then
      var n := NameParser.Parse(input);
      if n.Success? then ConsumedPrefix([SLASH] + n.value.bytes, n.rest, input); Lift(n, (v: NameParser.Name) => Name(v))
      else Lift(n, (v: NameParser.Name) => Name(v))
    else if i == 1 then Lift(NumberParser.ParseInteger(input), (v: NumberParser.Integer) => Integer(v))
    else if i == 2 then Lift(ParseStream(input), (v: PdfStream) => Stream(v))
    else if i == 3 then Lift(ParseDictionary(input), (v: PdfDictionary) => Dictionary(v))
    else if i == 4 then Lift(StringParser.Parse(input), (v: StringParser.PdfString) => String(v))
    else if i == 5 then Lift(NumberParser.ParseReal(input), (v: NumberParser.Real) => Real(v))
    else if i == 6 then
      var b := BooleanParser.Parse(input);
      if b.Success? then ConsumedPrefix(BooleanParser.Keyword(b.value), b.rest, input); Lift(b, (v: BooleanParser.Boolean) => Boolean(v))
      else Lift(b, (v: BooleanParser.Boolean) => Boolean(v))
    else if i == 7 then Lift(ParseArray(input), (v: PdfArray) => Array(v))
    else
      var z := NullParser.Parse(input);
      if z.Success? then ConsumedPrefix(B("null"), z.rest, input); Lift(z, (v: NullParser.Null) => Null)
      else Lift(z, (v: NullParser.Null) => Null)
  }

  /** `GetObj<Boolean>::get_obj`. */
  function GetBoolean(o: Object): (r: Option<BooleanParser.Boolean>)
    ensures r.Some? <==> o.Boolean?
    ensures r.Some? ==> o == Boolean(r.value)
  {
    if o.Boolean? then Some(o.boolean) else None
  }

  /** `GetObj<Name>::get_obj`. */
  function GetName(o: Object): (r: Option<NameParser.Name>)
    ensures r.Some? <==> o.Name?
    ensures r.Some? ==> o == Name(r.value)
  {
    if o.Name? then Some(o.name) else None
  }

  /** `GetObj<Integer>::get_obj`. */
  function GetInteger(o: Object): (r: Option<NumberParser.Integer>)
    ensures r.Some? <==> o.Integer?
    ensures r.Some? ==> o == Integer(r.value)
  {
    if o.Integer? then Some(o.integer) else None
  }

  /** `GetObj<Real>::get_obj`. */
  function GetReal(o: Object): (r: Option<NumberParser.Real>)
    ensures r.Some? <==> o.Real?
    ensures r.Some? ==> o == Real(r.value)
  {
    if o.Real? then Some(o.number) else None
  }

  /** `GetObj<String>::get_obj`. */
  function GetString(o: Object): (r: Option<StringParser.PdfString>)
    ensures r.Some? <==> o.String?
    ensures r.Some? ==> o == String(r.value)
  {
    if o.String? then Some(o.text) else None
  }

  /** `GetObj<Array>::get_obj`. */
  function GetArray(o: Object): (r: Option<PdfArray>)
    ensures r.Some? <==> o.Array?
    ensures r.Some? ==> o == Array(r.value)
  {
    if o.Array? then Some(o.list) else None
  }

  /** `GetObj<Null>::get_obj`. */
  function GetNull(o: Object): (r: Option<NullParser.Null>)
    ensures r.Some? <==> o.Null?
  {
    if o.Null? then Some(NullParser.Null) else None
  }

  /** `GetObj<Dictionary>::get_obj`. */
  function GetDictionary(o: Object): (r: Option<PdfDictionary>)
    ensures r.Some? <==> o.Dictionary?
    ensures r.Some? ==> o == Dictionary(r.value)
  {
    if o.Dictionary? then Some(o.dict) else None
  }

  /** `GetObj<Stream>::get_obj`. */
  function GetStream(o: Object): (r: Option<PdfStream>)
    ensures r.Some? <==> o.Stream?
    ensures r.Some? ==> o == Stream(r.value)
  {
    if o.Stream? then Some(o.stream) else None
  }

  // -------------------------------------------------------------- array.rs

  const LBRACKET: byte := 91
  const RBRACKET: byte := 93

  /** `Array::parse`: `[`, the elements, optional whitespace, `]`. */
  function ParseArray(input: seq<byte>): (r: ParseResult<PdfArray>)
    ensures r.Success? ==> IsSuffix(r.rest, input) && |r.rest| < |input|
    ensures r.Success? ==> input[0] == LBRACKET && Precedes([RBRACKET], r.rest, input)
    decreases |input|, 1, 0
  {
    match Char(LBRACKET, input)
    case Failure(e) => Failure(e)
    case Success(s, _) =>
      var (elements, s1) := ParseElements(s);
      match Char(RBRACKET, Multispace0(s1))
      case Failure(e) => Failure(e)
      case Success(rest, _) =>
        SuffixTransitive(Multispace0(s1), s1, s);
        SuffixTransitive(rest, Multispace0(s1), s);
        ConsumedPrefix([LBRACKET], s, input);
        SuffixTransitive(rest, s, input);
        SuffixTransitive(Multispace0(s1), s, input);
        PrecedesIn([RBRACKET], rest, Multispace0(s1), input);
        Success(rest, PdfArray(elements))
  }

  /** `many0(preceded(multispace0, Object::parse))`: parses elements until one
      fails, and leaves the input where that failed attempt began, before its
      whitespace. It never fails itself. */
  function ParseElements(s: seq<byte>): (r: (seq<Object>, seq<byte>))
    ensures IsSuffix(r.1, s)
    ensures r.0 == [] ==> r.1 == s
    decreases |s|, 6, 0
  {
    match ParseObject(Multispace0(s))
    case Failure(_) => ([], s)
    case Success(s1, o) =>
      SuffixTransitive(s1, Multispace0(s), s);
      var (os, s2) := ParseElements(s1);
      SuffixTransitive(s2, s1, s);
      ([o] + os, s2)
  }

  // --------------------------------------------------------- dictionary.rs

  /** The delimiters `<<` and `>>`. */
  const OPEN_DICT: seq<byte> := [StringParser.LESS, StringParser.LESS]
  const CLOSE_DICT: seq<byte> := [StringParser.GREATER, StringParser.GREATER]

  /** `Dictionary::parse`: `<<`, the key/value pairs, optional whitespace,
      `>>`; the pairs whose value is `null` are dropped and the rest are
      collected into the map in order. */
  function ParseDictionary(input: seq<byte>): (r: ParseResult<PdfDictionary>)
    ensures r.Success? ==> IsSuffix(r.rest, input) && |r.rest| < |input|
    ensures r.Success? ==> StartsWith(input, OPEN_DICT) && Precedes(CLOSE_DICT, r.rest, input)
    decreases |input|, 1, 0
  {
    match Tag(OPEN_DICT, input)
    case Failure(e) => Failure(e)
    case Success(s, _) =>
      var (pairs, s1) := ParseEntries(s);
      match Tag(CLOSE_DICT, Multispace0(s1))
      case Failure(e) => Failure(e)
      case Success(rest, _) =>
        ConsumedPrefix(CLOSE_DICT, rest, Multispace0(s1));
        SuffixTransitive(rest, Multispace0(s1), s1);
        SuffixTransitive(rest, s1, s);
        ConsumedPrefix(OPEN_DICT, s, input);
        SuffixTransitive(rest, s, input);
        SuffixTransitive(Multispace0(s1), s1, s);
        SuffixTransitive(Multispace0(s1), s, input);
        PrecedesIn(CLOSE_DICT, rest, Multispace0(s1), input);
        Success(rest, PdfDictionary(Collect(WithoutNulls(pairs))))
  }

  /** `many0(pair(preceded(multispace0, Name::parse), preceded(multispace0,
      Object::parse)))`: stops at the first pair that does not parse and leaves
      the input where that pair began. */
  function ParseEntries(s: seq<byte>): (r: (seq<Entry>, seq<byte>))
    ensures IsSuffix(r.1, s)
    ensures r.0 == [] ==> r.1 == s
    decreases |s|, 6, 0
  {
    match NameParser.Parse(Multispace0(s))
    case Failure(_) => ([], s)
    case Success(s1, k) =>
      ConsumedPrefix([SLASH] + k.bytes, s1, Multispace0(s));
      SuffixTransitive(s1, Multispace0(s), s);
      match ParseObject(Multispace0(s1))
      case Failure(_) => ([], s)
      case Success(s2, v) =>
        SuffixTransitive(s2, Multispace0(s1), s1);
        SuffixTransitive(s2, s1, s);
        var (more, s3) := ParseEntries(s2);
        SuffixTransitive(s3, s2, s);
        ([(k, v)] + more, s3)
  }

  /** `filter(|(_k, v)| *v != Object::Null(Null))`: the pairs with a
      non-null value, in order. */
  function WithoutNulls(pairs: seq<Entry>): (r: seq<Entry>)
    ensures |r| <= |pairs|
    ensures forall i :: 0 <= i < |r| ==> !r[i].1.Null?
    ensures forall e :: e in r <==> e in pairs && !e.1.Null?
  {
    if |pairs| == 0 then []
    else (if pairs[0].1.Null? then [] else [pairs[0]]) + WithoutNulls(pairs[1..])
  }

  /** `collect::<HashMap<_, _>>()`: inserts the pairs in order, so a later pair
      overwrites an earlier one with the same key. */
  function Collect(pairs: seq<Entry>): (m: map<NameParser.Name, Object>)
    ensures forall k :: k in m <==> exists i :: 0 <= i < |pairs| && pairs[i].0 == k
    decreases |pairs|
  {
    if |pairs| == 0 then map[]
    else
      var m := Collect(pairs[..|pairs| - 1]);
      assert forall i :: 0 <= i < |pairs| - 1 ==> pairs[..|pairs| - 1][i] == pairs[i];
      m[pairs[|pairs| - 1].0 := pairs[|pairs| - 1].1]
  }

  /** `Dictionary::get`. */
  function Get(d: PdfDictionary, key: NameParser.Name): (r: Option<Object>)
    ensures r.Some? <==> key in d.entries
    ensures r.Some? ==> d.entries[key] == r.value
  {
    if key in d.entries then Some(d.entries[key]) else None
  }

  /** `Dictionary::is_empty`. */
  function IsEmpty(d: PdfDictionary): (r: bool)
    ensures r <==> forall k :: k !in d.entries
  {
    assert |d.entries| != 0 ==> exists k :: k in d.entries by {
      if |d.entries| != 0 {
        var k :| k in d.entries.Keys;
      }
    }
    |d.entries| == 0
  }

  // ------------------------------------------------------------- stream.rs

  /** The keywords `stream` and `endstream`. */
  const STREAM: seq<byte> := [115, 116, 114, 101, 97, 109]
  const ENDSTREAM: seq<byte> := [101, 110, 100] + STREAM

  /** The key `Name::new(b"Length")`. */
  const LENGTH: NameParser.Name := NameParser.Name(B("Length"))

  /** `Stream::parse`: the dictionary, optional whitespace, `stream`, at least
      one whitespace byte; then exactly `Length` bytes of payload, optional
      whitespace and `endstream`. A missing, non-integer or negative `Length`,
      or fewer bytes than it says, is a `TakeWhileMN` error. */
  function ParseStream(input: seq<byte>): (r: ParseResult<PdfStream>)
    ensures r.Success? ==> IsSuffix(r.rest, input) && |r.rest| < |input|
    ensures r.Success? ==> Precedes(ENDSTREAM, r.rest, input)
    decreases |input|, 2, 0
  {
    match ParseDictionary(input)
    case Failure(e) => Failure(e)
    case Success(s, info) =>
      match StreamKeyword(s)
      case Failure(e) => Failure(e)
      case Success(s1, _) =>
        match StreamBody(info, s1)
        case Failure(e) => Failure(e)
        case Success(rest, v) =>
          SuffixTransitive(rest, s1, s);
          SuffixTransitive(rest, s, input);
          SuffixTransitive(s1, s, input);
          PrecedesSuffix(ENDSTREAM, rest, s1, input);
          Success(rest, v)
  }

  /** `delimited(multispace0, tag("stream"), multispace1)`. */
  function StreamKeyword(s: seq<byte>): (r: ParseResult<()>)
    ensures r.Success? <==> StartsWith(Multispace0(s), STREAM) && Multispace1(Multispace0(s)[6..]).Success?
    ensures r.Success? ==> r.rest == Multispace0(Multispace0(s)[6..])
    ensures r.Success? ==> IsSuffix(r.rest, s) && |r.rest| < |s|
  {
    match Tag(STREAM, Multispace0(s))
    case Failure(e) => Failure(e)
    case Success(s1, _) =>
      match Multispace1(s1)
      case Failure(e) => Failure(e)
      case Success(rest, _) =>
        ConsumedPrefix(STREAM, s1, Multispace0(s));
        SuffixTransitive(rest, s1, Multispace0(s));
        SuffixTransitive(rest, Multispace0(s), s);
        Success(rest, ())
  }

  /** What follows `stream` and its whitespace: the payload, then
      `preceded(multispace0, tag("endstream"))`. */
  function StreamBody(info: PdfDictionary, s: seq<byte>): (r: ParseResult<PdfStream>)
    ensures r.Success? ==> IsSuffix(r.rest, s) && Precedes(ENDSTREAM, r.rest, s)
    ensures r.Success? ==> r.value.info == info && StreamPayload(info, s) == Some(r.value.data)
  {
    match StreamPayload(info, s)
    case None => Failure(BadLength)
    case Some(data) =>
      var s1 := s[|data|..];
      match Tag(ENDSTREAM, Multispace0(s1))
      case Failure(e) => Failure(e)
      case Success(rest, _) =>
        ConsumedPrefix(ENDSTREAM, rest, Multispace0(s1));
        SuffixTransitive(rest, Multispace0(s1), s1);
        assert IsSuffix(s1, s);
        SuffixTransitive(rest, s1, s);
        SuffixTransitive(Multispace0(s1), s1, s);
        PrecedesIn(ENDSTREAM, rest, Multispace0(s1), s);
        Success(rest, PdfStream(info, data))
  }

  /** The `Option` chain of `Stream::parse`: look up `Length`, require an
      Integer, convert it to `usize`, and slice that many bytes off `s`. */
  function StreamPayload(info: PdfDictionary, s: seq<byte>): (r: Option<seq<byte>>)
    ensures r.Some? <==> (LENGTH in info.entries && info.entries[LENGTH].Integer? &&
      0 <= info.entries[LENGTH].integer.value as int <= |s|)
    ensures r.Some? ==> StartsWith(s, r.value) && |r.value| == info.entries[LENGTH].integer.value as int
  {
    match Get(info, LENGTH)
    case None => None
    case Some(o) =>
      match GetInteger(o)
      case None => None
      case Some(n) =>
        if n.value < 0 then None
        else if n.value as int > |s| then None
        else Some(s[..n.value])
  }
}
