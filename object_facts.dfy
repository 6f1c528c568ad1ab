/** What `Object::parse` and its accessors promise (src/objects/mod.rs),
    stated over all inputs, with the unit tests of mod.rs as instances. */
module ObjectFacts {
  import opened Parsing
  import opened ObjectParser
  import BooleanParser
  import NullParser
  import NameParser
  import NumberParser
  import StringParser
  import NumberFacts
  import ScalarFacts
  import StringFacts
  import Brackets

  /** `alt` returns the first alternative that succeeds: the result is
      alternative `k` when `k` succeeds and all before it fail. */
  lemma {:induction false} FirstSuccessIs(input: seq<byte>, i: nat, k: nat)
    requires i <= k < 9 && Alternative(input, k).Success?
    requires forall j :: i <= j < k ==> Alternative(input, j).Failure?
    ensures FirstSuccess(input, i) == Alternative(input, k)
    decreases k - i
  {
    if i < k {
      FirstSuccessIs(input, i + 1, k);
    }
  }

  /** From alternative `i` on, `alt` fails only if every remaining
      alternative fails... */
  lemma {:induction false} FirstSuccessFailure(input: seq<byte>, i: nat, j: nat)
    requires i <= j < 9 && FirstSuccess(input, i).Failure?
    ensures Alternative(input, j).Failure?
    decreases j - i
  {
    if i < j {
      FirstSuccessFailure(input, i + 1, j);
    }
  }

  /** ...and it does fail when they all do. */
  lemma {:induction false} AllAlternativesFail(input: seq<byte>, i: nat)
    requires i < 9 && forall j :: i <= j < 9 ==> Alternative(input, j).Failure?
    ensures FirstSuccess(input, i).Failure?
    decreases 9 - i
  {
    if i < 8 {
      AllAlternativesFail(input, i + 1);
    }
  }

  /** `Object::parse` yields the first alternative, in the order Name,
      Integer, Stream, Dictionary, String, Real, Boolean, Array, Null, that
      succeeds. */
  lemma DispatchOrder(input: seq<byte>, k: nat)
    requires k < 9 && Alternative(input, k).Success?
    requires forall j :: 0 <= j < k ==> Alternative(input, j).Failure?
    ensures ParseObject(input) == Alternative(input, k)
  {
    FirstSuccessIs(input, 0, k);
  }

  /** `Object::parse` fails only when all nine alternatives fail. */
  lemma DispatchFails(input: seq<byte>)
    ensures ParseObject(input).Failure? <==> forall j: nat :: j < 9 ==> Alternative(input, j).Failure?
  {
    assert ParseObject(input) == FirstSuccess(input, 0);
    if ParseObject(input).Failure? {
      forall j: nat | j < 9
        ensures Alternative(input, j).Failure?
      {
        FirstSuccessFailure(input, 0, j);
      }
    } else {
      SomeAlternativeSucceeds(input);
    }
  }

  lemma SomeAlternativeSucceeds(input: seq<byte>)
    requires ParseObject(input).Success?
    ensures exists j: nat :: j < 9 && Alternative(input, j).Success?
  {
    assert ParseObject(input) == FirstSuccess(input, 0);
    if forall j: nat :: j < 9 ==> Alternative(input, j).Failure? {
      AllAlternativesFail(input, 0);
      assert false;
    }
  }

  // What each alternative needs at the front of the input.

  const LOWER_F: byte := 102
  const LOWER_N: byte := 110
  const LOWER_T: byte := 116

  /** The bytes alternative `j` can start with. */
  predicate StartsAlternative(j: nat, c: byte) {
    if j == 0 then c == SLASH
    else if j == 1 then c == PLUS || c == MINUS || IsDigit(c)
    else if j == 2 || j == 3 then c == StringParser.LESS
    else if j == 4 then c == StringParser.LESS || c == Brackets.LPAREN
    else if j == 5 then c == PLUS || c == MINUS || c == DOT || IsDigit(c)
    else if j == 6 then c == LOWER_T || c == LOWER_F
    else if j == 7 then c == LBRACKET
    else c == LOWER_N
  }

  lemma IntegerStart(input: seq<byte>)
    requires NumberParser.ParseInteger(input).Success?
    ensures |input| > 0 && StartsAlternative(1, input[0])
  {
    var r := NumberParser.ParseInteger(input);
    var lexeme := Consumed(input, r.rest);
    assert lexeme[0] == input[0];
  }

  lemma RealStart(input: seq<byte>)
    requires NumberParser.ParseReal(input).Success?
    ensures |input| > 0 && StartsAlternative(5, input[0])
  {
    var r := NumberParser.ParseReal(input);
    LexemeStart(r.value.lexeme);
    var sign := NumberParser.SignOf(input);
    if sign == [] {
      assert input == r.value.lexeme + r.rest;
      assert input[0] == r.value.lexeme[0];
    }
  }

  /** A real's lexeme starts with a digit or a dot. */
  lemma LexemeStart(s: seq<byte>)
    requires NumberParser.IsRealLexeme(s)
    ensures |s| > 0 && (IsDigit(s[0]) || s[0] == DOT)
  {
    if !(|s| > 0 && NumberParser.AllDigits(s)) {
      var k :| 0 <= k < |s| && s[k] == DOT && NumberParser.AllDigits(s[..k]) && NumberParser.AllDigits(s[k + 1..]) && (k > 0 || k + 1 < |s|);
      if k > 0 {
        assert s[..k][0] == s[0];
      }
    }
  }

  lemma DictionaryStart(input: seq<byte>)
    requires ParseDictionary(input).Success?
    ensures |input| >= 2 && input[0] == StringParser.LESS && input[1] == StringParser.LESS
  {
    assert input[..2] == OPEN_DICT;
  }

  /** Input that does not start with `<<` is not a dictionary. */
  lemma NotDictionary(input: seq<byte>)
    requires |input| < 2 || input[0] != StringParser.LESS || input[1] != StringParser.LESS
    ensures ParseDictionary(input).Failure?
  {
    if ParseDictionary(input).Success? {
      DictionaryStart(input);
    }
  }

  lemma StreamStart(input: seq<byte>)
    requires ParseStream(input).Success?
    ensures ParseDictionary(input).Success?
  {
  }

  lemma StreamFirstByte(input: seq<byte>)
    requires ParseStream(input).Success?
    ensures |input| > 0 && input[0] == StringParser.LESS
  {
    StreamStart(input);
    DictionaryStart(input);
  }

  lemma StringStart(input: seq<byte>)
    requires StringParser.Parse(input).Success?
    ensures |input| > 0 && StartsAlternative(4, input[0])
  {
  }

  lemma ArrayStart(input: seq<byte>)
    requires ParseArray(input).Success?
    ensures |input| > 0 && input[0] == LBRACKET
  {
  }

  // Each alternative of `Object::parse` is its variant parser, mapped.

  lemma NameAlternative(input: seq<byte>)
    ensures Alternative(input, 0) == Lift(NameParser.Parse(input), (v: NameParser.Name) => Name(v))
  {
    var p := NameParser.Parse(input);
    assert Alternative(input, 0) == Lift(p, (v: NameParser.Name) => Name(v));
  }

  lemma IntegerAlternative(input: seq<byte>)
    ensures Alternative(input, 1) == Lift(NumberParser.ParseInteger(input), (v: NumberParser.Integer) => Integer(v))
  {
    var p := NumberParser.ParseInteger(input);
    assert Alternative(input, 1) == Lift(p, (v: NumberParser.Integer) => Integer(v));
  }

  lemma StreamAlternative(input: seq<byte>)
    ensures Alternative(input, 2) == Lift(ParseStream(input), (v: PdfStream) => Stream(v))
  {
    var p := ParseStream(input);
    assert Alternative(input, 2) == Lift(p, (v: PdfStream) => Stream(v));
  }

  lemma DictionaryAlternative(input: seq<byte>)
    ensures Alternative(input, 3) == Lift(ParseDictionary(input), (v: PdfDictionary) => Dictionary(v))
  {
    var p := ParseDictionary(input);
    assert Alternative(input, 3) == Lift(p, (v: PdfDictionary) => Dictionary(v));
  }

  lemma StringAlternative(input: seq<byte>)
    ensures Alternative(input, 4) == Lift(StringParser.Parse(input), (v: StringParser.PdfString) => String(v))
  {
  }

  lemma RealAlternative(input: seq<byte>)
    ensures Alternative(input, 5) == Lift(NumberParser.ParseReal(input), (v: NumberParser.Real) => Real(v))
  {
    var p := NumberParser.ParseReal(input);
    assert Alternative(input, 5) == Lift(p, (v: NumberParser.Real) => Real(v));
  }

  lemma BooleanAlternative(input: seq<byte>)
    ensures Alternative(input, 6) == Lift(BooleanParser.Parse(input), (v: BooleanParser.Boolean) => Boolean(v))
  {
    var p := BooleanParser.Parse(input);
    assert Alternative(input, 6) == Lift(p, (v: BooleanParser.Boolean) => Boolean(v));
  }

  lemma ArrayAlternative(input: seq<byte>)
    ensures Alternative(input, 7) == Lift(ParseArray(input), (v: PdfArray) => Array(v))
  {
    var p := ParseArray(input);
    assert Alternative(input, 7) == Lift(p, (v: PdfArray) => Array(v));
  }

  lemma NullAlternative(input: seq<byte>)
    ensures Alternative(input, 8) == Lift(NullParser.Parse(input), (v: NullParser.Null) => Null)
  {
    var p := NullParser.Parse(input);
    assert Alternative(input, 8) == Lift(p, (v: NullParser.Null) => Null);
  }

  /** Each alternative succeeds only on an input that starts with one of its bytes. */
  lemma AlternativeStart(input: seq<byte>, j: nat)
    requires j < 9 && Alternative(input, j).Success?
    ensures |input| > 0 && StartsAlternative(j, input[0])
  {
    if j == 1 {
      IntegerStart(input);
    } else if j == 2 {
      StreamStart(input);
      DictionaryStart(input);
    } else if j == 3 {
      DictionaryStart(input);
    } else if j == 4 {
      StringStart(input);
    } else if j == 5 {
      RealStart(input);
    } else if j == 6 {
      assert input[..|BooleanParser.Keyword(BooleanParser.Parse(input).value)|] == BooleanParser.Keyword(BooleanParser.Parse(input).value);
    } else if j == 7 {
      ArrayStart(input);
    } else if j == 8 {
      assert input[..4] == B("null");
    }
  }

  /** The bytes an object can start with; nothing is skipped before it. */
  predicate StartsObject(c: byte) {
    c == SLASH || c == PLUS || c == MINUS || c == DOT || IsDigit(c) || c == StringParser.LESS ||
    c == Brackets.LPAREN || c == LOWER_T || c == LOWER_F || c == LBRACKET || c == LOWER_N
  }

  /** An object starts with `/`, a sign, a digit, `.`, `<`, `(`, `t`, `f`,
      `[` or `n`: in particular, never with whitespace. */
  lemma ObjectStart(input: seq<byte>)
    requires ParseObject(input).Success?
    ensures |input| > 0 && StartsObject(input[0])
  {
    SomeAlternativeSucceeds(input);
    var j: nat :| j < 9 && Alternative(input, j).Success?;
    AlternativeStart(input, j);
  }

  /** Leading whitespace makes `Object::parse` fail. */
  lemma ObjectLeadingSpace(input: seq<byte>)
    requires |input| > 0 && IsMultispace(input[0])
    ensures ParseObject(input).Failure?
  {
    if ParseObject(input).Success? {
      ObjectStart(input);
    }
  }

  /** `]` and `>` cannot start an object, which is what ends the element
      loop of an array and the pair loop of a dictionary. */
  lemma ObjectRejectsCloser(input: seq<byte>)
    requires |input| > 0 && (input[0] == RBRACKET || input[0] == StringParser.GREATER)
    ensures ParseObject(input).Failure?
  {
    if ParseObject(input).Success? {
      ObjectStart(input);
    }
  }

  /** An alternative fails on an input that does not start with one of its bytes. */
  lemma AlternativeFails(input: seq<byte>, j: nat)
    requires j < 9 && (|input| == 0 || !StartsAlternative(j, input[0]))
    ensures Alternative(input, j).Failure?
  {
    if Alternative(input, j).Success? {
      AlternativeStart(input, j);
    }
  }

  /** `alt` moves past a failing alternative. */
  lemma Skip(input: seq<byte>, j: nat)
    requires j < 8 && Alternative(input, j).Failure?
    ensures FirstSuccess(input, j) == FirstSuccess(input, j + 1)
  {
  }

  /** `alt` moves past the alternatives `i` to `k - 1` when none of them
      accepts the first byte. */
  lemma {:induction false} SkipTo(input: seq<byte>, i: nat, k: nat)
    requires i <= k < 9 && |input| > 0
    requires forall j: nat :: i <= j < k ==> !StartsAlternative(j, input[0])
    ensures FirstSuccess(input, i) == FirstSuccess(input, k)
    decreases k - i
  {
    if i < k {
      AlternativeFails(input, i);
      Skip(input, i);
      SkipTo(input, i + 1, k);
    }
  }
}

/** Which variant `Object::parse` yields, by what the input holds: each
    alternative wins when the ones before it cannot accept the input. */
module ObjectDispatch {
  import opened Parsing
  import opened ObjectParser
  import opened ObjectFacts
  import BooleanParser
  import NullParser
  import NameParser
  import NumberParser
  import StringParser

  /** `alt` reaches alternative `k` when none before it accepts the first byte. */
  lemma Tried(input: seq<byte>, k: nat)
    requires k < 9 && |input| > 0
    requires forall j: nat :: j < k ==> !StartsAlternative(j, input[0])
    ensures ParseObject(input) == FirstSuccess(input, k)
  {
    SkipTo(input, 0, k);
  }

  /** An alternative that succeeds is the one `alt` returns. */
  lemma Taken(input: seq<byte>, i: nat)
    requires i < 9 && Alternative(input, i).Success?
    ensures FirstSuccess(input, i) == Alternative(input, i)
  {
  }

  lemma SignTried(input: seq<byte>)
    requires |input| > 0 && StartsAlternative(1, input[0])
    ensures ParseObject(input) == FirstSuccess(input, 1)
  {
    assert !StartsAlternative(0, input[0]);
    Tried(input, 1);
  }

  /** `<` tries the stream form first. */
  lemma AngleTried(input: seq<byte>)
    requires |input| > 0 && input[0] == StringParser.LESS
    ensures ParseObject(input) == FirstSuccess(input, 2)
  {
    assert forall j: nat :: j < 2 ==> !StartsAlternative(j, input[0]);
    Tried(input, 2);
  }

  /** `<` with no stream body goes on to `Dictionary::parse`. */
  lemma DictionaryTried(input: seq<byte>)
    requires |input| > 0 && input[0] == StringParser.LESS && ParseStream(input).Failure?
    ensures ParseObject(input) == FirstSuccess(input, 3)
  {
    AngleTried(input);
    StreamAlternative(input);
    Skip(input, 2);
  }

  /** `(`, or `<` with no dictionary, goes on to `String::parse`. */
  lemma StringTried(input: seq<byte>)
    requires |input| > 0 && StartsAlternative(4, input[0]) && ParseDictionary(input).Failure?
    ensures ParseObject(input) == FirstSuccess(input, 4)
  {
    if input[0] == Brackets.LPAREN {
      assert forall j: nat :: j < 4 ==> !StartsAlternative(j, input[0]);
      Tried(input, 4);
    } else {
      if ParseStream(input).Success? {
        StreamStart(input);
      }
      DictionaryTried(input);
      DictionaryAlternative(input);
      Skip(input, 3);
    }
  }

  /** A sign or a digit that `Integer::parse` rejects goes on to `Real::parse`. */
  lemma IntegerSkipped(input: seq<byte>)
    requires |input| > 0 && StartsAlternative(1, input[0]) && NumberParser.ParseInteger(input).Failure?
    ensures ParseObject(input) == FirstSuccess(input, 2)
  {
    SignTried(input);
    IntegerAlternative(input);
    Skip(input, 1);
  }

  /** A leading `.` goes past every alternative before `Real::parse`. */
  lemma DotTried(input: seq<byte>)
    requires |input| > 0 && input[0] == DOT
    ensures ParseObject(input) == FirstSuccess(input, 5)
  {
    assert forall j: nat :: j < 5 ==> !StartsAlternative(j, input[0]);
    Tried(input, 5);
  }

  /** A sign or a digit is not accepted by the stream, dictionary or string forms. */
  lemma SignSkipsBrackets(input: seq<byte>)
    requires |input| > 0 && StartsAlternative(1, input[0])
    ensures FirstSuccess(input, 2) == FirstSuccess(input, 5)
  {
    assert forall j: nat :: 2 <= j < 5 ==> !StartsAlternative(j, input[0]);
    SkipTo(input, 2, 5);
  }

  /** A real's first byte is tried by `Real::parse` once `Integer::parse` has failed. */
  lemma RealTried(input: seq<byte>)
    requires |input| > 0 && StartsAlternative(5, input[0]) && NumberParser.ParseInteger(input).Failure?
    ensures ParseObject(input) == FirstSuccess(input, 5)
  {
    if input[0] == DOT {
      DotTried(input);
    } else {
      IntegerSkipped(input);
      SignSkipsBrackets(input);
    }
  }

  lemma KeywordTried(input: seq<byte>)
    requires |input| > 0 && StartsAlternative(6, input[0])
    ensures ParseObject(input) == FirstSuccess(input, 6)
  {
    assert forall j: nat :: j < 6 ==> !StartsAlternative(j, input[0]);
    Tried(input, 6);
  }

  /** `[` goes straight to `Array::parse`. */
  lemma BracketTried(input: seq<byte>)
    requires |input| > 0 && input[0] == LBRACKET
    ensures ParseObject(input) == FirstSuccess(input, 7)
  {
    assert forall j: nat :: j < 7 ==> !StartsAlternative(j, input[0]);
    Tried(input, 7);
  }

  lemma NullTried(input: seq<byte>)
    requires |input| > 0 && input[0] == LOWER_N
    ensures ParseObject(input) == FirstSuccess(input, 8)
  {
    assert forall j: nat :: j < 8 ==> !StartsAlternative(j, input[0]);
    Tried(input, 8);
  }

  lemma ObjectIsName(input: seq<byte>, rest: seq<byte>, v: NameParser.Name)
    requires NameParser.Parse(input) == Success(rest, v)
    ensures ParseObject(input) == Success(rest, Name(v))
  {
    NameAlternative(input);
    Tried(input, 0);
    Taken(input, 0);
  }

  lemma ObjectIsInteger(input: seq<byte>, rest: seq<byte>, v: NumberParser.Integer)
    requires NumberParser.ParseInteger(input) == Success(rest, v)
    ensures ParseObject(input) == Success(rest, Integer(v))
  {
    IntegerStart(input);
    SignTried(input);
    IntegerAlternative(input);
    Taken(input, 1);
  }

  lemma ObjectIsStream(input: seq<byte>, rest: seq<byte>, v: PdfStream)
    requires ParseStream(input) == Success(rest, v)
    ensures ParseObject(input) == Success(rest, Stream(v))
  {
    StreamFirstByte(input);
    AngleTried(input);
    StreamAlternative(input);
    Taken(input, 2);
  }

  /** A dictionary that is not followed by a stream body is a Dictionary. */
  lemma ObjectIsDictionary(input: seq<byte>, rest: seq<byte>, v: PdfDictionary)
    requires ParseDictionary(input) == Success(rest, v) && ParseStream(input).Failure?
    ensures ParseObject(input) == Success(rest, Dictionary(v))
  {
    DictionaryStart(input);
    DictionaryTried(input);
    DictionaryAlternative(input);
    Taken(input, 3);
  }

  /** A string is a String unless the input starts with a dictionary. */
  lemma ObjectIsString(input: seq<byte>, rest: seq<byte>, v: StringParser.PdfString)
    requires StringParser.Parse(input) == Success(rest, v) && ParseDictionary(input).Failure?
    ensures ParseObject(input) == Success(rest, String(v))
  {
    StringStart(input);
    StringTried(input);
    StringAlternative(input);
    Taken(input, 4);
  }

  /** A real is a Real when `Integer::parse` rejects the same text. */
  lemma ObjectIsReal(input: seq<byte>, rest: seq<byte>, v: NumberParser.Real)
    requires NumberParser.ParseReal(input) == Success(rest, v) && NumberParser.ParseInteger(input).Failure?
    ensures ParseObject(input) == Success(rest, Real(v))
  {
    RealStart(input);
    RealTried(input);
    RealAlternative(input);
    Taken(input, 5);
  }

  lemma ObjectIsBoolean(input: seq<byte>, rest: seq<byte>, v: BooleanParser.Boolean)
    requires BooleanParser.Parse(input) == Success(rest, v)
    ensures ParseObject(input) == Success(rest, Boolean(v))
  {
    BooleanAlternative(input);
    AlternativeStart(input, 6);
    KeywordTried(input);
    Taken(input, 6);
  }

  lemma ObjectIsArray(input: seq<byte>, rest: seq<byte>, v: PdfArray)
    requires ParseArray(input) == Success(rest, v)
    ensures ParseObject(input) == Success(rest, Array(v))
  {
    ArrayStart(input);
    BracketTried(input);
    ArrayAlternative(input);
    Taken(input, 7);
  }

  lemma ObjectIsNull(input: seq<byte>, rest: seq<byte>)
    requires NullParser.Parse(input) == Success(rest, NullParser.Null)
    ensures ParseObject(input) == Success(rest, Null)
  {
    NullAlternative(input);
    AlternativeStart(input, 8);
    NullTried(input);
    Taken(input, 8);
  }
}
