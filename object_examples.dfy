/** The unit tests of src/objects/mod.rs for the scalar variants: each input
    is parsed whole into the variant its `get_obj` then finds. */
module ObjectExamples {
  import opened Parsing
  import opened ObjectParser
  import opened ObjectFacts
  import opened ObjectDispatch
  import BooleanParser
  import NullParser
  import NameParser
  import NumberParser
  import StringParser
  import NumberFacts
  import ScalarFacts
  import StringFacts
  import HexStrings
  import Brackets

  lemma ObjectTrue()
    ensures ParseObject(B("true")) == Success([], Boolean(BooleanParser.Boolean(true)))
    ensures GetBoolean(ParseObject(B("true")).value) == Some(BooleanParser.Boolean(true))
  {
    ScalarFacts.BooleanTrue();
    ObjectIsBoolean(B("true"), [], BooleanParser.Boolean(true));
  }

  lemma ObjectName()
    ensures ParseObject(B("/name")) == Success([], Name(NameParser.Name(B("name"))))
    ensures GetName(ParseObject(B("/name")).value) == Some(NameParser.Name(B("name")))
  {
    ScalarFacts.NameText(B("/name"), B("name"), []);
    ObjectIsName(B("/name"), [], NameParser.Name(B("name")));
  }

  lemma ObjectInteger()
    ensures ParseObject(B("5")) == Success([], Integer(NumberParser.Integer(5)))
    ensures GetInteger(ParseObject(B("5")).value) == Some(NumberParser.Integer(5))
  {
    NumberFacts.IntegerText(B("5"), NumberParser.Integer(5), []);
    ObjectIsInteger(B("5"), [], NumberParser.Integer(5));
  }

  /** `5.` is not an integer (the dot is rejected), so it is a Real. */
  lemma ObjectReal()
    ensures ParseObject(B("5.")) == Success([], Real(NumberParser.Real(false, B("5."))))
    ensures GetReal(ParseObject(B("5.")).value) == Some(NumberParser.Real(false, B("5.")))
  {
    assert B("5.")[1] == DOT;
    NumberFacts.DotRejected([], B("5."), []);
    NumberFacts.RealInput(B("5."), [], B("5"), true, [], B("5."), []);
    ObjectIsReal(B("5."), [], NumberParser.Real(false, B("5.")));
  }

  lemma LiteralStr(input: seq<byte>)
    requires input == [Brackets.LPAREN] + B("str") + [Brackets.RPAREN]
    ensures StringParser.Parse(input) == Success([], StringParser.PdfString(B("str")))
  {
    StringFacts.PlainLiteral(B("str"), []);
    assert input == [Brackets.LPAREN] + B("str") + [Brackets.RPAREN] + [];
  }

  lemma LiteralObject(input: seq<byte>)
    requires input == [Brackets.LPAREN] + B("str") + [Brackets.RPAREN]
    ensures ParseObject(input) == Success([], String(StringParser.PdfString(B("str"))))
  {
    LiteralStr(input);
    NotDictionary(input);
    ObjectIsString(input, [], StringParser.PdfString(B("str")));
  }

  lemma ObjectLiteralString()
    ensures ParseObject(B("(str)")) == Success([], String(StringParser.PdfString(B("str"))))
    ensures GetString(ParseObject(B("(str)")).value) == Some(StringParser.PdfString(B("str")))
  {
    assert B("(str)") == [Brackets.LPAREN] + B("str") + [Brackets.RPAREN];
    LiteralObject(B("(str)"));
  }

  lemma HexAbc()
    ensures StringParser.Parse([StringParser.LESS] + B("abc") + [StringParser.GREATER]) ==
      Success([], StringParser.PdfString([0xab, 0xc0]))
  {
    var text := B("abc");
    HexStrings.HexDigitsOfHex(text);
    var fixed := text + [ZERO];
    assert HexStrings.FixHex(text) == fixed;
    assert fixed[0] == 'a' as byte && fixed[1] == 'b' as byte;
    assert fixed[2] == 'c' as byte && fixed[3] == '0' as byte;
    StringFacts.DecodeIs(fixed, [0xab, 0xc0]);
    StringFacts.HexString(text, []);
    assert [StringParser.LESS] + text + [StringParser.GREATER] + [] == [StringParser.LESS] + text + [StringParser.GREATER];
  }

  lemma HexObject(input: seq<byte>)
    requires input == [StringParser.LESS] + B("abc") + [StringParser.GREATER]
    ensures ParseObject(input) == Success([], String(StringParser.PdfString([0xab, 0xc0])))
  {
    HexAbc();
    NotDictionary(input);
    ObjectIsString(input, [], StringParser.PdfString([0xab, 0xc0]));
  }

  /** `<abc>` is not a dictionary (no second `<`), so it is a hexadecimal String. */
  lemma ObjectHexString()
    ensures ParseObject(B("<abc>")) == Success([], String(StringParser.PdfString([0xab, 0xc0])))
    ensures GetString(ParseObject(B("<abc>")).value) == Some(StringParser.PdfString([0xab, 0xc0]))
  {
    assert B("<abc>") == [StringParser.LESS] + B("abc") + [StringParser.GREATER];
    HexObject(B("<abc>"));
  }

  lemma ObjectNull()
    ensures ParseObject(B("null")) == Success([], Null)
    ensures GetNull(ParseObject(B("null")).value).Some?
  {
    ScalarFacts.NullKeyword();
    ObjectIsNull(B("null"), []);
  }
}
