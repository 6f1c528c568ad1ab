/** What src/objects/array.rs promises about `Array::parse`: the `many0`
    loop yields the longest chain of whitespace-separated objects, and the
    array is that chain between `[` and `]`. */
module ArrayFacts {
  import opened Parsing
  import opened ObjectParser
  import opened ObjectFacts

  predicate AllMultispace(ws: seq<byte>) {
    forall i :: 0 <= i < |ws| ==> IsMultispace(ws[i])
  }

  /** `os` is read off `s` one object at a time, each after optional
      whitespace, and `r` is what is left after the last one. */
  predicate IsElementChain(s: seq<byte>, os: seq<Object>, r: seq<byte>)
    decreases |os|
  {
    if os == [] then r == s
    else
      var p := ParseObject(Multispace0(s));
      p.Success? && p.value == os[0] && IsElementChain(p.rest, os[1..], r)
  }

  /** Every element of `many0` is an `Object::parse` result after optional
      whitespace, in input order. */
  lemma {:induction false} ElementsChain(s: seq<byte>)
    ensures IsElementChain(s, ParseElements(s).0, ParseElements(s).1)
    decreases |s|
  {
    match ParseObject(Multispace0(s))
    case Failure(_) =>
    case Success(s1, o) =>
      ElementsChain(s1);
      var r := ParseElements(s);
      assert r.0 == [o] + ParseElements(s1).0;
      assert r.0[1..] == ParseElements(s1).0;
  }

  /** `many0` goes on while it can: no further element starts where it stops. */
  lemma {:induction false} ElementsMaximal(s: seq<byte>)
    ensures ParseObject(Multispace0(ParseElements(s).1)).Failure?
    decreases |s|
  {
    match ParseObject(Multispace0(s))
    case Failure(_) =>
    case Success(s1, o) =>
      ElementsMaximal(s1);
  }

  lemma ElementsStep(s: seq<byte>, o: Object, t: seq<byte>, os: seq<Object>, r: seq<byte>)
    requires ParseObject(Multispace0(s)) == Success(t, o)
    requires ParseElements(t) == (os, r)
    ensures ParseElements(s) == ([o] + os, r)
  {
  }

  lemma ElementsStop(s: seq<byte>)
    requires ParseObject(Multispace0(s)).Failure?
    ensures ParseElements(s) == ([], s)
  {
  }

  lemma HeadTail(os: seq<Object>)
    requires os != []
    ensures [os[0]] + os[1..] == os
  {
  }

  lemma ChainEmpty(s: seq<byte>, r: seq<byte>)
    requires IsElementChain(s, [], r)
    ensures r == s
  {
  }

  lemma ChainFirst(s: seq<byte>, os: seq<Object>, r: seq<byte>)
    requires os != [] && IsElementChain(s, os, r)
    ensures ParseObject(Multispace0(s)).Success? && ParseObject(Multispace0(s)).value == os[0]
    ensures IsElementChain(ParseObject(Multispace0(s)).rest, os[1..], r)
  {
  }

  /** A chain that cannot be extended is exactly what `many0` yields. */
  lemma {:induction false} ElementsUnique(s: seq<byte>, os: seq<Object>, r: seq<byte>)
    requires IsElementChain(s, os, r)
    requires ParseObject(Multispace0(r)).Failure?
    ensures ParseElements(s) == (os, r)
    decreases |os|
  {
    if os == [] {
      ChainEmpty(s, r);
      ElementsStop(s);
    } else {
      ChainFirst(s, os, r);
      var p := ParseObject(Multispace0(s));
      ElementsUnique(p.rest, os[1..], r);
      ElementsStep(s, os[0], p.rest, os[1..], r);
      HeadTail(os);
    }
  }

  /** An object can never start with whitespace. */
  lemma ObjectAfterSpace(ws: seq<byte>, u: seq<byte>)
    requires AllMultispace(ws) && ParseObject(u).Success?
    ensures Multispace0(ws + u) == u
  {
    ObjectStart(u);
    Multispace0Of(ws, u);
  }

  /** The empty chain: nothing read, everything left. */
  lemma ChainNil(s: seq<byte>)
    ensures IsElementChain(s, [], s)
  {
  }

  /** One more element in front of a chain: whitespace, then an object. */
  lemma ChainCons(s: seq<byte>, ws: seq<byte>, u: seq<byte>, t: seq<byte>, os: seq<Object>, r: seq<byte>)
    requires os != [] && s == ws + u && AllMultispace(ws)
    requires ParseObject(u) == Success(t, os[0])
    requires IsElementChain(t, os[1..], r)
    ensures IsElementChain(s, os, r)
  {
    ObjectAfterSpace(ws, u);
  }

  /** Whitespace and then `]` or `>`: the loop stops and gives back the whitespace. */
  lemma ElementsEnd(s: seq<byte>, ws: seq<byte>, t: seq<byte>)
    requires s == ws + t && AllMultispace(ws)
    requires |t| > 0 && (t[0] == RBRACKET || t[0] == StringParser.GREATER)
    ensures ParseElements(s) == ([], s)
  {
    Multispace0Of(ws, t);
    ObjectRejectsCloser(t);
  }

  /** `[`, the elements, whitespace and `]` make the array of those elements. */
  lemma ArrayClose(input: seq<byte>, os: seq<Object>, s1: seq<byte>, rest: seq<byte>)
    requires |input| > 0 && input[0] == LBRACKET
    requires ParseElements(input[1..]) == (os, s1)
    requires |Multispace0(s1)| > 0 && Multispace0(s1)[0] == RBRACKET && Multispace0(s1)[1..] == rest
    ensures ParseArray(input) == Success(rest, PdfArray(os))
  {
  }

  /** A chain that ends in whitespace and `]` is what `many0` yields. */
  lemma ElementsClosed(s: seq<byte>, os: seq<Object>, ws: seq<byte>, rest: seq<byte>)
    requires IsElementChain(s, os, ws + ([RBRACKET] + rest)) && AllMultispace(ws)
    ensures ParseElements(s) == (os, ws + ([RBRACKET] + rest))
  {
    var close := [RBRACKET] + rest;
    ElementsEnd(ws + close, ws, close);
    ElementsUnique(s, os, ws + close);
  }

  /** `multispace0` stops at the `]` after the whitespace. */
  lemma SpaceThenClose(ws: seq<byte>, rest: seq<byte>)
    requires AllMultispace(ws)
    ensures var m := Multispace0(ws + ([RBRACKET] + rest)); |m| > 0 && m[0] == RBRACKET && m[1..] == rest
  {
    var close := [RBRACKET] + rest;
    Multispace0Of(ws, close);
    assert close[1..] == rest;
  }

  /** The converse of `ArrayElements`: `[`, a chain of objects, whitespace
      and `]` parse as the array of exactly those objects. */
  lemma ArrayOf(input: seq<byte>, os: seq<Object>, ws: seq<byte>, rest: seq<byte>)
    requires |input| > 0 && input[0] == LBRACKET
    requires IsElementChain(input[1..], os, ws + ([RBRACKET] + rest)) && AllMultispace(ws)
    ensures ParseArray(input) == Success(rest, PdfArray(os))
  {
    ElementsClosed(input[1..], os, ws, rest);
    SpaceThenClose(ws, rest);
    ArrayClose(input, os, ws + ([RBRACKET] + rest), rest);
  }

  /** The elements an array holds are exactly the longest element chain
      after its `[`. */
  lemma ArrayElements(input: seq<byte>, rest: seq<byte>, v: PdfArray)
    requires ParseArray(input) == Success(rest, v)
    ensures IsElementChain(input[1..], v.elements, ParseElements(input[1..]).1)
    ensures ParseObject(Multispace0(ParseElements(input[1..]).1)).Failure?
  {
    ElementsChain(input[1..]);
    ElementsMaximal(input[1..]);
  }

  /** Without a `]` anywhere in the input there is no array. */
  lemma ArrayUnclosed(input: seq<byte>)
    requires RBRACKET !in input
    ensures ParseArray(input).Failure?
  {
    if ParseArray(input).Success? {
      ArrayHasClosing(input);
    }
  }

  lemma ArrayHasClosing(input: seq<byte>)
    requires ParseArray(input).Success?
    ensures RBRACKET in input
  {
    PrecedesContains([RBRACKET], ParseArray(input).rest, input);
  }

  /** A delimiter that precedes the remainder is part of the input. */
  lemma PrecedesContains(t: seq<byte>, rest: seq<byte>, input: seq<byte>)
    requires Precedes(t, rest, input) && |t| > 0
    ensures t[0] in input
  {
    var k := |input| - |rest| - |t|;
    assert input[k..|input| - |rest|][0] == input[k];
  }

  /** An array needs its `[` at the very start. */
  lemma ArrayNeedsOpening(input: seq<byte>)
    requires |input| == 0 || input[0] != LBRACKET
    ensures ParseArray(input).Failure?
  {
  }
}
