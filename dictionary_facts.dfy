/** What src/objects/dictionary.rs promises about `Dictionary::parse`: the
    `many0` loop yields the longest chain of (Name, Object) pairs, the pairs
    with a `null` value are dropped, and the rest are collected in order into
    the map, a later pair overwriting an earlier one with the same key. */
module DictionaryFacts {
  import opened Parsing
  import opened ObjectParser
  import opened ObjectFacts
  import opened ArrayFacts
  import NameParser
  import StringParser

  /** `es` is read off `s` one pair at a time: optional whitespace and a
      Name, then optional whitespace and an Object; `r` is what is left
      after the last pair. */
  predicate IsEntryChain(s: seq<byte>, es: seq<Entry>, r: seq<byte>)
    decreases |es|
  {
    if es == [] then r == s
    else
      var k := NameParser.Parse(Multispace0(s));
      k.Success? && k.value == es[0].0 &&
      var v := ParseObject(Multispace0(k.rest));
      v.Success? && v.value == es[0].1 && IsEntryChain(v.rest, es[1..], r)
  }

  /** One more (Name, Object) pair can be read at the start of `s`. */
  predicate PairParses(s: seq<byte>) {
    var k := NameParser.Parse(Multispace0(s));
    k.Success? && ParseObject(Multispace0(k.rest)).Success?
  }

  /** Every pair `many0` yields is a Name and an Object, each after optional
      whitespace, in input order. */
  lemma {:induction false} EntriesChain(s: seq<byte>)
    ensures IsEntryChain(s, ParseEntries(s).0, ParseEntries(s).1)
    decreases |s|
  {
    if PairParses(s) {
      var k := NameParser.Parse(Multispace0(s));
      var v := ParseObject(Multispace0(k.rest));
      EntriesChain(v.rest);
      var (es, r) := ParseEntries(v.rest);
      EntriesStep(s, k.rest, v.rest, (k.value, v.value), es, r);
      EntryChainStep(s, k.rest, v.rest, (k.value, v.value), es, r);
    } else {
      EntriesStop(s);
      EntryChainNil(s);
    }
  }

  /** `many0` goes on while it can: no further pair starts where it stops. */
  lemma {:induction false} EntriesMaximal(s: seq<byte>)
    ensures !PairParses(ParseEntries(s).1)
    decreases |s|
  {
    if PairParses(s) {
      var k := NameParser.Parse(Multispace0(s));
      var v := ParseObject(Multispace0(k.rest));
      EntriesMaximal(v.rest);
      var (es, r) := ParseEntries(v.rest);
      EntriesStep(s, k.rest, v.rest, (k.value, v.value), es, r);
    } else {
      EntriesStop(s);
    }
  }

  lemma EntryChainStep(s: seq<byte>, t1: seq<byte>, t2: seq<byte>, e: Entry, es: seq<Entry>, r: seq<byte>)
    requires NameParser.Parse(Multispace0(s)) == Success(t1, e.0)
    requires ParseObject(Multispace0(t1)) == Success(t2, e.1)
    requires IsEntryChain(t2, es, r)
    ensures IsEntryChain(s, [e] + es, r)
  {
    assert ([e] + es)[1..] == es;
  }

  lemma EntriesStep(s: seq<byte>, t1: seq<byte>, t2: seq<byte>, e: Entry, es: seq<Entry>, r: seq<byte>)
    requires NameParser.Parse(Multispace0(s)) == Success(t1, e.0)
    requires ParseObject(Multispace0(t1)) == Success(t2, e.1)
    requires ParseEntries(t2) == (es, r)
    ensures ParseEntries(s) == ([e] + es, r)
  {
  }

  lemma EntriesStop(s: seq<byte>)
    requires !PairParses(s)
    ensures ParseEntries(s) == ([], s)
  {
  }

  lemma EntryHeadTail(es: seq<Entry>)
    requires es != []
    ensures [es[0]] + es[1..] == es
  {
  }

  lemma EntryChainFirst(s: seq<byte>, es: seq<Entry>, r: seq<byte>)
    requires es != [] && IsEntryChain(s, es, r)
    ensures var k := NameParser.Parse(Multispace0(s));
      k.Success? && k.value == es[0].0 &&
      var v := ParseObject(Multispace0(k.rest));
      v.Success? && v.value == es[0].1 && IsEntryChain(v.rest, es[1..], r)
  {
  }

  /** A chain of pairs that cannot be extended is exactly what `many0` yields. */
  lemma {:induction false} EntriesUnique(s: seq<byte>, es: seq<Entry>, r: seq<byte>)
    requires IsEntryChain(s, es, r)
    requires !PairParses(r)
    ensures ParseEntries(s) == (es, r)
    decreases |es|
  {
    if es == [] {
      EntriesStop(s);
    } else {
      EntryChainFirst(s, es, r);
      var k := NameParser.Parse(Multispace0(s));
      var v := ParseObject(Multispace0(k.rest));
      EntriesUnique(v.rest, es[1..], r);
      EntriesStep(s, k.rest, v.rest, es[0], es[1..], r);
      EntryHeadTail(es);
    }
  }

  /** The empty chain of pairs. */
  lemma EntryChainNil(s: seq<byte>)
    ensures IsEntryChain(s, [], s)
  {
  }

  /** One more pair in front of a chain: whitespace, a Name, whitespace, an Object. */
  lemma EntryCons(s: seq<byte>, ws1: seq<byte>, u1: seq<byte>, t1: seq<byte>,
                  ws2: seq<byte>, u2: seq<byte>, t2: seq<byte>, es: seq<Entry>, r: seq<byte>)
    requires es != [] && s == ws1 + u1 && AllMultispace(ws1)
    requires NameParser.Parse(u1) == Success(t1, es[0].0)
    requires t1 == ws2 + u2 && AllMultispace(ws2)
    requires ParseObject(u2) == Success(t2, es[0].1)
    requires IsEntryChain(t2, es[1..], r)
    ensures IsEntryChain(s, es, r)
  {
    Multispace0Of(ws1, u1);
    ObjectAfterSpace(ws2, u2);
  }

  /** Whitespace and then `>`: no pair starts there, so the loop stops. */
  lemma EntriesEnd(s: seq<byte>, ws: seq<byte>, t: seq<byte>)
    requires s == ws + t && AllMultispace(ws)
    requires |t| > 0 && t[0] == StringParser.GREATER
    ensures ParseEntries(s) == ([], s)
  {
    Multispace0Of(ws, t);
  }

  /** A chain of pairs that ends in whitespace and `>>` is what `many0` yields. */
  lemma EntriesClosed(s: seq<byte>, es: seq<Entry>, ws: seq<byte>, rest: seq<byte>)
    requires IsEntryChain(s, es, ws + (CLOSE_DICT + rest)) && AllMultispace(ws)
    ensures ParseEntries(s) == (es, ws + (CLOSE_DICT + rest))
  {
    var close := CLOSE_DICT + rest;
    EntriesEnd(ws + close, ws, close);
    EntriesUnique(s, es, ws + close);
  }

  /** `multispace0` stops at the `>>` after the whitespace. */
  lemma SpaceThenCloseDict(ws: seq<byte>, rest: seq<byte>)
    requires AllMultispace(ws)
    ensures Multispace0(ws + (CLOSE_DICT + rest)) == CLOSE_DICT + rest
  {
    Multispace0Of(ws, CLOSE_DICT + rest);
  }

  lemma CloseDictTag(rest: seq<byte>)
    ensures Tag(CLOSE_DICT, CLOSE_DICT + rest) == Success(rest, CLOSE_DICT)
  {
    assert (CLOSE_DICT + rest)[..2] == CLOSE_DICT;
    assert (CLOSE_DICT + rest)[2..] == rest;
  }

  /** `<<`, the pairs, whitespace and `>>` make the dictionary of the
      non-null pairs. */
  lemma DictionaryClose(input: seq<byte>, es: seq<Entry>, s1: seq<byte>, rest: seq<byte>)
    requires StartsWith(input, OPEN_DICT)
    requires ParseEntries(input[2..]) == (es, s1)
    requires Multispace0(s1) == CLOSE_DICT + rest
    ensures ParseDictionary(input) == Success(rest, PdfDictionary(Collect(WithoutNulls(es))))
  {
    CloseDictTag(rest);
  }

  /** The converse of `DictionaryEntries`: `<<`, a chain of pairs,
      whitespace and `>>` parse as the map of exactly those pairs, nulls
      dropped. */
  lemma DictionaryOf(input: seq<byte>, es: seq<Entry>, ws: seq<byte>, rest: seq<byte>)
    requires StartsWith(input, OPEN_DICT)
    requires IsEntryChain(input[2..], es, ws + (CLOSE_DICT + rest)) && AllMultispace(ws)
    ensures ParseDictionary(input) == Success(rest, PdfDictionary(Collect(WithoutNulls(es))))
  {
    EntriesClosed(input[2..], es, ws, rest);
    SpaceThenCloseDict(ws, rest);
    DictionaryClose(input, es, ws + (CLOSE_DICT + rest), rest);
  }

  /** What `Dictionary::parse` yields on success: `<<`, then the pairs
      `many0` reads, then `>>` after optional whitespace. */
  lemma DictionaryParts(input: seq<byte>, rest: seq<byte>, d: PdfDictionary)
    requires ParseDictionary(input) == Success(rest, d)
    ensures StartsWith(input, OPEN_DICT)
    ensures StartsWith(Multispace0(ParseEntries(input[2..]).1), CLOSE_DICT)
    ensures d.entries == Collect(WithoutNulls(ParseEntries(input[2..]).0))
  {
    OpenDictTag(input);
  }

  /** `tag("<<")` leaves what follows the two bytes. */
  lemma OpenDictTag(input: seq<byte>)
    ensures Tag(OPEN_DICT, input).Success? ==> Tag(OPEN_DICT, input).rest == input[2..]
  {
  }

  /** A parsed dictionary is the map of the longest chain of pairs after
      its `<<`, with the null pairs dropped, and `>>` follows that chain. */
  lemma DictionaryEntries(input: seq<byte>, rest: seq<byte>, d: PdfDictionary)
    requires ParseDictionary(input) == Success(rest, d)
    ensures StartsWith(input, OPEN_DICT)
    ensures IsEntryChain(input[2..], ParseEntries(input[2..]).0, ParseEntries(input[2..]).1)
    ensures !PairParses(ParseEntries(input[2..]).1)
    ensures StartsWith(Multispace0(ParseEntries(input[2..]).1), CLOSE_DICT)
    ensures d.entries == Collect(WithoutNulls(ParseEntries(input[2..]).0))
  {
    DictionaryParts(input, rest, d);
    EntriesChain(input[2..]);
    EntriesMaximal(input[2..]);
  }

  // ---------------------------------------------------- filter and collect

  /** Filtering distributes over concatenation. */
  lemma {:induction false} WithoutNullsAppend(a: seq<Entry>, b: seq<Entry>)
    ensures WithoutNulls(a + b) == WithoutNulls(a) + WithoutNulls(b)
    decreases |a|
  {
    if a == [] {
      assert a + b == b;
    } else {
      assert (a + b)[1..] == a[1..] + b;
      WithoutNullsAppend(a[1..], b);
    }
  }

  /** The insertion order of `collect`: a pair with no later pair of the same
      key is the one whose value the map keeps. */
  lemma {:induction false} CollectLastWins(a: seq<Entry>, e: Entry, b: seq<Entry>)
    requires forall i :: 0 <= i < |b| ==> b[i].0 != e.0
    ensures e.0 in Collect(a + [e] + b) && Collect(a + [e] + b)[e.0] == e.1
    decreases |b|
  {
    var p := a + [e] + b;
    if b == [] {
      assert p[..|p| - 1] == a;
    } else {
      var b' := b[..|b| - 1];
      assert p[..|p| - 1] == a + [e] + b';
      CollectLastWins(a, e, b');
    }
  }

  /** Every key the map holds comes from a pair with that key and value and
      no later pair of the same key. */
  lemma {:induction false} CollectFrom(p: seq<Entry>, k: NameParser.Name)
    requires k in Collect(p)
    ensures exists i :: 0 <= i < |p| && p[i] == (k, Collect(p)[k]) &&
                        forall j :: i < j < |p| ==> p[j].0 != k
    decreases |p|
  {
    var last := p[|p| - 1];
    var init := p[..|p| - 1];
    if last.0 != k {
      CollectFrom(init, k);
      var i :| 0 <= i < |init| && init[i] == (k, Collect(init)[k]) &&
        forall j :: i < j < |init| ==> init[j].0 != k;
      assert p[i] == init[i];
      assert forall j :: i < j < |p| ==> p[j].0 != k by {
        forall j | i < j < |p|
          ensures p[j].0 != k
        {
          if j < |p| - 1 {
            assert p[j] == init[j];
          }
        }
      }
    } else {
      assert p[|p| - 1] == (k, Collect(p)[k]);
    }
  }

  /** No value `Collect(WithoutNulls(es))` stores is Null. */
  lemma CollectNoNull(es: seq<Entry>, k: NameParser.Name)
    requires k in Collect(WithoutNulls(es))
    ensures !Collect(WithoutNulls(es))[k].Null?
  {
    CollectFrom(WithoutNulls(es), k);
  }

  /** A key is collected exactly when some pair with that key has a
      non-null value. */
  lemma CollectKeys(es: seq<Entry>, k: NameParser.Name)
    ensures k in Collect(WithoutNulls(es)) <==> exists i :: 0 <= i < |es| && es[i].0 == k && !es[i].1.Null?
  {
    var p := WithoutNulls(es);
    if k in Collect(p) {
      var i :| 0 <= i < |p| && p[i].0 == k;
      assert p[i] in es;
      var j :| 0 <= j < |es| && es[j] == p[i];
    }
  }

  lemma WithoutNullsSingle(e: Entry)
    requires !e.1.Null?
    ensures WithoutNulls([e]) == [e]
  {
    assert [e][1..] == [];
  }

  lemma SplitAt(es: seq<Entry>, i: nat)
    requires i < |es|
    ensures es == es[..i] + [es[i]] + es[i + 1..]
  {
  }

  /** Filtering around a non-null pair keeps it in place. */
  lemma FilterAround(es: seq<Entry>, i: nat)
    requires i < |es| && !es[i].1.Null?
    ensures WithoutNulls(es) == WithoutNulls(es[..i]) + [es[i]] + WithoutNulls(es[i + 1..])
  {
    var a, e, b := es[..i], es[i], es[i + 1..];
    SplitAt(es, i);
    WithoutNullsAppend(a + [e], b);
    WithoutNullsAppend(a, [e]);
    WithoutNullsSingle(e);
  }

  /** A key whose pairs are all null is absent after filtering. */
  lemma FilterDropsKey(b: seq<Entry>, k: NameParser.Name)
    requires forall j :: 0 <= j < |b| && b[j].0 == k ==> b[j].1.Null?
    ensures forall j :: 0 <= j < |WithoutNulls(b)| ==> WithoutNulls(b)[j].0 != k
  {
    var wb := WithoutNulls(b);
    forall j | 0 <= j < |wb|
      ensures wb[j].0 != k
    {
      assert wb[j] in b;
    }
  }

  /** The last non-null pair of a key is the value collected for it. */
  lemma CollectLastNonNull(es: seq<Entry>, i: nat)
    requires i < |es| && !es[i].1.Null?
    requires forall j :: i < j < |es| && es[j].0 == es[i].0 ==> es[j].1.Null?
    ensures es[i].0 in Collect(WithoutNulls(es)) && Collect(WithoutNulls(es))[es[i].0] == es[i].1
  {
    FilterAround(es, i);
    var b := es[i + 1..];
    assert forall j :: 0 <= j < |b| && b[j].0 == es[i].0 ==> b[j].1.Null? by {
      forall j | 0 <= j < |b| && b[j].0 == es[i].0
        ensures b[j].1.Null?
      {
        assert b[j] == es[i + 1 + j];
      }
    }
    FilterDropsKey(b, es[i].0);
    CollectLastWins(WithoutNulls(es[..i]), es[i], WithoutNulls(b));
  }

  /** No value stored in a parsed dictionary is Null. */
  lemma NoNullStored(input: seq<byte>, rest: seq<byte>, d: PdfDictionary, k: NameParser.Name)
    requires ParseDictionary(input) == Success(rest, d) && k in d.entries
    ensures !d.entries[k].Null?
  {
    DictionaryParts(input, rest, d);
    CollectNoNull(ParseEntries(input[2..]).0, k);
  }

  /** A key is in the parsed dictionary exactly when some pair with that key
      has a non-null value. */
  lemma DictionaryKeys(input: seq<byte>, rest: seq<byte>, d: PdfDictionary, k: NameParser.Name)
    requires ParseDictionary(input) == Success(rest, d)
    ensures k in d.entries <==>
      exists i :: 0 <= i < |ParseEntries(input[2..]).0| &&
                  ParseEntries(input[2..]).0[i].0 == k && !ParseEntries(input[2..]).0[i].1.Null?
  {
    DictionaryParts(input, rest, d);
    CollectKeys(ParseEntries(input[2..]).0, k);
  }

  /** For a key read more than once, the last non-null pair wins: a pair
      with a non-null value and only null pairs of the same key after it is
      what `get` returns. */
  lemma DictionaryLastWins(input: seq<byte>, rest: seq<byte>, d: PdfDictionary, i: nat)
    requires ParseDictionary(input) == Success(rest, d)
    requires i < |ParseEntries(input[2..]).0| && !ParseEntries(input[2..]).0[i].1.Null?
    requires forall j :: i < j < |ParseEntries(input[2..]).0| && ParseEntries(input[2..]).0[j].0 == ParseEntries(input[2..]).0[i].0 ==>
      ParseEntries(input[2..]).0[j].1.Null?
    ensures Get(d, ParseEntries(input[2..]).0[i].0) == Some(ParseEntries(input[2..]).0[i].1)
  {
    DictionaryParts(input, rest, d);
    CollectLastNonNull(ParseEntries(input[2..]).0, i);
  }

  // ------------------------------------------------------------- failures

  /** Without a `>` anywhere in the input there is no dictionary. */
  lemma DictionaryUnclosed(input: seq<byte>)
    requires StringParser.GREATER !in input
    ensures ParseDictionary(input).Failure?
  {
    if ParseDictionary(input).Success? {
      PrecedesContains(CLOSE_DICT, ParseDictionary(input).rest, input);
    }
  }

  /** A key whose value does not parse ends the pairs at that key, and the
      key's `/` then stands where `>>` is required: wherever the pairs read
      so far end in a Name not followed by an object, there is no
      dictionary. */
  lemma KeyWithoutObject(input: seq<byte>, es: seq<Entry>, r: seq<byte>)
    requires StartsWith(input, OPEN_DICT)
    requires IsEntryChain(input[2..], es, r)
    requires NameParser.Parse(Multispace0(r)).Success?
    requires ParseObject(Multispace0(NameParser.Parse(Multispace0(r)).rest)).Failure?
    ensures ParseDictionary(input).Failure?
  {
    EntriesUnique(input[2..], es, r);
    assert Multispace0(r)[0] == SLASH;
    if ParseDictionary(input).Success? {
      DictionaryParts(input, ParseDictionary(input).rest, ParseDictionary(input).value);
    }
  }

  /** The simplest such case: `<</Key>>` is not a dictionary. */
  lemma DanglingKey(input: seq<byte>, key: seq<byte>)
    requires NameParser.IsBody(key)
    requires input == OPEN_DICT + ([SLASH] + key + CLOSE_DICT)
    ensures ParseDictionary(input).Failure?
  {
    var s := [SLASH] + key + CLOSE_DICT;
    assert input[..2] == OPEN_DICT && input[2..] == s;
    NameParser.RoundTrip(key, CLOSE_DICT);
    Multispace0Of([], s);
    assert [] + s == s;
    Multispace0Of([], CLOSE_DICT);
    assert [] + CLOSE_DICT == CLOSE_DICT;
    ObjectRejectsCloser(CLOSE_DICT);
    assert ParseEntries(s) == ([], s);
  }
}
