/** The bracket scanner of literal strings (src/objects/string.rs
    `take_until_unbalanced_bracket`). */
module Brackets {
  import opened Parsing

  const LPAREN: byte := 40
  const RPAREN: byte := 41

  /** The scanner's two variables: the bracket depth and whether the
      previous byte was an escaping backslash. */
  datatype ScanState = ScanState(balance: int, escaped: bool)

  /** One iteration of the scanner's loop on byte `c`. */
  function ScanByte(st: ScanState, c: byte): ScanState {
    if c == LPAREN && !st.escaped then ScanState(st.balance + 1, false)
    else if c == RPAREN && !st.escaped then ScanState(st.balance - 1, false)
    else if c == BACKSLASH then ScanState(st.balance, !st.escaped)
    else ScanState(st.balance, false)
  }

  /** The state after the loop body has run on every byte of `s`, in order. */
  function Scan(s: seq<byte>): ScanState
    decreases |s|
  {
    if |s| == 0 then ScanState(0, false) else ScanByte(Scan(s[..|s| - 1]), s[|s| - 1])
  }

  lemma ScanAppend(s: seq<byte>, c: byte)
    ensures Scan(s + [c]) == ScanByte(Scan(s), c)
  {
    assert (s + [c])[..|s|] == s;
  }

  /** Depth after the first `j + 1` bytes. */
  function DepthAt(s: seq<byte>, j: nat): int
    requires j < |s|
  {
    Scan(s[..j + 1]).balance
  }

  /** The first index at which the depth reaches -1, searching from `from`. */
  function ClosingFrom(s: seq<byte>, from: nat): (r: Option<nat>)
    requires from <= |s|
    ensures r.Some? ==> from <= r.value < |s| && DepthAt(s, r.value) == -1
    ensures r.Some? ==> forall j :: from <= j < r.value ==> DepthAt(s, j) != -1
    ensures r.None? ==> forall j :: from <= j < |s| ==> DepthAt(s, j) != -1
    decreases |s| - from
  {
    if from == |s| then None
    else if DepthAt(s, from) == -1 then Some(from)
    else ClosingFrom(s, from + 1)
  }

  /** The index of the `)` that closes the string, if any. */
  function ClosingIndex(s: seq<byte>): (r: Option<nat>)
    ensures r.Some? ==> r.value < |s| && DepthAt(s, r.value) == -1
    ensures r.Some? ==> forall j :: 0 <= j < r.value ==> DepthAt(s, j) != -1
    ensures r.None? ==> forall j :: 0 <= j < |s| ==> DepthAt(s, j) != -1
  {
    ClosingFrom(s, 0)
  }

  /** What `take_until_unbalanced_bracket` returns: the text before the
      closing `)`, and the rest starting with it; an error if there is none. */
  function TakeUnbalanced(s: seq<byte>): (r: ParseResult<seq<byte>>)
    ensures r.Success? <==> ClosingIndex(s).Some?
    ensures r.Success? ==> s == r.value + r.rest && |r.rest| > 0 && r.rest[0] == RPAREN
    ensures r.Success? ==> Scan(r.value).balance == 0 && !Scan(r.value).escaped
  {
    match ClosingIndex(s)
    case None => Failure(EmptyRun)
    case Some(k) =>
      ClosingIsUnescapedParen(s, k);
      assert s == s[..k] + s[k..];
      Success(s[k..], s[..k])
  }

  /** `take_until_unbalanced_bracket` as written: the loop over the bytes,
      stopping at the first depth of -1. */
  method TakeUntilUnbalancedBracket(input: seq<byte>) returns (r: ParseResult<seq<byte>>)
    ensures r == TakeUnbalanced(input)
  {
    var balance: int := 0;
    var isEscaped := false;
    var index: nat := 0;
    var i: nat := 0;
    while i < |input|
      invariant i <= |input|
      invariant ScanState(balance, isEscaped) == Scan(input[..i])
      invariant forall j :: 0 <= j < i ==> DepthAt(input, j) != -1
    {
      var c := input[i];
      if c == LPAREN && !isEscaped {
        balance := balance + 1;
        isEscaped := false;
      } else if c == RPAREN && !isEscaped {
        balance := balance - 1;
        isEscaped := false;
      } else if c == BACKSLASH {
        isEscaped := !isEscaped;
      } else {
        isEscaped := false;
      }
      assert input[..i + 1] == input[..i] + [c];
      ScanAppend(input[..i], c);
      if balance == -1 {
        index := i;
        break;
      }
      i := i + 1;
    }
    if balance != -1 {
      assert i == |input|;
      return Failure(EmptyRun);
    }
    assert i < |input| && DepthAt(input, i) == -1 && index == i;
    r := Success(input[index..], input[..index]);
  }

  /** The depth moves by at most one per byte, and goes down only at an
      unescaped `)`. */
  lemma DepthStep(s: seq<byte>, j: nat)
    requires j + 1 < |s|
    ensures DepthAt(s, j) - 1 <= DepthAt(s, j + 1) <= DepthAt(s, j) + 1
    ensures DepthAt(s, j + 1) < DepthAt(s, j) ==> s[j + 1] == RPAREN && !Scan(s[..j + 1]).escaped
  {
    assert s[..j + 2][..j + 1] == s[..j + 1];
  }

  /** Before the closing index the depth is never negative. */
  lemma {:induction false} DepthNonNegative(s: seq<byte>, k: nat, j: nat)
    requires k < |s| && forall i :: 0 <= i < k ==> DepthAt(s, i) != -1
    requires j < k
    ensures DepthAt(s, j) >= 0
  {
    if j == 0 {
      assert s[..1] == [] + [s[0]];
      ScanAppend([], s[0]);
      assert DepthAt(s, 0) != -1;
    } else {
      DepthNonNegative(s, k, j - 1);
      DepthStep(s, j - 1);
    }
  }

  /** The closing index holds a `)` that no backslash escapes, and the depth
      before it is zero. */
  lemma ClosingIsUnescapedParen(s: seq<byte>, k: nat)
    requires ClosingIndex(s) == Some(k)
    ensures s[k] == RPAREN
    ensures Scan(s[..k]).balance == 0 && !Scan(s[..k]).escaped
  {
    assert s[..k + 1] == s[..k] + [s[k]];
    ScanAppend(s[..k], s[k]);
    if k > 0 {
      DepthNonNegative(s, k, k - 1);
      assert s[..k - 1 + 1] == s[..k];
    }
  }

  /** A backslash flips the escape flag and leaves the depth alone. */
  lemma BackslashToggles(s: seq<byte>)
    ensures Scan(s + [BACKSLASH]) == ScanState(Scan(s).balance, !Scan(s).escaped)
  {
    ScanAppend(s, BACKSLASH);
  }

  /** An escaped bracket leaves the depth alone: after an unescaped
      backslash, neither `(` nor `)` changes it. */
  lemma EscapedBracketKeepsDepth(s: seq<byte>, c: byte)
    requires !Scan(s).escaped && (c == LPAREN || c == RPAREN)
    ensures Scan(s + [BACKSLASH, c]) == ScanState(Scan(s).balance, false)
  {
    BackslashToggles(s);
    assert s + [BACKSLASH, c] == (s + [BACKSLASH]) + [c];
    ScanAppend(s + [BACKSLASH], c);
  }

  /** An unescaped `(` raises the depth by one and an unescaped `)` lowers it by one. */
  lemma BracketsMoveDepth(s: seq<byte>)
    requires !Scan(s).escaped
    ensures Scan(s + [LPAREN]) == ScanState(Scan(s).balance + 1, false)
    ensures Scan(s + [RPAREN]) == ScanState(Scan(s).balance - 1, false)
  {
    ScanAppend(s, LPAREN);
    ScanAppend(s, RPAREN);
  }

  /** Text without brackets, and not ending in a backslash, keeps depth 0
      and leaves no escape pending. */
  lemma {:induction false} ScanPlain(s: seq<byte>)
    requires forall k :: 0 <= k < |s| ==> s[k] != LPAREN && s[k] != RPAREN
    ensures Scan(s).balance == 0
    ensures |s| > 0 && s[|s| - 1] != BACKSLASH ==> !Scan(s).escaped
    ensures |s| == 0 ==> !Scan(s).escaped
    decreases |s|
  {
    if |s| > 0 {
      ScanPlain(s[..|s| - 1]);
    }
  }

  /** Text whose depth never drops below zero, which ends at depth zero with
      no escape pending, is taken whole when a `)` follows it. */
  lemma TakeBalanced(s: seq<byte>, rest: seq<byte>)
    requires forall j :: 0 <= j < |s| ==> DepthAt(s, j) >= 0
    requires Scan(s) == ScanState(0, false)
    ensures TakeUnbalanced(s + [RPAREN] + rest) == Success([RPAREN] + rest, s)
  {
    var x := s + ([RPAREN] + rest);
    assert x == s + [RPAREN] + rest;
    forall j | 0 <= j < |s|
      ensures DepthAt(x, j) != -1
    {
      DepthOfPrefix(s, [RPAREN] + rest, j);
    }
    assert x[..|s| + 1] == s + [RPAREN];
    ScanAppend(s, RPAREN);
    ClosingIndexIs(x, |s|);
    assert x[..|s|] == s && x[|s|..] == [RPAREN] + rest;
  }

  /** The closing index is the one index where the depth first reaches -1. */
  lemma ClosingIndexIs(s: seq<byte>, k: nat)
    requires k < |s| && DepthAt(s, k) == -1
    requires forall j :: 0 <= j < k ==> DepthAt(s, j) != -1
    ensures ClosingIndex(s) == Some(k)
  {
  }

  /** Appending bytes leaves the depths of the earlier prefixes alone. */
  lemma DepthOfPrefix(s: seq<byte>, t: seq<byte>, j: nat)
    requires j < |s|
    ensures DepthAt(s + t, j) == DepthAt(s, j)
  {
    assert (s + t)[..j + 1] == s[..j + 1];
  }

  /** Text without brackets that does not end in a backslash is taken whole
      when a `)` follows it. */
  lemma TakePlain(s: seq<byte>, rest: seq<byte>)
    requires forall k :: 0 <= k < |s| ==> s[k] != LPAREN && s[k] != RPAREN
    requires |s| == 0 || s[|s| - 1] != BACKSLASH
    ensures TakeUnbalanced(s + [RPAREN] + rest) == Success([RPAREN] + rest, s)
  {
    forall j | 0 <= j < |s|
      ensures DepthAt(s, j) >= 0
    {
      ScanPlain(s[..j + 1]);
    }
    ScanPlain(s);
    TakeBalanced(s, rest);
  }
}
