/** Byte buffers, parse results, and the handful of nom combinators the object
    parsers are built from (`tag`, `char`, `take_while`, `multispace0`,
    `multispace1`, `take_until`). Every parser takes the input buffer and, on
    success, returns the unconsumed remainder together with the parsed value. */
module Parsing {

  /** One byte of the input buffer (Rust `u8`). */
  newtype byte = b: int | 0 <= b < 256

  datatype Option<T> = None | Some(value: T)

  /** The nom error kinds the parsers report; only the fact of failure matters
      to the callers, the kind is kept for readability. */
  datatype ErrorKind =
    | TagMismatch    // nom `Tag`: `tag` did not match
    | CharMismatch   // nom `Char`: `char` did not match
    | EmptyRun       // nom `TakeWhile1`: a one-or-more run was empty; also the bracket scanner's error
    | NoTerminator   // nom `TakeUntil`: `take_until` found no terminator
    | NoSpace        // nom `MultiSpace`: `multispace1` found no whitespace
    | NoDigit        // nom `Digit`: `digit1` found no digit
    | Rejected       // nom `Verify`: a `verify` predicate rejected the match
    | MapResFailed   // nom `MapRes`: the function given to `map_res` failed
    | MapOptFailed   // nom `MapOpt`: the function given to `map_opt` returned None
    | BadLength      // nom `TakeWhileMN`: the stream payload could not be sliced

  /** nom's `IResult`: the remainder and the value, or an error. */
  datatype ParseResult<T> = Success(rest: seq<byte>, value: T) | Failure(kind: ErrorKind)

  const TAB: byte := 9
  const LF: byte := 10
  const CR: byte := 13
  const SPACE: byte := 32
  const PLUS: byte := 43
  const MINUS: byte := 45
  const DOT: byte := 46
  const SLASH: byte := 47
  const ZERO: byte := 48
  const BACKSLASH: byte := 92

  /** `rest` is what is left of `input` after a prefix has been consumed. */
  predicate IsSuffix(rest: seq<byte>, input: seq<byte>) {
    |rest| <= |input| && rest == input[|input| - |rest|..]
  }

  /** The consumed prefix, given the remainder. */
  function Consumed(input: seq<byte>, rest: seq<byte>): seq<byte>
    requires |rest| <= |input|
  {
    input[..|input| - |rest|]
  }

  lemma SuffixTransitive(a: seq<byte>, b: seq<byte>, c: seq<byte>)
    requires IsSuffix(a, b) && IsSuffix(b, c)
    ensures IsSuffix(a, c)
  {
    assert c[|c| - |b|..][|b| - |a|..] == c[|c| - |a|..];
  }

  predicate IsAscii(s: string) {
    forall i :: 0 <= i < |s| ==> s[i] as int < 128
  }

  /** The bytes of an ASCII string literal, as Rust's `b"..."`. */
  function B(s: string): (r: seq<byte>)
    requires IsAscii(s)
    ensures |r| == |s|
    ensures forall i :: 0 <= i < |s| ==> r[i] as int == s[i] as int
  {
    seq(|s|, i requires 0 <= i < |s| => s[i] as int as byte)
  }

  /** Concatenation regrouped; stated once so that callers need not ask the
      solver for sequence extensionality in a large context. */
  lemma Associate(a: seq<byte>, b: seq<byte>, c: seq<byte>)
    ensures a + b + c == a + (b + c)
  {
  }

  /** The same for four pieces, the last three grouped on the left. */
  lemma Associate4(a: seq<byte>, b: seq<byte>, c: seq<byte>, d: seq<byte>)
    ensures a + (b + c + d) == a + b + c + d
  {
  }

  /** A non-empty buffer is its first byte and the rest. */
  lemma Cons(s: seq<byte>)
    requires |s| > 0
    ensures s == [s[0]] + s[1..]
  {
  }

  /** The bytes of two literals joined are the two byte strings joined. */
  lemma BConcat(a: string, b: string)
    requires IsAscii(a) && IsAscii(b)
    ensures IsAscii(a + b) && B(a + b) == B(a) + B(b)
  {
  }

  predicate StartsWith(s: seq<byte>, prefix: seq<byte>) {
    |prefix| <= |s| && s[..|prefix|] == prefix
  }

  /** `tag(t)`: an exact prefix match, no whitespace skipped. */
  function Tag(t: seq<byte>, s: seq<byte>): (r: ParseResult<seq<byte>>)
    ensures r.Success? <==> StartsWith(s, t)
    ensures r.Success? ==> s == t + r.rest && r.value == t
  {
    if StartsWith(s, t) then
      assert s == t + s[|t|..];
      Success(s[|t|..], t)
    else Failure(TagMismatch)
  }

  /** `char(c)`: the first byte must be `c`. */
  function Char(c: byte, s: seq<byte>): (r: ParseResult<byte>)
    ensures r.Success? <==> |s| > 0 && s[0] == c
    ensures r.Success? ==> s == [c] + r.rest && r.value == c
  {
    if |s| > 0 && s[0] == c then Success(s[1..], c) else Failure(CharMismatch)
  }

  /** The whitespace set of nom's `multispace0`/`multispace1`. */
  predicate IsMultispace(c: byte) {
    c == SPACE || c == TAB || c == CR || c == LF
  }

  predicate IsDigit(c: byte) {
    ZERO <= c <= ZERO + 9
  }

  /** `take_while(p)`: splits `s` into its longest prefix whose bytes all
      satisfy `p`, and the rest. */
  function Span(s: seq<byte>, p: byte -> bool): (r: (seq<byte>, seq<byte>))
    ensures r.0 + r.1 == s
    ensures forall i :: 0 <= i < |r.0| ==> p(r.0[i])
    ensures r.1 == [] || !p(r.1[0])
  {
    if |s| > 0 && p(s[0]) then
      var (run, rest) := Span(s[1..], p);
      assert [s[0]] + s[1..] == s;
      ([s[0]] + run, rest)
    else ([], s)
  }

  /** The split of `take_while` is unique: a run of `p` bytes followed by a
      byte outside `p` (or by nothing) is exactly what `Span` returns. */
  lemma {:induction false} SpanOf(run: seq<byte>, rest: seq<byte>, p: byte -> bool)
    requires forall i :: 0 <= i < |run| ==> p(run[i])
    requires rest == [] || !p(rest[0])
    ensures Span(run + rest, p) == (run, rest)
  {
    if run != [] {
      assert (run + rest)[0] == run[0] && (run + rest)[1..] == run[1..] + rest;
      SpanOf(run[1..], rest, p);
      assert [run[0]] + run[1..] == run;
    } else {
      assert run + rest == rest;
    }
  }

  /** `multispace0`: skips the longest run of whitespace; never fails. */
  function Multispace0(s: seq<byte>): (rest: seq<byte>)
    ensures IsSuffix(rest, s)
    ensures forall i :: 0 <= i < |s| - |rest| ==> IsMultispace(s[i])
    ensures rest == [] || !IsMultispace(rest[0])
  {
    if |s| > 0 && IsMultispace(s[0]) then
      var rest := Multispace0(s[1..]);
      assert s[1..][|s[1..]| - |rest|..] == s[|s| - |rest|..];
      assert forall i :: 1 <= i < |s| - |rest| ==> s[i] == s[1..][i - 1];
      rest
    else s
  }

  /** Skipping whitespace is exact: a whitespace run followed by anything
      that does not start with whitespace leaves exactly that. */
  lemma {:induction false} Multispace0Of(ws: seq<byte>, rest: seq<byte>)
    requires forall i :: 0 <= i < |ws| ==> IsMultispace(ws[i])
    requires rest == [] || !IsMultispace(rest[0])
    ensures Multispace0(ws + rest) == rest
  {
    if ws != [] {
      assert (ws + rest)[1..] == ws[1..] + rest;
      Multispace0Of(ws[1..], rest);
    } else {
      assert ws + rest == rest;
    }
  }

  /** `multispace1`: like `multispace0`, but at least one whitespace byte is required. */
  function Multispace1(s: seq<byte>): (r: ParseResult<()>)
    ensures r.Success? <==> |s| > 0 && IsMultispace(s[0])
    ensures r.Success? ==> r.rest == Multispace0(s) && |r.rest| < |s|
  {
    if |s| > 0 && IsMultispace(s[0]) then Success(Multispace0(s), ()) else Failure(NoSpace)
  }

  /** The index of the first occurrence of `c` in `s`, if any (`take_until`
      with a one-byte terminator). */
  function IndexOf(s: seq<byte>, c: byte): (r: Option<nat>)
    ensures r.Some? ==> r.value < |s| && s[r.value] == c
    ensures r.Some? ==> forall j :: 0 <= j < r.value ==> s[j] != c
    ensures r.None? ==> forall j :: 0 <= j < |s| ==> s[j] != c
  {
    if |s| == 0 then None
    else if s[0] == c then Some(0)
    else match IndexOf(s[1..], c)
      case None => None
      case Some(k) => Some(k + 1)
  }
}
