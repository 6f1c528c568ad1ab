/** What the reverse rewriter of src/objects/string.rs computes.

    `Unescape` below is a left-to-right reading of the same function, and
    `RewriteIsUnescape` proves the two equal on every input. The left-to-right
    form makes plain what the right-to-left loop does:
    - after a line continuation (a backslash followed by CR or LF), every CR
      and LF at the front of the ALREADY REWRITTEN rest is dropped, including
      newlines that later `\n` or `\r` escapes produced;
    - `\\` only drops the first backslash; the second one is then read as the
      start of an escape of its own, so `\\n` becomes a newline. */
module EscapeFacts {
  import opened Parsing
  import opened Escapes

  function Prepend(p: seq<byte>, o: Option<seq<byte>>): (r: Option<seq<byte>>)
    ensures r.Some? <==> o.Some?
    ensures r.Some? ==> r.value == p + o.value
  {
    match o
    case None => None
    case Some(x) => Some(p + x)
  }

  predicate NoBackslash(s: seq<byte>) {
    forall k :: 0 <= k < |s| ==> s[k] != BACKSLASH
  }

  /** The escape rewriter read from left to right. */
  function Unescape(s: seq<byte>): Option<seq<byte>>
    decreases |s|
  {
    if |s| == 0 then Some([])
    else if s[0] != BACKSLASH then Prepend([s[0]], Unescape(s[1..]))
    else if |s| == 1 then Some(s)
    else
      var esc := s[1];
      if IsLineBreak(esc) then
        match Unescape(s[2..])
        case None => None
        case Some(u) => Some(DropLineBreaks(u, 0))
      else if NamedEscape(esc).Some? then Prepend([NamedEscape(esc).value], Unescape(s[2..]))
      else if esc == BACKSLASH then Unescape(s[1..])
      else if IsOctalDigit(esc) then
        match OctalEscape(s, 0)
        case None => None
        case Some((n, b)) => Prepend([n], Unescape(s[b as nat + 2..]))
      else Prepend([BACKSLASH, esc], Unescape(s[2..]))
  }

  // Moving the rewriter over a prefix that is only carried along.

  lemma {:induction false} NextBackslashShift(p: seq<byte>, q: seq<byte>, k: nat)
    requires k <= |q|
    ensures NextBackslash(p + q, |p| + k) == |p| + NextBackslash(q, k)
    decreases |q| - k
  {
    if k < |q| {
      assert (p + q)[|p| + k] == q[k];
      if q[k] != BACKSLASH {
        NextBackslashShift(p, q, k + 1);
      }
    }
  }

  lemma ReadyShift(p: seq<byte>, q: seq<byte>, r: seq<byte>, k: nat)
    requires Ready(q, r, k)
    ensures Ready(p + q, p + r, |p| + k)
  {
    NextBackslashShift(p, q, k);
    var f := NextBackslash(q, k);
    assert (p + r)[..|p| + f] == p + r[..f];
    assert (p + q)[..|p| + f] == p + q[..f];
  }

  lemma {:induction false} DropShift(p: seq<byte>, r: seq<byte>, j: nat)
    requires j <= |r|
    ensures DropLineBreaks(p + r, |p| + j) == p + DropLineBreaks(r, j)
    decreases |r|
  {
    assert (p + r)[|p|..] == r;
    if j < |r| && IsLineBreak(r[j]) {
      RemoveShift(p, r, j);
      DropShift(p, Remove(r, j), j);
    }
  }

  lemma RemoveShift(p: seq<byte>, x: seq<byte>, j: nat)
    requires j < |x|
    ensures Remove(p + x, |p| + j) == p + Remove(x, j)
  {
    assert (p + x)[..|p| + j] == p + x[..j];
    assert (p + x)[|p| + j + 1..] == x[j + 1..];
  }

  lemma InsertShift(p: seq<byte>, x: seq<byte>, j: nat, c: byte)
    requires j <= |x|
    ensures Insert(p + x, |p| + j, c) == p + Insert(x, j, c)
  {
    assert (p + x)[..|p| + j] == p + x[..j];
    assert (p + x)[|p| + j..] == x[j..];
  }

  lemma RemoveTimesShift(p: seq<byte>, x: seq<byte>, j: nat, count: nat)
    requires j + count <= |x|
    ensures RemoveTimes(p + x, |p| + j, count) == p + RemoveTimes(x, j, count)
  {
    assert (p + x)[..|p| + j] == p + x[..j];
    assert (p + x)[|p| + j + count..] == x[j + count..];
  }

  lemma OctalShift(p: seq<byte>, q: seq<byte>, j: nat)
    requires j + 1 < |q| && IsOctalDigit(q[j + 1])
    ensures (p + q)[|p| + j + 1] == q[j + 1]
    ensures OctalEscape(p + q, |p| + j) == OctalEscape(q, j)
  {
    assert ByteAt(p + q, |p| + j + 2) == ByteAt(q, j + 2);
    assert ByteAt(p + q, |p| + j + 3) == ByteAt(q, j + 3);
  }

  lemma StepShiftOctal(p: seq<byte>, q: seq<byte>, r: seq<byte>, j: nat)
    requires j + 1 < |q| && Ready(q, r, j + 1) && q[j] == BACKSLASH && IsOctalDigit(q[j + 1])
    requires Ready(p + q, p + r, |p| + j + 1)
    ensures Step(p + q, p + r, |p| + j) == Prepend(p, Step(q, r, j))
  {
    assert (p + q)[|p| + j] == q[j];
    OctalShift(p, q, j);
    StepOctal(p + q, p + r, |p| + j);
    StepOctal(q, r, j);
    var o := OctalEscape(q, j);
    if o.Some? {
      ShiftOctalEdit(p, r, j, o.value.0, o.value.1);
    }
  }

  /** The octal arm of one iteration: the error, or the digits and the
      backslash replaced by the value. */
  lemma StepOctal(input: seq<byte>, res: seq<byte>, i: nat)
    requires i + 1 < |input| && Ready(input, res, i + 1)
    requires input[i] == BACKSLASH && IsOctalDigit(input[i + 1])
    ensures OctalEscape(input, i).None? ==> Step(input, res, i) == None
    ensures OctalEscape(input, i).Some? ==>
              var (n, b) := OctalEscape(input, i).value;
              i + 2 + b as nat <= |res| &&
              Step(input, res, i) == Some(Insert(RemoveTimes(Remove(res, i), i, b as nat + 1), i, n))
  {
    if OctalEscape(input, i).Some? {
      OctalBound(input, i);
    }
  }

  lemma ShiftOctalEdit(p: seq<byte>, r: seq<byte>, j: nat, n: byte, b: byte)
    requires j + 2 + b as nat <= |r|
    ensures Insert(RemoveTimes(Remove(p + r, |p| + j), |p| + j, b as nat + 1), |p| + j, n) ==
            p + Insert(RemoveTimes(Remove(r, j), j, b as nat + 1), j, n)
  {
    RemoveShift(p, r, j);
    RemoveTimesShift(p, Remove(r, j), j, b as nat + 1);
    InsertShift(p, RemoveTimes(Remove(r, j), j, b as nat + 1), j, n);
  }

  lemma StepShiftNamed(p: seq<byte>, q: seq<byte>, r: seq<byte>, j: nat)
    requires j + 1 < |q| && Ready(q, r, j + 1) && q[j] == BACKSLASH && NamedEscape(q[j + 1]).Some?
    requires Ready(p + q, p + r, |p| + j + 1)
    ensures Step(p + q, p + r, |p| + j) == Prepend(p, Step(q, r, j))
  {
    var input, i := p + q, |p| + j;
    assert input[i] == q[j] && input[i + 1] == q[j + 1];
    var c := NamedEscape(q[j + 1]).value;
    RemoveShift(p, r, j);
    RemoveShift(p, Remove(r, j), j);
    InsertShift(p, Remove(Remove(r, j), j), j, c);
  }

  lemma StepShift(p: seq<byte>, q: seq<byte>, r: seq<byte>, j: nat)
    requires j < |q| && Ready(q, r, j + 1)
    ensures Ready(p + q, p + r, |p| + j + 1)
    ensures Step(p + q, p + r, |p| + j) == Prepend(p, Step(q, r, j))
  {
    ReadyShift(p, q, r, j + 1);
    var input, i := p + q, |p| + j;
    assert input[i] == q[j];
    if q[j] == BACKSLASH && j + 1 < |q| {
      var esc := q[j + 1];
      assert input[i + 1] == esc;
      if IsLineBreak(esc) {
        RemoveShift(p, r, j);
        DropShift(p, Remove(r, j), j);
      } else if NamedEscape(esc).Some? {
        StepShiftNamed(p, q, r, j);
      } else if esc == BACKSLASH {
        RemoveShift(p, r, j);
      } else if IsOctalDigit(esc) {
        StepShiftOctal(p, q, r, j);
      }
    }
  }

  lemma {:induction false} RewriteShift(p: seq<byte>, q: seq<byte>, r: seq<byte>, hi: nat)
    requires Ready(q, r, hi)
    ensures Ready(p + q, p + r, |p| + hi)
    ensures Rewrite(p + q, p + r, |p| + hi, |p|) == Prepend(p, Rewrite(q, r, hi, 0))
    decreases hi
  {
    ReadyShift(p, q, r, hi);
    if hi > 0 {
      var j := hi - 1;
      var a, b := p + q, p + r;
      StepShift(p, q, r, j);
      var s := Step(q, r, j);
      if s.None? {
        StepFails(a, b, |p| + j, |p|);
        StepFails(q, r, j, 0);
      } else {
        var next := s.value;
        RewriteShift(p, q, next, j);
        StepsAgree(p, a, b, p + next, |p| + j, |p|, q, r, next, j);
      }
    }
  }

  /** An iteration that fails ends the loop with the failure. */
  lemma StepFails(a: seq<byte>, b: seq<byte>, k: nat, lo: nat)
    requires lo <= k < |a| && Ready(a, b, k + 1) && Step(a, b, k) == None
    ensures Rewrite(a, b, k + 1, lo) == None
  {
    RewriteUnfold(a, b, k, lo);
  }

  /** Two loops whose rests agree up to the prefix `p` agree one iteration
      earlier as well. */
  lemma StepsAgree(p: seq<byte>, a: seq<byte>, b: seq<byte>, c: seq<byte>, k: nat, lo: nat,
                   q: seq<byte>, r: seq<byte>, next: seq<byte>, j: nat)
    requires lo <= k < |a| && Ready(a, b, k + 1) && Step(a, b, k) == Some(c)
    requires j < |q| && Ready(q, r, j + 1) && Step(q, r, j) == Some(next)
    requires Rewrite(a, c, k, lo) == Prepend(p, Rewrite(q, next, j, 0))
    ensures Rewrite(a, b, k + 1, lo) == Prepend(p, Rewrite(q, r, j + 1, 0))
  {
    RewriteUnfold(a, b, k, lo);
    RewriteUnfold(q, r, j, 0);
  }

  /** One iteration of the reverse loop, then the rest of it. */
  lemma RewriteUnfold(input: seq<byte>, res: seq<byte>, i: nat, lo: nat)
    requires lo <= i < |input| && Ready(input, res, i + 1)
    ensures Rewrite(input, res, i + 1, lo) ==
            match Step(input, res, i)
            case None => None
            case Some(next) => Rewrite(input, next, i, lo)
  {
  }

  /** Running the loop down to `lo` is running it down to `mid` and then on. */
  lemma {:induction false} RewriteSplit(input: seq<byte>, res: seq<byte>, hi: nat, mid: nat, lo: nat)
    requires lo <= mid <= hi && Ready(input, res, hi)
    ensures Rewrite(input, res, hi, lo) ==
            match Rewrite(input, res, hi, mid)
            case None => None
            case Some(m) => Rewrite(input, m, mid, lo)
    decreases hi
  {
    if hi > mid {
      var i := hi - 1;
      RewriteUnfold(input, res, i, lo);
      RewriteUnfold(input, res, i, mid);
      var s := Step(input, res, i);
      if s.Some? {
        RewriteSplit(input, s.value, i, mid, lo);
      }
    }
  }

  /** Indices that hold no backslash leave the working copy alone. */
  lemma {:induction false} RewritePlain(input: seq<byte>, res: seq<byte>, hi: nat, lo: nat)
    requires lo <= hi && Ready(input, res, hi)
    requires forall k :: lo <= k < hi ==> input[k] != BACKSLASH
    ensures Rewrite(input, res, hi, lo) == Some(res)
    decreases hi
  {
    if hi > lo {
      RewritePlain(input, res, hi - 1, lo);
    }
  }

  lemma FullyReady(s: seq<byte>)
    ensures Ready(s, s, |s|)
  {
    assert NextBackslash(s, |s|) == |s|;
  }

  /** A prefix without backslashes comes through the rewriter unchanged. */
  lemma PlainPrefix(p: seq<byte>, q: seq<byte>)
    requires NoBackslash(p)
    ensures EscapesRemoved(p + q) == Prepend(p, EscapesRemoved(q))
  {
    var input := p + q;
    FullyReady(input);
    FullyReady(q);
    RewriteSplit(input, input, |input|, |p|, 0);
    RewriteShift(p, q, q, |q|);
    match EscapesRemoved(q)
    case None =>
    case Some(t) =>
      RewritePlain(input, p + t, |p|, 0);
  }

  /** A leading backslash is the last index the loop visits. */
  lemma BackslashFront(t: seq<byte>)
    requires |t| > 0
    ensures EscapesRemoved(t).None? ==> EscapesRemoved([BACKSLASH] + t).None?
    ensures EscapesRemoved(t).Some? ==>
              Ready([BACKSLASH] + t, [BACKSLASH] + EscapesRemoved(t).value, 1) &&
              EscapesRemoved([BACKSLASH] + t) == Step([BACKSLASH] + t, [BACKSLASH] + EscapesRemoved(t).value, 0)
  {
    var input := [BACKSLASH] + t;
    FullyReady(input);
    FullyReady(t);
    RewriteSplit(input, input, |input|, 1, 0);
    RewriteShift([BACKSLASH], t, t, |t|);
  }

  /** `\` then a byte that is neither a backslash nor an octal digit. */
  lemma OneByteEscape(s: seq<byte>)
    requires |s| >= 2 && s[0] == BACKSLASH && s[1] != BACKSLASH && !IsOctalDigit(s[1])
    requires EscapesRemoved(s[2..]) == Unescape(s[2..])
    ensures EscapesRemoved(s) == Unescape(s)
  {
    var t := s[1..];
    Cons(s);
    Cons(t);
    assert t[1..] == s[2..];
    BackslashFront(t);
    PlainPrefix([s[1]], s[2..]);
    if EscapesRemoved(s[2..]).Some? {
      OneByteStep(s, EscapesRemoved(s[2..]).value);
    }
  }

  /** The loop's step at a leading `\` followed by a byte that is neither a
      backslash nor an octal digit, over a rewritten rest `u`. */
  lemma OneByteStep(s: seq<byte>, u: seq<byte>)
    requires |s| >= 2 && s[0] == BACKSLASH && s[1] != BACKSLASH && !IsOctalDigit(s[1])
    requires Ready(s, [BACKSLASH] + ([s[1]] + u), 1)
    requires Unescape(s[2..]) == Some(u)
    ensures Step(s, [BACKSLASH] + ([s[1]] + u), 0) == Unescape(s)
  {
    var esc := s[1];
    if IsLineBreak(esc) {
      StepLineBreak(s, u);
      UnescapeLineBreak(s, u);
    } else if NamedEscape(esc).Some? {
      StepNamed(s, u);
      UnescapeNamedAt(s, u);
    } else {
      StepKept(s, u);
      UnescapeKept(s, u);
    }
  }

  lemma StepLineBreak(s: seq<byte>, u: seq<byte>)
    requires |s| >= 2 && s[0] == BACKSLASH && IsLineBreak(s[1])
    requires Ready(s, [BACKSLASH] + ([s[1]] + u), 1)
    ensures Step(s, [BACKSLASH] + ([s[1]] + u), 0) == Some(DropLineBreaks(u, 0))
  {
    RemoveFront(BACKSLASH, [s[1]] + u);
    DropFront(s[1], u);
  }

  lemma UnescapeLineBreak(s: seq<byte>, u: seq<byte>)
    requires |s| >= 2 && s[0] == BACKSLASH && IsLineBreak(s[1])
    requires Unescape(s[2..]) == Some(u)
    ensures Unescape(s) == Some(DropLineBreaks(u, 0))
  {
  }

  lemma StepNamed(s: seq<byte>, u: seq<byte>)
    requires |s| >= 2 && s[0] == BACKSLASH && !IsLineBreak(s[1]) && NamedEscape(s[1]).Some?
    requires Ready(s, [BACKSLASH] + ([s[1]] + u), 1)
    ensures Step(s, [BACKSLASH] + ([s[1]] + u), 0) == Some([NamedEscape(s[1]).value] + u)
  {
    RemoveFront(BACKSLASH, [s[1]] + u);
    RemoveFront(s[1], u);
    InsertFront(u, NamedEscape(s[1]).value);
  }

  lemma UnescapeNamedAt(s: seq<byte>, u: seq<byte>)
    requires |s| >= 2 && s[0] == BACKSLASH && !IsLineBreak(s[1]) && NamedEscape(s[1]).Some?
    requires Unescape(s[2..]) == Some(u)
    ensures Unescape(s) == Some([NamedEscape(s[1]).value] + u)
  {
  }

  lemma StepKept(s: seq<byte>, u: seq<byte>)
    requires |s| >= 2 && s[0] == BACKSLASH && IsPlainAfterBackslash(s[1])
    requires Ready(s, [BACKSLASH] + ([s[1]] + u), 1)
    ensures Step(s, [BACKSLASH] + ([s[1]] + u), 0) == Some([BACKSLASH, s[1]] + u)
  {
    Associate([BACKSLASH], [s[1]], u);
    assert [BACKSLASH] + [s[1]] == [BACKSLASH, s[1]];
  }

  lemma UnescapeKept(s: seq<byte>, u: seq<byte>)
    requires |s| >= 2 && s[0] == BACKSLASH && IsPlainAfterBackslash(s[1])
    requires Unescape(s[2..]) == Some(u)
    ensures Unescape(s) == Some([BACKSLASH, s[1]] + u)
  {
  }

  lemma RemoveFront(c: byte, x: seq<byte>)
    ensures Remove([c] + x, 0) == x
  {
    assert ([c] + x)[1..] == x;
  }

  lemma InsertFront(x: seq<byte>, c: byte)
    ensures Insert(x, 0, c) == [c] + x
  {
    assert x[..0] == [] && x[0..] == x;
  }

  lemma DropFront(c: byte, u: seq<byte>)
    requires IsLineBreak(c)
    ensures DropLineBreaks([c] + u, 0) == DropLineBreaks(u, 0)
  {
    RemoveFront(c, u);
  }

  lemma OctalStep(s: seq<byte>, digits: seq<byte>, u: seq<byte>, n: byte, b: byte)
    requires |s| >= 2 && s[0] == BACKSLASH && IsOctalDigit(s[1])
    requires OctalEscape(s, 0) == Some((n, b)) && |digits| == b as nat + 1
    requires Ready(s, [BACKSLASH] + (digits + u), 1)
    ensures Step(s, [BACKSLASH] + (digits + u), 0) == Some([n] + u)
  {
    assert NamedEscape(s[1]).None? && !IsLineBreak(s[1]);
    RemoveFront(BACKSLASH, digits + u);
    RemoveTimesFront(digits, u);
    InsertFront(u, n);
  }

  lemma RemoveTimesFront(x: seq<byte>, u: seq<byte>)
    ensures RemoveTimes(x + u, 0, |x|) == u
  {
    assert (x + u)[..0] + (x + u)[|x|..] == u;
  }

  lemma UnescapeOctal(s: seq<byte>, n: byte, b: byte)
    requires |s| >= 2 && s[0] == BACKSLASH && IsOctalDigit(s[1])
    requires OctalEscape(s, 0) == Some((n, b))
    ensures Unescape(s) == Prepend([n], Unescape(s[b as nat + 2..]))
  {
    assert NamedEscape(s[1]).None? && !IsLineBreak(s[1]);
  }

  lemma UnescapeOctalThen(s: seq<byte>, n: byte, b: byte, after: seq<byte>)
    requires |s| >= 2 && s[0] == BACKSLASH && IsOctalDigit(s[1])
    requires OctalEscape(s, 0) == Some((n, b)) && s[b as nat + 2..] == after
    ensures Unescape(s) == Prepend([n], Unescape(after))
  {
    UnescapeOctal(s, n, b);
  }

  lemma TailSplit(s: seq<byte>, k: nat)
    requires k + 1 <= |s|
    ensures s[1..] == s[1..][..k] + s[k + 1..]
  {
    assert s[1..][k..] == s[k + 1..];
  }

  /** The digits an octal escape spans hold no backslash. */
  lemma OctalDigitsPlain(s: seq<byte>, b: byte)
    requires |s| >= 2 && IsOctalDigit(s[1])
    requires OctalEscape(s, 0).Some? && OctalEscape(s, 0).value.1 == b
    ensures NoBackslash(s[1..][..b as nat + 1])
  {
    var d := s[1..][..b as nat + 1];
    forall k | 0 <= k < |d|
      ensures d[k] != BACKSLASH
    {
      assert d[k] == s[k + 1];
      if k == 0 {
        assert IsDigit(s[1]);
      } else if k == 1 {
        assert IsDigit(s[2]);
      } else {
        assert IsDigit(s[3]);
      }
    }
  }

  /** `\` then one to three digits that make a valid octal escape. */
  lemma OctalEscapeCase(s: seq<byte>, n: byte, b: byte)
    requires |s| >= 2 && s[0] == BACKSLASH && IsOctalDigit(s[1])
    requires OctalEscape(s, 0) == Some((n, b))
    requires EscapesRemoved(s[b as nat + 2..]) == Unescape(s[b as nat + 2..])
    ensures EscapesRemoved(s) == Unescape(s)
  {
    var t := s[1..];
    assert s == [BACKSLASH] + t;
    BackslashFront(t);
    var digits := t[..b as nat + 1];
    var after := s[b as nat + 2..];
    TailSplit(s, b as nat + 1);
    OctalDigitsPlain(s, b);
    PlainPrefix(digits, after);
    UnescapeOctal(s, n, b);
    match EscapesRemoved(after)
    case None =>
    case Some(u) =>
      OctalStep(s, digits, u, n, b);
  }

  /** The reverse loop and the left-to-right reading agree on every input. */
  lemma {:induction false} RewriteIsUnescape(s: seq<byte>)
    ensures EscapesRemoved(s) == Unescape(s)
    decreases |s|
  {
    if |s| == 0 {
      FullyReady(s);
    } else if s[0] != BACKSLASH {
      assert s == [s[0]] + s[1..];
      PlainPrefix([s[0]], s[1..]);
      RewriteIsUnescape(s[1..]);
    } else if |s| == 1 {
      FullyReady(s);
      assert Step(s, s, 0) == Some(s);
    } else if s[1] == BACKSLASH {
      assert s == [BACKSLASH] + s[1..];
      BackslashFront(s[1..]);
      RewriteIsUnescape(s[1..]);
    } else if IsOctalDigit(s[1]) {
      match OctalEscape(s, 0)
      case None =>
        assert s == [BACKSLASH] + s[1..];
        BackslashFront(s[1..]);
      case Some((n, b)) =>
        RewriteIsUnescape(s[b as nat + 2..]);
        OctalEscapeCase(s, n, b);
    } else {
      RewriteIsUnescape(s[2..]);
      OneByteEscape(s);
    }
  }

  // What the candidate properties of `remove_esc_seq` come to, over all inputs.

  /** Bytes after a backslash that start no escape: both bytes are kept. */
  predicate IsPlainAfterBackslash(c: byte) {
    !IsLineBreak(c) && NamedEscape(c).None? && c != BACKSLASH && !IsOctalDigit(c)
  }

  lemma UnescapeFrom(p: seq<byte>, q: seq<byte>)
    requires NoBackslash(p)
    ensures EscapesRemoved(p + q) == Prepend(p, Unescape(q))
  {
    PlainPrefix(p, q);
    RewriteIsUnescape(q);
  }

  /** Behind a backslash-free prefix, the rewriter turns `x + b` into what
      the left-to-right reading makes of it; here one byte `n` and then `b`
      unchanged. */
  lemma OneByteBehind(a: seq<byte>, x: seq<byte>, n: byte, b: seq<byte>)
    requires NoBackslash(a) && NoBackslash(b)
    requires Unescape(x + b) == Prepend([n], Unescape(b))
    ensures EscapesRemoved(a + x + b) == Some(a + [n] + b)
  {
    UnescapePlain(b);
    Associate(a, x, b);
    UnescapeFrom(a, x + b);
    Associate(a, [n], b);
  }

  /** Without backslashes the rewriter changes nothing. */
  lemma NoEscapesUnchanged(s: seq<byte>)
    requires NoBackslash(s)
    ensures EscapesRemoved(s) == Some(s)
  {
    UnescapeFrom(s, []);
    assert s + [] == s;
  }

  /** The left-to-right reading keeps a backslash-free buffer as it is. */
  lemma {:induction false} UnescapePlain(s: seq<byte>)
    requires NoBackslash(s)
    ensures Unescape(s) == Some(s)
    decreases |s|
  {
    if |s| > 0 {
      UnescapePlain(s[1..]);
      assert [s[0]] + s[1..] == s;
    }
  }

  /** Each of `\n \r \t \b \f \( \)` becomes its one byte. */
  lemma NamedEscapeBecomesOneByte(a: seq<byte>, c: byte, b: seq<byte>)
    requires NoBackslash(a) && NoBackslash(b) && NamedEscape(c).Some?
    ensures EscapesRemoved(a + [BACKSLASH, c] + b) == Some(a + [NamedEscape(c).value] + b)
  {
    UnescapeNamed(c, b);
    OneByteBehind(a, [BACKSLASH, c], NamedEscape(c).value, b);
  }

  lemma UnescapeNamed(c: byte, b: seq<byte>)
    requires NamedEscape(c).Some?
    ensures Unescape([BACKSLASH, c] + b) == Prepend([NamedEscape(c).value], Unescape(b))
  {
    FrontTwo(BACKSLASH, c, b);
    UnescapeNamedThen([BACKSLASH, c] + b, b);
  }

  lemma FrontTwo(x: byte, y: byte, b: seq<byte>)
    ensures var e := [x, y] + b; |e| == |b| + 2 && e[0] == x && e[1] == y && e[2..] == b
  {
  }

  lemma UnescapeNamedThen(e: seq<byte>, b: seq<byte>)
    requires |e| >= 2 && e[0] == BACKSLASH && NamedEscape(e[1]).Some? && e[2..] == b
    ensures Unescape(e) == Prepend([NamedEscape(e[1]).value], Unescape(b))
  {
  }

  /** A backslash before a byte that starts no escape is kept, and so is the byte. */
  lemma UnrecognisedEscapeKept(a: seq<byte>, c: byte, b: seq<byte>)
    requires NoBackslash(a) && NoBackslash(b) && IsPlainAfterBackslash(c)
    ensures EscapesRemoved(a + [BACKSLASH, c] + b) == Some(a + [BACKSLASH, c] + b)
  {
    var e := [BACKSLASH, c] + b;
    Associate(a, [BACKSLASH, c], b);
    UnescapeFrom(a, e);
    UnescapeUnrecognised(c, b);
  }

  lemma UnescapeUnrecognised(c: byte, b: seq<byte>)
    requires NoBackslash(b) && IsPlainAfterBackslash(c)
    ensures Unescape([BACKSLASH, c] + b) == Some([BACKSLASH, c] + b)
  {
    var e := [BACKSLASH, c] + b;
    assert e[0] == BACKSLASH && e[1] == c && e[2..] == b;
    UnescapePlain(b);
  }

  /** `\\` becomes one backslash when what follows starts no escape. */
  lemma DoubleBackslashBecomesOne(a: seq<byte>, b: seq<byte>)
    requires NoBackslash(a) && NoBackslash(b)
    requires b == [] || IsPlainAfterBackslash(b[0])
    ensures EscapesRemoved(a + [BACKSLASH, BACKSLASH] + b) == Some(a + [BACKSLASH] + b)
  {
    var e := [BACKSLASH, BACKSLASH] + b;
    Associate(a, [BACKSLASH, BACKSLASH], b);
    UnescapeFrom(a, e);
    UnescapeDoubleBackslash(b);
    Associate(a, [BACKSLASH], b);
  }

  lemma UnescapeDoubleBackslash(b: seq<byte>)
    requires NoBackslash(b)
    requires b == [] || IsPlainAfterBackslash(b[0])
    ensures Unescape([BACKSLASH, BACKSLASH] + b) == Some([BACKSLASH] + b)
  {
    var e := [BACKSLASH, BACKSLASH] + b;
    assert e[0] == BACKSLASH && e[1] == BACKSLASH && e[1..] == [BACKSLASH] + b;
    if b == [] {
      assert Unescape([BACKSLASH]) == Some([BACKSLASH]);
    } else {
      UnescapeUnrecognised(b[0], b[1..]);
      assert [BACKSLASH, b[0]] + b[1..] == [BACKSLASH] + b;
    }
  }

  /** As written, `\\n` becomes a newline: the loop first turns the second
      backslash and the `n` into a newline, then drops the first backslash. */
  lemma EscapedBackslashThenN(a: seq<byte>, b: seq<byte>)
    requires NoBackslash(a) && NoBackslash(b)
    ensures EscapesRemoved(a + [BACKSLASH, BACKSLASH, 'n' as byte] + b) == Some(a + [LF] + b)
  {
    var e := [BACKSLASH, BACKSLASH, 'n' as byte] + b;
    Associate(a, [BACKSLASH, BACKSLASH, 'n' as byte], b);
    UnescapeFrom(a, e);
    assert e[0] == BACKSLASH && e[1] == BACKSLASH && e[1..] == [BACKSLASH, 'n' as byte] + b;
    UnescapeNamed('n' as byte, b);
    UnescapePlain(b);
    Associate(a, [LF], b);
  }

  /** Dropping a run of line breaks at the front. */
  lemma {:induction false} DropLineBreaksOf(w: seq<byte>, b: seq<byte>)
    requires forall k :: 0 <= k < |w| ==> IsLineBreak(w[k])
    requires b == [] || !IsLineBreak(b[0])
    ensures DropLineBreaks(w + b, 0) == b
  {
    if w != [] {
      assert Remove(w + b, 0) == w[1..] + b;
      DropLineBreaksOf(w[1..], b);
    } else {
      assert w + b == b;
    }
  }

  /** A backslash followed by a run of CR and LF is removed with the whole run. */
  lemma LineContinuation(a: seq<byte>, w: seq<byte>, b: seq<byte>)
    requires NoBackslash(a) && NoBackslash(b)
    requires |w| > 0 && forall k :: 0 <= k < |w| ==> IsLineBreak(w[k])
    requires b == [] || !IsLineBreak(b[0])
    ensures EscapesRemoved(a + [BACKSLASH] + w + b) == Some(a + b)
  {
    var e := [BACKSLASH] + w + b;
    Associate(a, [BACKSLASH], w);
    Associate(a, [BACKSLASH] + w, b);
    UnescapeFrom(a, e);
    UnescapeContinuation(w, b);
  }

  lemma UnescapeContinuation(w: seq<byte>, b: seq<byte>)
    requires NoBackslash(b)
    requires |w| > 0 && forall k :: 0 <= k < |w| ==> IsLineBreak(w[k])
    requires b == [] || !IsLineBreak(b[0])
    ensures Unescape([BACKSLASH] + w + b) == Some(b)
  {
    ContinuationFront(w, b);
    BreaksThenPlain(w[1..], b);
    UnescapePlain(w[1..] + b);
    DropLineBreaksOf(w[1..], b);
    UnescapeContinuationThen([BACKSLASH] + w + b, w[1..] + b);
  }

  lemma ContinuationFront(w: seq<byte>, t: seq<byte>)
    requires |w| > 0
    ensures var e := [BACKSLASH] + w + t; |e| >= 2 && e[0] == BACKSLASH && e[1] == w[0] && e[2..] == w[1..] + t
  {
    var e := [BACKSLASH] + w + t;
    assert e[2..] == w[1..] + t;
  }

  lemma BreaksThenPlain(w: seq<byte>, b: seq<byte>)
    requires forall k :: 0 <= k < |w| ==> IsLineBreak(w[k])
    requires NoBackslash(b)
    ensures NoBackslash(w + b)
  {
    var t := w + b;
    forall k | 0 <= k < |t| ensures t[k] != BACKSLASH {
      if k < |w| { assert t[k] == w[k]; } else { assert t[k] == b[k - |w|]; }
    }
  }

  /** A line continuation whose rest reads as `u`: the line breaks at the
      front of `u` go. */
  lemma UnescapeContinuationThen(e: seq<byte>, t: seq<byte>)
    requires |e| >= 2 && e[0] == BACKSLASH && IsLineBreak(e[1]) && e[2..] == t
    ensures Unescape(e) == match Unescape(t) case None => None case Some(u) => Some(DropLineBreaks(u, 0))
  {
  }

  /** A line continuation drops the line breaks at the front of what the rest
      rewrites to, so in front of text that does not start with one it only
      removes itself. */
  lemma ContinuationThen(w: seq<byte>, t: seq<byte>, u: seq<byte>)
    requires |w| > 0 && forall k :: 0 <= k < |w| ==> IsLineBreak(w[k])
    requires Unescape(t) == Some(u) && (u == [] || !IsLineBreak(u[0]))
    ensures Unescape([BACKSLASH] + w + t) == Some(u)
  {
    var e := [BACKSLASH] + w + t;
    assert e[0] == BACKSLASH && e[1] == w[0] && e[2..] == w[1..] + t;
    assert NoBackslash(w[1..]) by {
      forall k | 0 <= k < |w[1..]| ensures w[1..][k] != BACKSLASH {
        assert IsLineBreak(w[k + 1]);
      }
    }
    UnescapePrefix(w[1..], t);
    DropLineBreaksOf(w[1..], u);
  }

  /** As written, a line continuation also swallows the newline that a
      following `\n` (or `\r`) escape produces. */
  lemma ContinuationSwallowsEscapedBreak(a: seq<byte>, brk: byte, c: byte, b: seq<byte>)
    requires NoBackslash(a) && NoBackslash(b)
    requires IsLineBreak(brk) && (c == 'n' as byte || c == 'r' as byte)
    requires b == [] || !IsLineBreak(b[0])
    ensures EscapesRemoved(a + [BACKSLASH, brk, BACKSLASH, c] + b) == Some(a + b)
  {
    var e := [BACKSLASH, brk, BACKSLASH, c] + b;
    Associate(a, [BACKSLASH, brk, BACKSLASH, c], b);
    UnescapeFrom(a, e);
    UnescapeSwallow(brk, c, b);
  }

  lemma UnescapeSwallow(brk: byte, c: byte, b: seq<byte>)
    requires NoBackslash(b)
    requires IsLineBreak(brk) && (c == 'n' as byte || c == 'r' as byte)
    requires b == [] || !IsLineBreak(b[0])
    ensures Unescape([BACKSLASH, brk, BACKSLASH, c] + b) == Some(b)
  {
    var e := [BACKSLASH, brk, BACKSLASH, c] + b;
    assert e[0] == BACKSLASH && e[1] == brk && e[2..] == [BACKSLASH, c] + b;
    UnescapeNamed(c, b);
    UnescapePlain(b);
    var x := NamedEscape(c).value;
    DropLineBreaksOf([x], b);
  }

  // `parse_octal` (the harnesses `parse_octal_input` and `parse_octal_output`).

  /** `parse_octal(exp, c)` fails exactly when `exp >= 3`, `c` is not one of
      `0`..`7`, or `exp == 2` and `c >= 4`. */
  lemma ParseOctalInput(exp: byte, c: byte)
    ensures ParseOctal(exp, c).None? <==>
      exp >= 3 || c < '0' as byte || c > '7' as byte || (exp == 2 && c >= '4' as byte)
  {
    if exp >= 3 {
      Pow8Large(exp as nat);
    } else {
      assert Pow8(0) == 1 && Pow8(1) == 8 && Pow8(2) == 64;
    }
  }

  /** For `exp < 2` and a digit `0`..`7`, the result is the digit's value times `8^exp`. */
  lemma ParseOctalOutput(exp: byte, number: byte)
    requires exp < 2 && number <= 7
    ensures ParseOctal(exp, ZERO + number).Some?
    ensures ParseOctal(exp, ZERO + number).value as int == number as int * Pow8(exp as nat)
  {
    assert Pow8(0) == 1 && Pow8(1) == 8;
  }

  // Octal escapes, as the left-to-right reading sees them.

  /** A backslash-free buffer in front of the rest is carried along unchanged. */
  lemma {:induction false} UnescapePrefix(p: seq<byte>, q: seq<byte>)
    requires NoBackslash(p)
    ensures Unescape(p + q) == Prepend(p, Unescape(q))
    decreases |p|
  {
    if p == [] {
      assert p + q == q;
      match Unescape(q)
      case None =>
      case Some(x) => assert p + x == x;
    } else {
      assert (p + q)[0] == p[0] && (p + q)[1..] == p[1..] + q;
      UnescapePrefix(p[1..], q);
      match Unescape(q)
      case None =>
      case Some(x) =>
        assert [p[0]] + (p[1..] + x) == p + x;
    }
  }

  /** The checked arithmetic of the octal arm on three digits, the first at
      most `3`. */
  lemma OctalValue3(e: seq<byte>, d1: byte, d2: byte, d3: byte)
    requires |e| >= 4 && e[0] == BACKSLASH && e[1] == d1 && e[2] == d2 && e[3] == d3
    requires ZERO <= d1 <= '3' as byte && IsOctalDigit(d2) && IsOctalDigit(d3)
    ensures OctalEscape(e, 0) ==
      Some(((64 * (d1 - ZERO) as int + 8 * (d2 - ZERO) as int + (d3 - ZERO) as int) as byte, 2))
  {
    assert ByteAt(e, 2) == Some(e[2]) && ByteAt(e, 3) == Some(e[3]);
    assert Pow8(0) == 1 && Pow8(1) == 8 && Pow8(2) == 64;
    var n1 := ((e[1] - ZERO) as int * 64) as byte;
    var n2 := ((e[2] - ZERO) as int * 8) as byte;
    assert ParseOctal(2, e[1]) == Some(n1);
    assert ParseOctal(1, e[2]) == Some(n2);
    assert ParseOctal(0, e[3]) == Some(e[3] - ZERO);
    assert CheckedAdd(n1, n2) == Some((n1 as int + n2 as int) as byte);
  }

  /** The same on two digits not followed by a third decimal digit. */
  lemma OctalValue2(e: seq<byte>, d1: byte, d2: byte)
    requires |e| >= 3 && e[0] == BACKSLASH && e[1] == d1 && e[2] == d2
    requires IsOctalDigit(d1) && IsOctalDigit(d2) && (|e| == 3 || !IsDigit(e[3]))
    ensures OctalEscape(e, 0) == Some(((8 * (d1 - ZERO) as int + (d2 - ZERO) as int) as byte, 1))
  {
    assert ByteAt(e, 2) == Some(e[2]);
    assert !IsAsciiDigit(ByteAt(e, 3)).0;
    assert Pow8(0) == 1 && Pow8(1) == 8;
    var n1 := ((e[1] - ZERO) as int * 8) as byte;
    assert ParseOctal(1, e[1]) == Some(n1);
    assert ParseOctal(0, e[2]) == Some(e[2] - ZERO);
  }

  /** The same on one digit not followed by a decimal digit. */
  lemma OctalValue1(e: seq<byte>, d1: byte)
    requires |e| >= 2 && e[0] == BACKSLASH && e[1] == d1 && IsOctalDigit(d1)
    requires |e| == 2 || !IsDigit(e[2])
    ensures OctalEscape(e, 0) == Some((d1 - ZERO, 0))
  {
    assert !IsAsciiDigit(ByteAt(e, 2)).0;
    assert Pow8(0) == 1;
    assert ParseOctal(0, e[1]) == Some(e[1] - ZERO);
  }

  lemma UnescapeOctal3(d1: byte, d2: byte, d3: byte, b: seq<byte>)
    requires ZERO <= d1 <= '3' as byte && IsOctalDigit(d2) && IsOctalDigit(d3)
    ensures Unescape([BACKSLASH, d1, d2, d3] + b) ==
      Prepend([(64 * (d1 - ZERO) as int + 8 * (d2 - ZERO) as int + (d3 - ZERO) as int) as byte], Unescape(b))
  {
    var e := [BACKSLASH, d1, d2, d3] + b;
    assert e[0] == BACKSLASH && e[1] == d1 && e[2] == d2 && e[3] == d3 && e[4..] == b;
    UnescapeOctal3At(e, d1, d2, d3, b);
  }

  lemma UnescapeOctal3At(e: seq<byte>, d1: byte, d2: byte, d3: byte, b: seq<byte>)
    requires |e| >= 4 && e[0] == BACKSLASH && e[1] == d1 && e[2] == d2 && e[3] == d3 && e[4..] == b
    requires ZERO <= d1 <= '3' as byte && IsOctalDigit(d2) && IsOctalDigit(d3)
    ensures Unescape(e) ==
      Prepend([(64 * (d1 - ZERO) as int + 8 * (d2 - ZERO) as int + (d3 - ZERO) as int) as byte], Unescape(b))
  {
    OctalValue3(e, d1, d2, d3);
    UnescapeOctalThen(e, (64 * (d1 - ZERO) as int + 8 * (d2 - ZERO) as int + (d3 - ZERO) as int) as byte, 2, b);
  }

  /** Three octal digits become one byte when the first is at most `3`. */
  lemma OctalThreeDigits(a: seq<byte>, d1: byte, d2: byte, d3: byte, b: seq<byte>)
    requires NoBackslash(a) && NoBackslash(b)
    requires ZERO <= d1 <= '3' as byte && IsOctalDigit(d2) && IsOctalDigit(d3)
    ensures EscapesRemoved(a + [BACKSLASH, d1, d2, d3] + b) ==
      Some(a + [(64 * (d1 - ZERO) as int + 8 * (d2 - ZERO) as int + (d3 - ZERO) as int) as byte] + b)
  {
    UnescapeOctal3(d1, d2, d3, b);
    OneByteBehind(a, [BACKSLASH, d1, d2, d3],
      (64 * (d1 - ZERO) as int + 8 * (d2 - ZERO) as int + (d3 - ZERO) as int) as byte, b);
  }

  lemma UnescapeOctal2(d1: byte, d2: byte, b: seq<byte>)
    requires IsOctalDigit(d1) && IsOctalDigit(d2) && (b == [] || !IsDigit(b[0]))
    ensures Unescape([BACKSLASH, d1, d2] + b) ==
      Prepend([(8 * (d1 - ZERO) as int + (d2 - ZERO) as int) as byte], Unescape(b))
  {
    var e := [BACKSLASH, d1, d2] + b;
    assert e[0] == BACKSLASH && e[1] == d1 && e[2] == d2 && e[3..] == b;
    assert |e| > 3 ==> e[3] == b[0];
    UnescapeOctal2At(e, d1, d2, b);
  }

  lemma UnescapeOctal2At(e: seq<byte>, d1: byte, d2: byte, b: seq<byte>)
    requires |e| >= 3 && e[0] == BACKSLASH && e[1] == d1 && e[2] == d2 && e[3..] == b
    requires IsOctalDigit(d1) && IsOctalDigit(d2) && (|e| == 3 || !IsDigit(e[3]))
    ensures Unescape(e) == Prepend([(8 * (d1 - ZERO) as int + (d2 - ZERO) as int) as byte], Unescape(b))
  {
    OctalValue2(e, d1, d2);
    UnescapeOctalThen(e, (8 * (d1 - ZERO) as int + (d2 - ZERO) as int) as byte, 1, b);
  }

  /** Two octal digits not followed by a third decimal digit become one byte. */
  lemma OctalTwoDigits(a: seq<byte>, d1: byte, d2: byte, b: seq<byte>)
    requires NoBackslash(a) && NoBackslash(b)
    requires IsOctalDigit(d1) && IsOctalDigit(d2) && (b == [] || !IsDigit(b[0]))
    ensures EscapesRemoved(a + [BACKSLASH, d1, d2] + b) ==
      Some(a + [(8 * (d1 - ZERO) as int + (d2 - ZERO) as int) as byte] + b)
  {
    UnescapeOctal2(d1, d2, b);
    OneByteBehind(a, [BACKSLASH, d1, d2], (8 * (d1 - ZERO) as int + (d2 - ZERO) as int) as byte, b);
  }

  lemma UnescapeOctal1(d1: byte, b: seq<byte>)
    requires IsOctalDigit(d1) && (b == [] || !IsDigit(b[0]))
    ensures Unescape([BACKSLASH, d1] + b) == Prepend([d1 - ZERO], Unescape(b))
  {
    var e := [BACKSLASH, d1] + b;
    assert e[0] == BACKSLASH && e[1] == d1 && e[2..] == b;
    assert |e| > 2 ==> e[2] == b[0];
    UnescapeOctal1At(e, d1, b);
  }

  lemma UnescapeOctal1At(e: seq<byte>, d1: byte, b: seq<byte>)
    requires |e| >= 2 && e[0] == BACKSLASH && e[1] == d1 && e[2..] == b
    requires IsOctalDigit(d1) && (|e| == 2 || !IsDigit(e[2]))
    ensures Unescape(e) == Prepend([d1 - ZERO], Unescape(b))
  {
    OctalValue1(e, d1);
    UnescapeOctalThen(e, d1 - ZERO, 0, b);
  }

  /** One octal digit not followed by a decimal digit becomes one byte. */
  lemma OctalOneDigit(a: seq<byte>, d1: byte, b: seq<byte>)
    requires NoBackslash(a) && NoBackslash(b)
    requires IsOctalDigit(d1) && (b == [] || !IsDigit(b[0]))
    ensures EscapesRemoved(a + [BACKSLASH, d1] + b) == Some(a + [d1 - ZERO] + b)
  {
    UnescapeOctal1(d1, b);
    OneByteBehind(a, [BACKSLASH, d1], d1 - ZERO, b);
  }

  /** An `8` or `9` as the second digit of an octal escape fails the rewrite,
      whatever follows. */
  lemma OctalSecondDigitNotOctal(a: seq<byte>, d1: byte, d2: byte, b: seq<byte>)
    requires NoBackslash(a) && IsOctalDigit(d1) && (d2 == '8' as byte || d2 == '9' as byte)
    ensures EscapesRemoved(a + [BACKSLASH, d1, d2] + b).None?
  {
    var e := [BACKSLASH, d1, d2] + b;
    Associate(a, [BACKSLASH, d1, d2], b);
    UnescapeFrom(a, e);
    assert e[0] == BACKSLASH && e[1] == d1 && e[2] == d2;
    assert OctalEscape(e, 0).None?;
  }

  /** An `8` or `9` as the third digit of an octal escape fails the rewrite. */
  lemma OctalThirdDigitNotOctal(a: seq<byte>, d1: byte, d2: byte, d3: byte, b: seq<byte>)
    requires NoBackslash(a) && IsOctalDigit(d1) && IsOctalDigit(d2) && (d3 == '8' as byte || d3 == '9' as byte)
    ensures EscapesRemoved(a + [BACKSLASH, d1, d2, d3] + b).None?
  {
    var e := [BACKSLASH, d1, d2, d3] + b;
    Associate(a, [BACKSLASH, d1, d2, d3], b);
    UnescapeFrom(a, e);
    assert e[0] == BACKSLASH && e[1] == d1 && e[2] == d2 && e[3] == d3;
    assert OctalEscape(e, 0).None?;
  }

  /** A three-digit escape whose first digit is `4` or more overflows a byte and fails. */
  lemma OctalLeadingDigitTooLarge(a: seq<byte>, d1: byte, d2: byte, d3: byte, b: seq<byte>)
    requires NoBackslash(a) && '4' as byte <= d1 <= '7' as byte && IsDigit(d2) && IsDigit(d3)
    ensures EscapesRemoved(a + [BACKSLASH, d1, d2, d3] + b).None?
  {
    var e := [BACKSLASH, d1, d2, d3] + b;
    Associate(a, [BACKSLASH, d1, d2, d3], b);
    UnescapeFrom(a, e);
    assert e[0] == BACKSLASH && e[1] == d1 && e[2] == d2 && e[3] == d3;
    ParseOctalInput(2, d1);
    assert OctalEscape(e, 0).None?;
  }
}
