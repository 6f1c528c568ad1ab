/** The escape rewriter of literal strings, `remove_esc_seq` in
    src/objects/string.rs, together with its helpers `is_ascii_digit` and
    `parse_octal`.

    The rewriter walks the ORIGINAL bytes from the last index down to the
    first. At every backslash that has a next byte it looks at that next
    byte, again in the original bytes, and edits a working copy `res` at the
    same index with `Vec::remove` and `Vec::insert`. Edits made at higher
    indices have already shifted what `res` holds after the current index,
    and the model keeps that: `Step` edits `res`, `Rewrite` chains the steps
    from the top index down, and the method `RemoveEscSeq` is the loop. */
module Escapes {
  import opened Parsing

  /** `Vec::remove(i)`, which panics unless `i < len`. */
  function Remove(s: seq<byte>, i: nat): (r: seq<byte>)
    requires i < |s|
    ensures |r| == |s| - 1 && r[..i] == s[..i] && r[i..] == s[i + 1..]
  {
    s[..i] + s[i + 1..]
  }

  /** `Vec::insert(i, x)`, which panics unless `i <= len`. */
  function Insert(s: seq<byte>, i: nat, x: byte): (r: seq<byte>)
    requires i <= |s|
    ensures |r| == |s| + 1 && r[..i] == s[..i] && r[i] == x && r[i + 1..] == s[i..]
  {
    s[..i] + [x] + s[i..]
  }

  /** `count` calls of `Vec::remove(i)`: the `for _ in 0..=b` loop. */
  function RemoveTimes(s: seq<byte>, i: nat, count: nat): (r: seq<byte>)
    requires i + count <= |s|
    ensures r == s[..i] + s[i + count..]
  {
    if count == 0 then s else RemoveTimes(Remove(s, i), i, count - 1)
  }

  predicate IsLineBreak(c: byte) {
    c == LF || c == CR
  }

  /** The inner `while let` loop: remove bytes at `i` while they are CR or LF. */
  function DropLineBreaks(s: seq<byte>, i: nat): (r: seq<byte>)
    requires i <= |s|
    ensures |r| <= |s| && i <= |r| && r[..i] == s[..i]
    ensures IsSuffix(r[i..], s[i..])
    ensures forall k :: i <= k < i + |s| - |r| ==> IsLineBreak(s[k])
    ensures i == |r| || !IsLineBreak(r[i])
    decreases |s|
  {
    if i < |s| && IsLineBreak(s[i]) then
      var r := DropLineBreaks(Remove(s, i), i);
      assert Remove(s, i)[i..] == s[i + 1..];
      assert forall k :: i < k < i + |s| - |r| ==> s[k] == Remove(s, i)[k - 1];
      r
    else s
  }

  /** The letters `n r t b f ( )` that name an escape. */
  const NAMED_ESCAPES: set<byte> := {'n' as byte, 'r' as byte, 't' as byte, 'b' as byte, 'f' as byte, '(' as byte, ')' as byte}

  /** The byte a one-letter escape stands for: `\n \r \t \b \f \( \)`. */
  function NamedEscape(c: byte): (r: Option<byte>)
    ensures r.Some? <==> c in NAMED_ESCAPES
    ensures r.Some? ==> r.value != BACKSLASH
    ensures r.Some? ==> (r.value == c <==> c == '(' as byte || c == ')' as byte)
  {
    if c == 'n' as byte then Some(LF)
    else if c == 'r' as byte then Some(CR)
    else if c == 't' as byte then Some(TAB)
    else if c == 'b' as byte then Some(0x08)
    else if c == 'f' as byte then Some(0x0C)
    else if c == '(' as byte then Some('(' as byte)
    else if c == ')' as byte then Some(')' as byte)
    else None
  }

  /** `input.get(k)`. */
  function ByteAt(input: seq<byte>, k: nat): (r: Option<byte>)
    ensures r.Some? <==> k < |input|
    ensures r.Some? ==> r.value == input[k]
  {
    if k < |input| then Some(input[k]) else None
  }

  /** `is_ascii_digit`: whether the byte is present and a decimal digit, and
      the byte itself (0 when absent). */
  function IsAsciiDigit(d: Option<byte>): (r: (bool, byte))
    ensures r.0 <==> d.Some? && IsDigit(d.value)
    ensures d.Some? ==> r.1 == d.value
  {
    match d
    case None => (false, 0)
    case Some(c) => (IsDigit(c), c)
  }

  function Pow8(e: nat): (r: nat)
    ensures r > 0
  {
    if e == 0 then 1 else 8 * Pow8(e - 1)
  }

  lemma {:induction false} Pow8Large(e: nat)
    requires e >= 3
    ensures Pow8(e) >= 512
  {
    if e > 3 {
      Pow8Large(e - 1);
    }
  }

  /** Only the powers `8^0`, `8^1` and `8^2` fit in a byte. */
  lemma Pow8Fits(e: nat)
    ensures Pow8(e) < 256 <==> e < 3
  {
    if e >= 3 {
      Pow8Large(e);
    } else {
      assert Pow8(0) == 1 && Pow8(1) == 8 && Pow8(2) == 64;
    }
  }

  /** `8u8.checked_pow(exp)`: powers of 8 grow, so the first overflowing
      multiplication happens exactly when the true power exceeds 255. */
  function CheckedPow8(exp: byte): (r: Option<byte>)
    ensures r.Some? <==> exp < 3
    ensures r.Some? ==> r.value as nat == Pow8(exp as nat)
  {
    Pow8Fits(exp as nat);
    if Pow8(exp as nat) < 256 then Some(Pow8(exp as nat) as byte) else None
  }

  /** `u8::checked_mul`. */
  function CheckedMul(a: byte, b: byte): (r: Option<byte>)
    ensures r.Some? <==> a as int * b as int <= 255
    ensures r.Some? ==> r.value as int == a as int * b as int
  {
    if a as int * b as int < 256 then Some((a as int * b as int) as byte) else None
  }

  /** `u8::checked_add`. */
  function CheckedAdd(a: byte, b: byte): (r: Option<byte>)
    ensures r.Some? <==> a as int + b as int <= 255
    ensures r.Some? ==> r.value as int == a as int + b as int
  {
    if a as int + b as int < 256 then Some((a as int + b as int) as byte) else None
  }

  /** `parse_octal(exp, c)`: the octal digit `c` weighted by `8^exp`, all in
      checked `u8` arithmetic; `None` is `Err(ErrorKind::Digit)`. Note that the
      test is for a decimal digit first, so `8` and `9` reach the `< 8` check. */
  function ParseOctal(exp: byte, c: byte): (r: Option<byte>)
    ensures r.Some? ==> ZERO <= c <= '7' as byte && exp < 3
    ensures r.Some? ==> r.value as int == (c - ZERO) as int * Pow8(exp as nat)
  {
    if IsDigit(c) then
      var number := c - ZERO;
      if number < 8 then
        match CheckedPow8(exp)
        case None => None
        case Some(p) => CheckedMul(number, p)
      else None
    else None
  }

  predicate IsOctalDigit(c: byte) {
    ZERO <= c < ZERO + 8
  }

  /** The octal arm of the rewriter at the backslash `i`, whose next byte is
      an octal digit: the value of the escape and `b`, one less than the
      number of digits it spans. The second and third bytes count when they
      are DECIMAL digits (`is_ascii_digit`); the third only if the second
      does. `None` is the error the `?` operators propagate. */
  function OctalEscape(input: seq<byte>, i: nat): (r: Option<(byte, byte)>)
    requires i + 1 < |input| && IsOctalDigit(input[i + 1])
    ensures r.Some? ==> r.value.1 <= 2 && i + 2 + r.value.1 as nat <= |input|
    ensures r.Some? ==> IsDigit(input[i + 1])
    ensures r.Some? && r.value.1 >= 1 ==> IsDigit(input[i + 2])
    ensures r.Some? && r.value.1 == 2 ==> IsDigit(input[i + 3])
  {
    var o1 := input[i + 1];
    var o2 := IsAsciiDigit(ByteAt(input, i + 2));
    var o3 := IsAsciiDigit(ByteAt(input, i + 3));
    var b: byte := if o2.0 then (if o3.0 then 2 else 1) else 0;
    match ParseOctal(b, o1)
    case None => None
    case Some(n1) =>
      if !o2.0 then Some((n1, b))
      else
        match ParseOctal(b - 1, o2.1)
        case None => None
        case Some(n2) =>
          match CheckedAdd(n1, n2)
          case None => None
          case Some(n12) =>
            if !o3.0 then Some((n12, b))
            else
              match ParseOctal(0, o3.1)
              case None => None
              case Some(n3) =>
                match CheckedAdd(n12, n3)
                case None => None
                case Some(n) => Some((n, b))
  }

  /** The first backslash at or after `k`, or `|input|` if there is none. */
  function NextBackslash(input: seq<byte>, k: nat): (r: nat)
    requires k <= |input|
    ensures k <= r <= |input|
    ensures r < |input| ==> input[r] == BACKSLASH
    decreases |input| - k
  {
    if k == |input| || input[k] == BACKSLASH then k else NextBackslash(input, k + 1)
  }

  /** The digits of an octal escape hold no backslash, so the next backslash
      after the one at `i` lies beyond them. */
  lemma OctalBound(input: seq<byte>, i: nat)
    requires i + 1 < |input| && IsOctalDigit(input[i + 1]) && OctalEscape(input, i).Some?
    ensures NextBackslash(input, i + 1) >= i + 2 + OctalEscape(input, i).value.1 as nat
  {
    var b := OctalEscape(input, i).value.1;
    assert NextBackslash(input, i + 1) == NextBackslash(input, i + 2);
    if b >= 1 {
      assert NextBackslash(input, i + 2) == NextBackslash(input, i + 3);
    }
    if b == 2 {
      assert NextBackslash(input, i + 3) == NextBackslash(input, i + 4);
    }
  }

  /** What holds of `res` once the indices from `k` up have been processed:
      up to the first backslash at or after `k` nothing has been edited. This
      is what keeps every `remove` and `insert` of the next step in bounds. */
  predicate Ready(input: seq<byte>, res: seq<byte>, k: nat) {
    k <= |input| &&
    var f := NextBackslash(input, k);
    f <= |res| && res[..f] == input[..f]
  }

  /** An edit at the backslash `i` that keeps `res[..i]` leaves the working
      copy ready for index `i`. */
  lemma EditReady(input: seq<byte>, res: seq<byte>, r: seq<byte>, i: nat)
    requires i < |input| && input[i] == BACKSLASH && Ready(input, res, i + 1)
    requires i <= |r| && r[..i] == res[..i]
    ensures Ready(input, r, i)
  {
    var f := NextBackslash(input, i + 1);
    assert res[..i] == res[..f][..i] && input[..i] == input[..f][..i];
  }

  /** The body of the reverse loop for index `i`: `None` is an early
      `Err(ErrorKind::Digit)` from the octal arm. Only `res[i..]` changes. */
  function Step(input: seq<byte>, res: seq<byte>, i: nat): (r: Option<seq<byte>>)
    requires i < |input| && Ready(input, res, i + 1)
    ensures r.Some? ==> Ready(input, r.value, i) && |r.value| <= |res|
    ensures r.Some? ==> r.value[..i] == res[..i]
    ensures input[i] != BACKSLASH ==> r == Some(res)
  {
    if input[i] != BACKSLASH || i + 1 >= |input| then Some(res)
    else
      var esc := input[i + 1];
      if IsLineBreak(esc) then
        var r := DropLineBreaks(Remove(res, i), i);
        EditReady(input, res, r, i);
        Some(r)
      else if NamedEscape(esc).Some? then
        var r := Insert(Remove(Remove(res, i), i), i, NamedEscape(esc).value);
        EditReady(input, res, r, i);
        Some(r)
      else if esc == BACKSLASH then
        var r := Remove(res, i);
        EditReady(input, res, r, i);
        Some(r)
      else if IsOctalDigit(esc) then
        match OctalEscape(input, i)
        case None => None
        case Some((n, b)) =>
          OctalBound(input, i);
          var r := Insert(RemoveTimes(Remove(res, i), i, b as nat + 1), i, n);
          EditReady(input, res, r, i);
          Some(r)
      else Some(res)
  }

  /** The loop from index `hi - 1` down to index `lo`. */
  function Rewrite(input: seq<byte>, res: seq<byte>, hi: nat, lo: nat): (r: Option<seq<byte>>)
    requires lo <= hi && Ready(input, res, hi)
    ensures r.Some? ==> Ready(input, r.value, lo) && |r.value| <= |res|
    ensures r.Some? ==> r.value[..lo] == res[..lo]
    decreases hi
  {
    if hi == lo then Some(res)
    else
      match Step(input, res, hi - 1)
      case None => None
      case Some(next) => Rewrite(input, next, hi - 1, lo)
  }

  /** What `remove_esc_seq` returns: `None` is its `Err`. */
  function EscapesRemoved(input: seq<byte>): Option<seq<byte>> {
    assert NextBackslash(input, |input|) == |input|;
    Rewrite(input, input, |input|, 0)
  }

  /** One pass of the body of the reverse loop, at index `i`: the edits it
      makes to the working copy (`current` on entry), or the early error of
      the octal arm. */
  method EscapeAt(input: seq<byte>, current: seq<byte>, i: nat) returns (r: Option<seq<byte>>)
    requires i < |input| && Ready(input, current, i + 1)
    ensures r == Step(input, current, i)
  {
    var res := current;
    if input[i] == BACKSLASH && i + 1 < |input| {
      var esc := input[i + 1];
      if esc == LF || esc == CR {
        res := Remove(res, i);
        while i < |res| && (res[i] == LF || res[i] == CR)
          invariant i <= |res|
          invariant DropLineBreaks(res, i) == DropLineBreaks(Remove(current, i), i)
          decreases |res|
        {
          res := Remove(res, i);
        }
        assert DropLineBreaks(res, i) == res;
        assert Step(input, current, i) == Some(res);
      } else if NamedEscape(esc).Some? {
        // The seven arms `b'n'`, `b'r'`, `b't'`, `b'b'`, `b'f'`, `b'('` and
        // `b')'` share this shape and differ only in the byte inserted.
        res := Remove(res, i);
        res := Remove(res, i);
        res := Insert(res, i, NamedEscape(esc).value);
        assert Step(input, current, i) == Some(res);
      } else if esc == BACKSLASH {
        res := Remove(res, i);
        assert Step(input, current, i) == Some(res);
      } else if ZERO <= esc < ZERO + 8 {
        // The value is straight-line checked arithmetic; `OctalEscape` is it.
        var octal := OctalEscape(input, i);
        if octal.None? {
          assert Step(input, current, i) == None;
          return None;
        }
        var (n, b) := octal.value;
        OctalBound(input, i);
        res := Remove(res, i);
        for k := 0 to b as nat + 1
          invariant i + (b as nat + 1 - k) <= |res|
          invariant RemoveTimes(res, i, b as nat + 1 - k) == RemoveTimes(Remove(current, i), i, b as nat + 1)
        {
          res := Remove(res, i);
        }
        res := Insert(res, i, n);
        assert Step(input, current, i) == Some(res);
      } else {
        assert Step(input, current, i) == Some(res);
      }
    } else {
      assert Step(input, current, i) == Some(res);
    }
    r := Some(res);
  }

  /** `remove_esc_seq`: `res` is the working copy, walked from the last index
      down to the first. */
  method RemoveEscSeq(input: seq<byte>) returns (r: Option<seq<byte>>)
    ensures r == EscapesRemoved(input)
  {
    var res := input;
    var i: nat := |input|;
    assert NextBackslash(input, |input|) == |input|;
    while i > 0
      invariant i <= |input| && Ready(input, res, i)
      invariant Rewrite(input, res, i, 0) == EscapesRemoved(input)
    {
      i := i - 1;
      var next := EscapeAt(input, res, i);
      if next.None? {
        return None;
      }
      res := next.value;
    }
    r := Some(res);
  }
}
