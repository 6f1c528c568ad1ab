/** The hexadecimal form of a string (src/objects/string.rs `fix_hex_str`
    and the `hex::decode` and `core::str::from_utf8` steps of
    `parse_hexadecimal`). */
module HexStrings {
  import opened Parsing

  // UTF-8 well-formedness (`core::str::from_utf8`), after table 3-7 of the
  // Unicode Standard, chapter 3.

  predicate InRange(c: byte, lo: byte, hi: byte) {
    lo <= c <= hi
  }

  predicate IsContinuation(c: byte) {
    InRange(c, 0x80, 0xBF)
  }

  /** The length of the well-formed UTF-8 sequence at the front of `s`, or 0
      if none starts there. */
  function Utf8SequenceLength(s: seq<byte>): (n: nat)
    requires |s| > 0
    ensures n <= 4 && n <= |s|
    ensures s[0] < 0x80 ==> n == 1
    ensures InRange(s[0], 0x80, 0xC1) || s[0] > 0xF4 ==> n == 0
  {
    var c := s[0];
    if c < 0x80 then 1
    else if InRange(c, 0xC2, 0xDF) then
      if |s| >= 2 && IsContinuation(s[1]) then 2 else 0
    else if InRange(c, 0xE0, 0xEF) then
      var lo: byte := if c == 0xE0 then 0xA0 else 0x80;
      var hi: byte := if c == 0xED then 0x9F else 0xBF;
      if |s| >= 3 && InRange(s[1], lo, hi) && IsContinuation(s[2]) then 3 else 0
    else if InRange(c, 0xF0, 0xF4) then
      var lo: byte := if c == 0xF0 then 0x90 else 0x80;
      var hi: byte := if c == 0xF4 then 0x8F else 0xBF;
      if |s| >= 4 && InRange(s[1], lo, hi) && IsContinuation(s[2]) && IsContinuation(s[3]) then 4 else 0
    else 0
  }

  /** `from_utf8(s).is_ok()`: `s` splits into well-formed sequences. */
  predicate IsUtf8(s: seq<byte>)
    decreases |s|
  {
    |s| == 0 || (Utf8SequenceLength(s) > 0 && IsUtf8(s[Utf8SequenceLength(s)..]))
  }

  /** Valid UTF-8 stays valid when more valid UTF-8 follows: a sequence
      at the front is judged by its own bytes only. */
  lemma {:induction false} Utf8Concat(a: seq<byte>, b: seq<byte>)
    requires IsUtf8(a) && IsUtf8(b)
    ensures IsUtf8(a + b)
    decreases |a|
  {
    if |a| == 0 {
      assert a + b == b;
    } else {
      var n := Utf8SequenceLength(a);
      Utf8Concat(a[n..], b);
      Utf8SequencePrefix(a, b);
      Utf8Front(a + b, n, a[n..] + b);
    }
  }

  /** One well-formed sequence of `n` bytes in front of valid UTF-8. */
  lemma Utf8Front(s: seq<byte>, n: nat, tail: seq<byte>)
    requires 0 < n <= |s| && Utf8SequenceLength(s) == n
    requires s[n..] == tail && IsUtf8(tail)
    ensures IsUtf8(s)
  {
  }

  /** What follows a complete sequence does not change its length. */
  lemma Utf8SequencePrefix(a: seq<byte>, b: seq<byte>)
    requires |a| > 0 && Utf8SequenceLength(a) > 0
    ensures Utf8SequenceLength(a + b) == Utf8SequenceLength(a)
    ensures (a + b)[Utf8SequenceLength(a)..] == a[Utf8SequenceLength(a)..] + b
  {
    var n := Utf8SequenceLength(a);
    assert forall k :: 0 <= k < n ==> (a + b)[k] == a[k];
  }

  predicate AllAscii(s: seq<byte>) {
    forall k :: 0 <= k < |s| ==> s[k] < 0x80
  }

  /** ASCII text is valid UTF-8. */
  lemma {:induction false} AsciiIsUtf8(s: seq<byte>)
    requires AllAscii(s)
    ensures IsUtf8(s)
    decreases |s|
  {
    if |s| > 0 {
      AsciiIsUtf8(s[1..]);
    }
  }

  /** A lone continuation byte, or a byte that never occurs in UTF-8, at the front is rejected. */
  lemma Utf8RejectsBadLead(s: seq<byte>)
    requires |s| > 0 && (InRange(s[0], 0x80, 0xC1) || s[0] > 0xF4)
    ensures !IsUtf8(s)
  {
  }

  // `fix_hex_str`: keep the hex digits, pad an odd count with `0`.

  /** `char::is_ascii_hexdigit`. A character outside ASCII is never a hex
      digit, and every byte of its UTF-8 form is at least 0x80, so filtering
      the characters of valid UTF-8 and filtering its bytes agree. */
  predicate IsHexDigit(c: byte) {
    InRange(c, '0' as byte, '9' as byte) || InRange(c, 'a' as byte, 'f' as byte) || InRange(c, 'A' as byte, 'F' as byte)
  }

  predicate AllHex(s: seq<byte>) {
    forall k :: 0 <= k < |s| ==> IsHexDigit(s[k])
  }

  /** `s.chars().filter(|c| c.is_ascii_hexdigit())`: the hex digits of `s`, in order. */
  function HexDigitsOf(s: seq<byte>): (r: seq<byte>)
    ensures AllHex(r) && |r| <= |s|
    decreases |s|
  {
    if |s| == 0 then []
    else HexDigitsOf(s[..|s| - 1]) + (if IsHexDigit(s[|s| - 1]) then [s[|s| - 1]] else [])
  }

  /** The filter keeps a string of hex digits whole. */
  lemma {:induction false} HexDigitsOfHex(s: seq<byte>)
    requires AllHex(s)
    ensures HexDigitsOf(s) == s
    decreases |s|
  {
    if |s| > 0 {
      HexDigitsOfHex(s[..|s| - 1]);
    }
  }

  /** The filter drops a string without hex digits entirely. */
  lemma {:induction false} HexDigitsOfNone(s: seq<byte>)
    requires forall k :: 0 <= k < |s| ==> !IsHexDigit(s[k])
    ensures HexDigitsOf(s) == []
    decreases |s|
  {
    if |s| > 0 {
      HexDigitsOfNone(s[..|s| - 1]);
    }
  }

  /** The filter works piece by piece. */
  lemma {:induction false} HexDigitsOfAppend(a: seq<byte>, b: seq<byte>)
    ensures HexDigitsOf(a + b) == HexDigitsOf(a) + HexDigitsOf(b)
    decreases |b|
  {
    if |b| == 0 {
      assert a + b == a;
    } else {
      assert (a + b)[..|a + b| - 1] == a + b[..|b| - 1];
      HexDigitsOfAppend(a, b[..|b| - 1]);
    }
  }

  /** What `fix_hex_str` returns. */
  function FixHex(s: seq<byte>): (r: seq<byte>)
    ensures |r| % 2 == 0 && AllHex(r)
    ensures StartsWith(r, HexDigitsOf(s))
    ensures |r| == |HexDigitsOf(s)| + |HexDigitsOf(s)| % 2
    ensures |HexDigitsOf(s)| % 2 == 1 ==> r[|r| - 1] == ZERO
  {
    var f := HexDigitsOf(s);
    if |f| % 2 == 1 then f + [ZERO] else f
  }

  /** `fix_hex_str` as written: a filtering loop that pushes, then the pad. */
  method FixHexStr(s: seq<byte>) returns (r: seq<byte>)
    ensures r == FixHex(s)
  {
    r := [];
    for i := 0 to |s|
      invariant r == HexDigitsOf(s[..i])
    {
      assert s[..i + 1][..i] == s[..i];
      if IsHexDigit(s[i]) {
        r := r + [s[i]];
      }
    }
    assert s[..|s|] == s;
    if |r| % 2 == 1 {
      r := r + [ZERO];
    }
  }

  // `hex::decode`: pairs of hex digits, high nibble first, either case.

  function Nibble(c: byte): (n: nat)
    requires IsHexDigit(c)
    ensures n < 16
  {
    if InRange(c, '0' as byte, '9' as byte) then (c - '0' as byte) as nat
    else if InRange(c, 'a' as byte, 'f' as byte) then (c - 'a' as byte) as nat + 10
    else (c - 'A' as byte) as nat + 10
  }

  /** `hex::decode`: `None` on an odd length or on a byte that is not a hex digit. */
  function HexDecode(s: seq<byte>): (r: Option<seq<byte>>)
    ensures r.Some? <==> |s| % 2 == 0 && AllHex(s)
    ensures r.Some? ==> |r.value| == |s| / 2
    ensures r.Some? ==> forall k :: 0 <= k < |r.value| ==>
      r.value[k] as int == 16 * Nibble(s[2 * k]) + Nibble(s[2 * k + 1])
  {
    if |s| % 2 == 1 then None else DecodePairs(s)
  }

  function DecodePairs(s: seq<byte>): (r: Option<seq<byte>>)
    requires |s| % 2 == 0
    ensures r.Some? <==> AllHex(s)
    ensures r.Some? ==> |r.value| == |s| / 2
    ensures r.Some? ==> forall k :: 0 <= k < |r.value| ==>
      r.value[k] as int == 16 * Nibble(s[2 * k]) + Nibble(s[2 * k + 1])
    decreases |s|
  {
    if |s| == 0 then Some([])
    else if !IsHexDigit(s[0]) || !IsHexDigit(s[1]) then None
    else
      match DecodePairs(s[2..])
      case None =>
        assert !AllHex(s) by {
          var k :| 0 <= k < |s[2..]| && !IsHexDigit(s[2..][k]);
          assert s[k + 2] == s[2..][k];
        }
        None
      case Some(t) =>
        var r := [(16 * Nibble(s[0]) + Nibble(s[1])) as byte] + t;
        PairsCons(s, t, r);
        Some(r)
  }

  /** The first pair's byte in front of the rest's bytes. */
  lemma PairsCons(s: seq<byte>, t: seq<byte>, r: seq<byte>)
    requires |s| >= 2 && |s| % 2 == 0 && IsHexDigit(s[0]) && IsHexDigit(s[1]) && AllHex(s[2..])
    requires |t| == (|s| - 2) / 2
    requires forall k :: 0 <= k < |t| ==> t[k] as int == 16 * Nibble(s[2..][2 * k]) + Nibble(s[2..][2 * k + 1])
    requires r == [(16 * Nibble(s[0]) + Nibble(s[1])) as byte] + t
    ensures AllHex(s) && |r| == |s| / 2
    ensures forall k :: 0 <= k < |r| ==> r[k] as int == 16 * Nibble(s[2 * k]) + Nibble(s[2 * k + 1])
  {
    forall k | 2 <= k < |s|
      ensures IsHexDigit(s[k])
    {
      assert s[k] == s[2..][k - 2];
    }
    forall k | 1 <= k < |r|
      ensures r[k] as int == 16 * Nibble(s[2 * k]) + Nibble(s[2 * k + 1])
    {
      assert r[k] == t[k - 1];
      assert s[2 * k] == s[2..][2 * (k - 1)] && s[2 * k + 1] == s[2..][2 * (k - 1) + 1];
    }
  }

  /** The digit for a nibble, lower case (the `hex` crate's `encode`). */
  function HexDigitFor(n: nat): (c: byte)
    requires n < 16
    ensures IsHexDigit(c) && Nibble(c) == n
  {
    if n < 10 then '0' as byte + n as byte else 'a' as byte + (n - 10) as byte
  }

  /** `hex::encode`, the inverse partner of `hex::decode`. */
  function HexEncode(x: seq<byte>): (s: seq<byte>)
    ensures |s| == 2 * |x| && AllHex(s)
  {
    if |x| == 0 then []
    else [HexDigitFor(x[0] as nat / 16), HexDigitFor(x[0] as nat % 16)] + HexEncode(x[1..])
  }

  /** Decoding undoes encoding. */
  lemma {:induction false} DecodeEncode(x: seq<byte>)
    ensures HexDecode(HexEncode(x)) == Some(x)
  {
    var s := HexEncode(x);
    var r := HexDecode(s);
    assert r.Some? && |r.value| == |x|;
    forall k | 0 <= k < |x|
      ensures r.value[k] == x[k]
    {
      EncodeAt(x, k);
      assert r.value[k] as int == 16 * (x[k] as nat / 16) + x[k] as nat % 16;
    }
    assert r.value == x;
  }

  lemma {:induction false} EncodeAt(x: seq<byte>, k: nat)
    requires k < |x|
    ensures HexEncode(x)[2 * k] == HexDigitFor(x[k] as nat / 16)
    ensures HexEncode(x)[2 * k + 1] == HexDigitFor(x[k] as nat % 16)
  {
    if k > 0 {
      EncodeAt(x[1..], k - 1);
    }
  }

  /** After `fix_hex_str` the decode step cannot fail. */
  lemma FixedHexDecodes(s: seq<byte>)
    ensures HexDecode(FixHex(s)).Some?
    ensures |HexDecode(FixHex(s)).value| == (|HexDigitsOf(s)| + 1) / 2
  {
  }
}
