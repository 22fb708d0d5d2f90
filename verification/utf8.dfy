/** UTF-8 as .NET's `Encoding.UTF8` applies it: `GetBytes` on the producer
    side and `GetString` in the worker. Decoding never fails: each maximal
    ill-formed subsequence becomes one U+FFFD, as section 3.9 of the Unicode
    Standard recommends and .NET does. */
module Utf8 {
  import opened Bytes

  const Replacement: char := '\U{FFFD}'

  predicate IsContinuation(x: byte) {
    0x80 <= x <= 0xBF
  }

  /** The one to four bytes of one scalar value. */
  function EncodeChar(c: char): (b: seq<byte>)
    ensures 1 <= |b| <= 4
    ensures (c as int < 0x80) <==> |b| == 1
  {
    var x := c as int;
    if x < 0x80 then [x]
    else if x < 0x800 then [0xC0 + x / 64, 0x80 + x % 64]
    else if x < 0x10000 then [0xE0 + x / 4096, 0x80 + (x / 64) % 64, 0x80 + x % 64]
    else [0xF0 + x / 262144, 0x80 + (x / 4096) % 64, 0x80 + (x / 64) % 64, 0x80 + x % 64]
  }

  function Encode(s: string): (b: seq<byte>)
    ensures |b| >= |s|
  {
    if |s| == 0 then [] else EncodeChar(s[0]) + Encode(s[1..])
  }

  /** Lowest and highest allowed second byte after a three- or four-byte
      lead, excluding overlong forms, surrogates and values past U+10FFFF. */
  function SecondLow(lead: byte): byte {
    if lead == 0xE0 then 0xA0 else if lead == 0xF0 then 0x90 else 0x80
  }

  function SecondHigh(lead: byte): byte {
    if lead == 0xED then 0x9F else if lead == 0xF4 then 0x8F else 0xBF
  }

  /** The first character of `b` and how many bytes it used. */
  function DecodeOne(b: seq<byte>): (r: (char, nat))
    requires |b| > 0
    ensures 1 <= r.1 <= |b| && r.1 <= 4
  {
    var b0: int := b[0];
    if b0 < 0x80 then (b0 as char, 1)
    else if 0xC2 <= b0 <= 0xDF then
      if |b| < 2 || !IsContinuation(b[1]) then (Replacement, 1)
      else (((b0 - 0xC0) * 64 + (b[1] as int - 0x80)) as char, 2)
    else if 0xE0 <= b0 <= 0xEF then
      if |b| < 2 || !(SecondLow(b0) <= b[1] <= SecondHigh(b0)) then (Replacement, 1)
      else if |b| < 3 || !IsContinuation(b[2]) then (Replacement, 2)
      else (((b0 - 0xE0) * 4096 + (b[1] as int - 0x80) * 64 + (b[2] as int - 0x80)) as char, 3)
    else if 0xF0 <= b0 <= 0xF4 then
      if |b| < 2 || !(SecondLow(b0) <= b[1] <= SecondHigh(b0)) then (Replacement, 1)
      else if |b| < 3 || !IsContinuation(b[2]) then (Replacement, 2)
      else if |b| < 4 || !IsContinuation(b[3]) then (Replacement, 3)
      else (((b0 - 0xF0) * 262144 + (b[1] as int - 0x80) * 4096 + (b[2] as int - 0x80) * 64 + (b[3] as int - 0x80)) as char, 4)
    else (Replacement, 1)
  }

  function Decode(b: seq<byte>): (s: string)
    ensures |s| <= |b|
    decreases |b|
  {
    if |b| == 0 then []
    else
      var (c, n) := DecodeOne(b);
      [c] + Decode(b[n..])
  }

  lemma DecodeOneOfOne(c: char, rest: seq<byte>)
    requires c as int < 0x80
    ensures DecodeOne(EncodeChar(c) + rest) == (c, 1)
  {
  }

  lemma DecodeOneOfTwo(c: char, rest: seq<byte>)
    requires 0x80 <= c as int < 0x800
    ensures DecodeOne(EncodeChar(c) + rest) == (c, 2)
  {
    var x := c as int;
    assert (x / 64) * 64 + x % 64 == x;
  }

  lemma DecodeOneOfThree(c: char, rest: seq<byte>)
    requires 0x800 <= c as int < 0x10000
    ensures DecodeOne(EncodeChar(c) + rest) == (c, 3)
  {
    var x := c as int;
    assert (x / 4096) * 4096 + ((x / 64) % 64) * 64 + x % 64 == x;
  }

  lemma DecodeOneOfFour(c: char, rest: seq<byte>)
    requires 0x10000 <= c as int
    ensures DecodeOne(EncodeChar(c) + rest) == (c, 4)
  {
    var x := c as int;
    var x1, x2, x3 := x / 64, x / 4096, x / 262144;
    assert x == x1 * 64 + x % 64;
    assert x1 == x2 * 64 + x1 % 64;
    assert x2 == x3 * 64 + x2 % 64;
    assert x1 % 64 == (x / 64) % 64 && x2 == x1 / 64 && x3 == x2 / 64;
    assert x3 * 262144 + (x2 % 64) * 4096 + (x1 % 64) * 64 + x % 64 == x;
  }

  /** The first character of an encoding is read back in full. */
  lemma DecodeOneEncode(c: char, rest: seq<byte>)
    ensures DecodeOne(EncodeChar(c) + rest) == (c, |EncodeChar(c)|)
  {
    var x := c as int;
    if x < 0x80 {
      DecodeOneOfOne(c, rest);
    } else if x < 0x800 {
      DecodeOneOfTwo(c, rest);
    } else if x < 0x10000 {
      DecodeOneOfThree(c, rest);
    } else {
      DecodeOneOfFour(c, rest);
    }
  }

  lemma DecodeUnfold(b: seq<byte>, c: char, n: nat)
    requires |b| > 0 && DecodeOne(b) == (c, n)
    ensures Decode(b) == [c] + Decode(b[n..])
  {
  }

  lemma EncodeUnfold(s: string)
    requires |s| > 0
    ensures Encode(s) == EncodeChar(s[0]) + Encode(s[1..])
  {
  }

  /** `GetString(GetBytes(s)) == s` for every string of scalar values. */
  lemma {:induction false} DecodeEncode(s: string)
    ensures Decode(Encode(s)) == s
  {
    if |s| > 0 {
      var head, tail := EncodeChar(s[0]), Encode(s[1..]);
      EncodeUnfold(s);
      DecodeOneEncode(s[0], tail);
      DecodeUnfold(head + tail, s[0], |head|);
      assert (head + tail)[|head|..] == tail;
      DecodeEncode(s[1..]);
      assert s == [s[0]] + s[1..];
    }
  }

  /** An ASCII string is its own encoding, byte for character. */
  lemma {:induction false} EncodeAscii(s: string)
    requires forall i :: 0 <= i < |s| ==> s[i] as int < 0x80
    ensures |Encode(s)| == |s|
    ensures forall i :: 0 <= i < |s| ==> Encode(s)[i] == s[i] as int
  {
    if |s| > 0 {
      EncodeAscii(s[1..]);
    }
  }
}
