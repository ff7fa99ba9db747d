/** UTF-8 as Python uses it on the sandbox boundary: `str.encode("utf-8")` for the
    generated program, and `bytes.decode("utf-8", "replace")` for the captured output. */
module Utf8 {
  import opened Bytes

  /** U+FFFD, what the "replace" error handler substitutes for an ill-formed subsequence. */
  const Replacement: char := '\U{FFFD}'

  /** Encoding of one Unicode scalar value: one to four bytes. */
  function EncodeChar(c: char): (bs: seq<byte>)
    ensures 1 <= |bs| <= 4
    ensures |bs| == 1 <==> c < '\U{80}'
    ensures c < '\U{80}' ==> bs[0] == c as int
  {
    var n := c as int;
    if n < 0x80 then [n]
    else if n < 0x800 then [0xC0 + n / 64, 0x80 + n % 64]
    else if n < 0x1_0000 then [0xE0 + n / 4096, 0x80 + (n / 64) % 64, 0x80 + n % 64]
    else [0xF0 + n / 262144, 0x80 + (n / 4096) % 64, 0x80 + (n / 64) % 64, 0x80 + n % 64]
  }

  /** `s.encode("utf-8")`; total because a Dafny `char` is never a surrogate. */
  function Encode(s: string): (bs: seq<byte>)
    ensures |bs| >= |s|
    ensures |s| > 0 ==> |bs| > 0
  {
    if |s| == 0 then [] else EncodeChar(s[0]) + Encode(s[1..])
  }

  predicate IsCont(b: byte) {
    0x80 <= b <= 0xBF
  }

  /** The allowed range of the second byte of a three-byte sequence led by `b0`
      (no overlong forms, no surrogates). */
  predicate SecondOf3(b0: byte, b1: byte) {
    if b0 == 0xE0 then 0xA0 <= b1 <= 0xBF
    else if b0 == 0xED then 0x80 <= b1 <= 0x9F
    else IsCont(b1)
  }

  /** The allowed range of the second byte of a four-byte sequence led by `b0`
      (no overlong forms, nothing above U+10FFFF). */
  predicate SecondOf4(b0: byte, b1: byte) {
    if b0 == 0xF0 then 0x90 <= b1 <= 0xBF
    else if b0 == 0xF4 then 0x80 <= b1 <= 0x8F
    else IsCont(b1)
  }

  /** A decoded character and the number of bytes it used. */
  datatype Step = Step(c: char, used: nat)

  /** Decodes the character at the front of `bs`; an ill-formed prefix yields U+FFFD
      and consumes its maximal well-formed part (at least one byte), as CPython's
      decoder does. */
  function DecodeOne(bs: seq<byte>): (r: Step)
    requires |bs| > 0
    ensures 1 <= r.used <= |bs| && r.used <= 4
  {
    var b0 := bs[0] as int;
    if b0 < 0x80 then Step(b0 as char, 1)
    else if 0xC2 <= b0 <= 0xDF then
      if |bs| >= 2 && IsCont(bs[1]) then Step(((b0 - 0xC0) * 64 + (bs[1] as int - 0x80)) as char, 2)
      else Step(Replacement, 1)
    else if 0xE0 <= b0 <= 0xEF then
      if |bs| >= 2 && SecondOf3(b0, bs[1]) then
        if |bs| >= 3 && IsCont(bs[2]) then
          Step(((b0 - 0xE0) * 4096 + (bs[1] as int - 0x80) * 64 + (bs[2] as int - 0x80)) as char, 3)
        else Step(Replacement, 2)
      else Step(Replacement, 1)
    else if 0xF0 <= b0 <= 0xF4 then
      if |bs| >= 2 && SecondOf4(b0, bs[1]) then
        if |bs| >= 3 && IsCont(bs[2]) then
          if |bs| >= 4 && IsCont(bs[3]) then
            Step(((b0 - 0xF0) * 262144 + (bs[1] as int - 0x80) * 4096 + (bs[2] as int - 0x80) * 64 + (bs[3] as int - 0x80)) as char, 4)
          else Step(Replacement, 3)
        else Step(Replacement, 2)
      else Step(Replacement, 1)
    else Step(Replacement, 1)
  }

  /** `bs.decode("utf-8", "replace")`: never fails, at most one character per byte. */
  function DecodeReplace(bs: seq<byte>): (s: string)
    ensures |s| <= |bs|
    decreases |bs|
  {
    if |bs| == 0 then ""
    else
      var st := DecodeOne(bs);
      [st.c] + DecodeReplace(bs[st.used..])
  }

  /** The arithmetic behind a two-, three- and four-byte sequence: the digits base 64
      put back together give the code point. */
  lemma Digits64(n: nat)
    ensures n == (n / 64) * 64 + n % 64
    ensures n / 4096 == (n / 64) / 64
    ensures n / 262144 == (n / 4096) / 64
    ensures n / 64 == (n / 4096) * 64 + (n / 64) % 64
    ensures n / 4096 == (n / 262144) * 64 + (n / 4096) % 64
  {
    var q1 := n / 64;
    var q2 := q1 / 64;
    var q3 := q2 / 64;
    assert n == 64 * q1 + n % 64;
    assert q1 == 64 * q2 + q1 % 64;
    assert q2 == 64 * q3 + q2 % 64;
    assert n == 4096 * q2 + (64 * (q1 % 64) + n % 64);
    assert n / 4096 == q2;
    assert n == 262144 * q3 + (4096 * (q2 % 64) + 64 * (q1 % 64) + n % 64);
    assert n / 262144 == q3;
  }

  lemma DecodeTwo(n: int, rest: seq<byte>)
    requires 0x80 <= n < 0x800
    ensures DecodeOne([0xC0 + n / 64, 0x80 + n % 64] + rest) == Step(n as char, 2)
  {
  }

  lemma DecodeThree(n: int, rest: seq<byte>)
    requires 0x800 <= n < 0xD800 || 0xE000 <= n < 0x1_0000
    ensures DecodeOne([0xE0 + n / 4096, 0x80 + (n / 64) % 64, 0x80 + n % 64] + rest) == Step(n as char, 3)
  {
    Digits64(n);
    assert (n / 4096) * 4096 + ((n / 64) % 64) * 64 + n % 64 == n;
  }

  lemma DecodeFour(n: int, rest: seq<byte>)
    requires 0x1_0000 <= n < 0x11_0000
    ensures DecodeOne([0xF0 + n / 262144, 0x80 + (n / 4096) % 64, 0x80 + (n / 64) % 64, 0x80 + n % 64] + rest)
         == Step(n as char, 4)
  {
    Digits64(n);
    assert (n / 262144) * 262144 + ((n / 4096) % 64) * 4096 + ((n / 64) % 64) * 64 + n % 64 == n;
  }

  /** Decoding a character's own encoding gives the character back and uses all of it. */
  lemma DecodeOneEncoded(c: char, rest: seq<byte>)
    ensures DecodeOne(EncodeChar(c) + rest) == Step(c, |EncodeChar(c)|)
  {
    var n := c as int;
    if n < 0x80 {
    } else if n < 0x800 {
      DecodeTwo(n, rest);
    } else if n < 0x1_0000 {
      DecodeThree(n, rest);
    } else {
      DecodeFour(n, rest);
    }
  }

  /** Round trip: decoding (with replacement) the UTF-8 encoding of any string gives
      the string back, so replacement only ever fires on bytes that are not UTF-8. */
  lemma {:induction false} DecodeEncode(s: string)
    ensures DecodeReplace(Encode(s)) == s
  {
    if |s| > 0 {
      var bs := Encode(s);
      assert bs == EncodeChar(s[0]) + Encode(s[1..]);
      DecodeOneEncoded(s[0], Encode(s[1..]));
      assert bs[|EncodeChar(s[0])|..] == Encode(s[1..]);
      DecodeEncode(s[1..]);
      assert s == [s[0]] + s[1..];
    }
  }
}
