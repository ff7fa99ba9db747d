/** Base64 with the alphabet of section 4 of RFC 4648 and `=` padding, as Python's
    `base64.b64encode` writes it and as `base64.b64decode` (CPython's non-strict
    `binascii.a2b_base64`) reads it. */
module Base64 {
  import opened Bytes
  import opened Wrappers
  import Text

  predicate IsAlphabet(c: char) {
    'A' <= c <= 'Z' || 'a' <= c <= 'z' || '0' <= c <= '9' || c == '+' || c == '/'
  }

  /** The character standing for the six-bit value `k`. */
  function CharOf(k: int): (c: char)
    requires 0 <= k < 64
    ensures IsAlphabet(c)
  {
    if k < 26 then ('A' as int + k) as char
    else if k < 52 then ('a' as int + k - 26) as char
    else if k < 62 then ('0' as int + k - 52) as char
    else if k == 62 then '+'
    else '/'
  }

  /** The six-bit value of an alphabet character; inverse of `CharOf`. */
  function ValueOf(c: char): (k: int)
    requires IsAlphabet(c)
    ensures 0 <= k < 64 && CharOf(k) == c
  {
    if 'A' <= c <= 'Z' then c as int - 'A' as int
    else if 'a' <= c <= 'z' then c as int - 'a' as int + 26
    else if '0' <= c <= '9' then c as int - '0' as int + 52
    else if c == '+' then 62
    else 63
  }

  lemma ValueOfCharOf(k: int)
    requires 0 <= k < 64
    ensures ValueOf(CharOf(k)) == k
  {
  }

  /** Three bytes as four characters. */
  function Quad(b0: byte, b1: byte, b2: byte): string {
    [CharOf(b0 / 4), CharOf((b0 % 4) * 16 + b1 / 16), CharOf((b1 % 16) * 4 + b2 / 64), CharOf(b2 % 64)]
  }

  /** `base64.b64encode(bs).decode("ascii")`: four characters per started group of three
      bytes, padded with `=`; only alphabet characters and `=` appear. */
  function Encode(bs: seq<byte>): (s: string)
    ensures |s| >= |bs|
    ensures |s| == 0 <==> |bs| == 0
    decreases |bs|
  {
    if |bs| == 0 then ""
    else if |bs| == 1 then [CharOf(bs[0] / 4), CharOf((bs[0] % 4) * 16), '=', '=']
    else if |bs| == 2 then
      [CharOf(bs[0] / 4), CharOf((bs[0] % 4) * 16 + bs[1] / 16), CharOf((bs[1] % 16) * 4), '=']
    else Quad(bs[0], bs[1], bs[2]) + Encode(bs[3..])
  }

  /** The encoding has four characters per started group of three bytes. */
  lemma {:induction false} EncodeLength(bs: seq<byte>)
    ensures |Encode(bs)| == 4 * ((|bs| + 2) / 3)
    decreases |bs|
  {
    if |bs| >= 3 {
      EncodeLength(bs[3..]);
      assert (|bs| + 2) / 3 == (|bs[3..]| + 2) / 3 + 1;
    }
  }

  /** Only alphabet characters and `=` appear in an encoding. */
  predicate IsEncodingText(s: string) {
    forall i :: 0 <= i < |s| ==> IsAlphabet(s[i]) || s[i] == '='
  }

  lemma {:induction false} EncodeAlphabet(bs: seq<byte>)
    ensures IsEncodingText(Encode(bs))
    decreases |bs|
  {
    if |bs| >= 3 {
      EncodeAlphabet(bs[3..]);
      var q := Quad(bs[0], bs[1], bs[2]);
      assert Encode(bs) == q + Encode(bs[3..]);
      assert forall i :: 0 <= i < |q| ==> IsAlphabet(q[i]);
    }
  }

  /** The decoder's registers: position within the current quad, the bits carried over
      from the previous character, the run of `=` seen, and the bytes produced. */
  datatype DecodeState = DecodeState(quad: nat, left: nat, pads: nat, out: seq<byte>)

  /** The carried bits fit the room the quad position leaves for them. */
  predicate Valid(st: DecodeState) {
    st.quad < 4 && st.left < (if st.quad <= 1 then 64 else if st.quad == 2 then 16 else 4)
  }

  /** One alphabet character of value `v` enters the decoder. */
  function Absorb(st: DecodeState, v: int): (r: DecodeState)
    requires Valid(st) && 0 <= v < 64
    ensures Valid(r) && r.pads == 0
  {
    match st.quad
    case 0 => DecodeState(1, v, 0, st.out)
    case 1 => DecodeState(2, v % 16, 0, st.out + [st.left * 4 + v / 16])
    case 2 => DecodeState(3, v % 4, 0, st.out + [st.left * 16 + v / 4])
    case 3 => DecodeState(0, 0, 0, st.out + [st.left * 64 + v])
  }

  /** What one input character does to the decoder. */
  datatype Step = Finished(result: seq<byte>) | Continue(next: DecodeState)

  /** Characters outside the alphabet are skipped; a `=` ends decoding once it completes
      a quad that holds at least two data characters, and is otherwise counted (after
      two data characters) or ignored. */
  function Next(st: DecodeState, c: char): (r: Step)
    requires Valid(st)
    ensures r.Continue? ==> Valid(r.next)
  {
    if c == '=' then
      if st.quad >= 2 && st.quad + st.pads + 1 >= 4 then Finished(st.out)
      else Continue(if st.quad >= 2 then st.(pads := st.pads + 1) else st)
    else if IsAlphabet(c) then Continue(Absorb(st, ValueOf(c)))
    else Continue(st)
  }

  /** The rest of `a2b_base64` from state `st`; input that ends part-way through a quad
      is an error ("Incorrect padding", or a data length one more than a multiple of
      four). */
  function DecodeFrom(s: string, st: DecodeState): Option<seq<byte>>
    requires Valid(st)
    decreases |s|
  {
    if |s| == 0 then
      if st.quad == 0 then Some(st.out) else None
    else
      match Next(st, s[0])
      case Finished(bs) => Some(bs)
      case Continue(st') => DecodeFrom(s[1..], st')
  }

  const Start: DecodeState := DecodeState(0, 0, 0, [])

  /** Why `base64.b64decode` raised. */
  datatype DecodeError =
    | NonAscii     // the `str` argument held a non-ASCII character (ValueError)
    | BadPadding   // binascii.Error: the data ended part-way through a quad

  datatype Decoded = Bytes(value: seq<byte>) | Error(error: DecodeError)

  /** `base64.b64decode(s)` on a `str`. */
  function Decode(s: string): (r: Decoded)
    ensures r.Error? && r.error == NonAscii <==> !Text.IsAscii(s)
  {
    if !Text.IsAscii(s) then Error(NonAscii)
    else match DecodeFrom(s, Start)
      case Some(bs) => Bytes(bs)
      case None => Error(BadPadding)
  }

  /** An alphabet character at the front is absorbed and decoding carries on. */
  lemma DecodeData(c: char, rest: string, st: DecodeState)
    requires Valid(st) && IsAlphabet(c)
    ensures DecodeFrom([c] + rest, st) == DecodeFrom(rest, Absorb(st, ValueOf(c)))
  {
    assert ([c] + rest)[1..] == rest;
    assert Next(st, c) == Continue(Absorb(st, ValueOf(c)));
  }

  /** The bit arithmetic of one quad: four six-bit values carry exactly three bytes. */
  lemma QuadBits(b0: byte, b1: byte, b2: byte, st: DecodeState)
    requires st.quad == 0 && Valid(st)
    ensures Absorb(Absorb(Absorb(Absorb(st, b0 / 4), (b0 % 4) * 16 + b1 / 16),
                          (b1 % 16) * 4 + b2 / 64), b2 % 64)
         == DecodeState(0, 0, 0, st.out + [b0, b1, b2])
  {
    var st1 := Absorb(st, b0 / 4);
    var st2 := Absorb(st1, (b0 % 4) * 16 + b1 / 16);
    var st3 := Absorb(st2, (b1 % 16) * 4 + b2 / 64);
    assert st2.out == st.out + [b0];
    assert st3.out == st.out + [b0, b1];
  }

  /** A full quad of alphabet characters decodes to the three bytes it encodes. */
  lemma DecodeQuad(b0: byte, b1: byte, b2: byte, rest: string, st: DecodeState)
    requires st.quad == 0 && Valid(st)
    ensures DecodeFrom(Quad(b0, b1, b2) + rest, st)
         == DecodeFrom(rest, DecodeState(0, 0, 0, st.out + [b0, b1, b2]))
  {
    var v0, v1, v2, v3 := b0 / 4, (b0 % 4) * 16 + b1 / 16, (b1 % 16) * 4 + b2 / 64, b2 % 64;
    var c0, c1, c2, c3 := CharOf(v0), CharOf(v1), CharOf(v2), CharOf(v3);
    ValueOfCharOf(v0); ValueOfCharOf(v1); ValueOfCharOf(v2); ValueOfCharOf(v3);
    var st1 := Absorb(st, v0);
    var st2 := Absorb(st1, v1);
    var st3 := Absorb(st2, v2);
    assert Quad(b0, b1, b2) + rest == [c0] + ([c1] + ([c2] + ([c3] + rest)));
    DecodeData(c0, [c1] + ([c2] + ([c3] + rest)), st);
    DecodeData(c1, [c2] + ([c3] + rest), st1);
    DecodeData(c2, [c3] + rest, st2);
    DecodeData(c3, rest, st3);
    QuadBits(b0, b1, b2, st);
  }

  /** A final single byte, written as two characters and `==`, decodes to itself. */
  lemma DecodeTail1(b0: byte, st: DecodeState)
    requires st.quad == 0 && Valid(st)
    ensures DecodeFrom(Encode([b0]), st) == Some(st.out + [b0])
  {
    var v0, v1 := b0 / 4, (b0 % 4) * 16;
    ValueOfCharOf(v0); ValueOfCharOf(v1);
    var st1 := Absorb(st, v0);
    var st2 := Absorb(st1, v1);
    assert st2 == DecodeState(2, 0, 0, st.out + [b0]);
    assert Encode([b0]) == [CharOf(v0)] + ([CharOf(v1)] + "==");
    DecodeData(CharOf(v0), [CharOf(v1)] + "==", st);
    DecodeData(CharOf(v1), "==", st1);
    assert DecodeFrom("==", st2) == DecodeFrom("=", st2.(pads := 1));
  }

  /** The bit arithmetic of a two-byte tail: three six-bit values carry the two bytes. */
  lemma TailBits2(b0: byte, b1: byte, st: DecodeState)
    requires st.quad == 0 && Valid(st)
    ensures var st3 := Absorb(Absorb(Absorb(st, b0 / 4), (b0 % 4) * 16 + b1 / 16), (b1 % 16) * 4);
      st3.quad == 3 && st3.out == st.out + [b0, b1]
  {
    var st1 := Absorb(st, b0 / 4);
    var st2 := Absorb(st1, (b0 % 4) * 16 + b1 / 16);
    assert st2.out == st.out + [b0];
  }

  /** Two final bytes are written as three characters and one `=`. */
  lemma EncodeTwo(b0: byte, b1: byte)
    ensures Encode([b0, b1])
         == [CharOf(b0 / 4)] + ([CharOf((b0 % 4) * 16 + b1 / 16)] + ([CharOf((b1 % 16) * 4)] + "="))
  {
  }

  /** Two final bytes, written as three characters and `=`, decode to themselves. */
  lemma DecodeTail2(b0: byte, b1: byte, st: DecodeState)
    requires st.quad == 0 && Valid(st)
    ensures DecodeFrom(Encode([b0, b1]), st) == Some(st.out + [b0, b1])
  {
    var v0, v1, v2 := b0 / 4, (b0 % 4) * 16 + b1 / 16, (b1 % 16) * 4;
    ValueOfCharOf(v0); ValueOfCharOf(v1); ValueOfCharOf(v2);
    var st1 := Absorb(st, v0);
    var st2 := Absorb(st1, v1);
    var st3 := Absorb(st2, v2);
    TailBits2(b0, b1, st);
    EncodeTwo(b0, b1);
    DecodeData(CharOf(v0), [CharOf(v1)] + ([CharOf(v2)] + "="), st);
    DecodeData(CharOf(v1), [CharOf(v2)] + "=", st1);
    DecodeData(CharOf(v2), "=", st2);
    assert Next(st3, '=') == Finished(st3.out);
  }

  /** Decoding past one full quad of an encoding. */
  lemma DecodeEncodeQuad(bs: seq<byte>, st: DecodeState)
    requires |bs| >= 3 && st.quad == 0 && Valid(st)
    ensures DecodeFrom(Encode(bs), st)
         == DecodeFrom(Encode(bs[3..]), DecodeState(0, 0, 0, st.out + bs[..3]))
  {
    assert Encode(bs) == Quad(bs[0], bs[1], bs[2]) + Encode(bs[3..]);
    DecodeQuad(bs[0], bs[1], bs[2], Encode(bs[3..]), st);
    assert bs[..3] == [bs[0], bs[1], bs[2]];
  }

  /** Round trip for a final group of fewer than three bytes. */
  lemma DecodeEncodeShort(bs: seq<byte>, st: DecodeState)
    requires |bs| < 3 && st.quad == 0 && Valid(st)
    ensures DecodeFrom(Encode(bs), st) == Some(st.out + bs)
  {
    if |bs| == 0 {
      assert Encode(bs) == "";
      assert st.out + bs == st.out;
    } else if |bs| == 1 {
      assert bs == [bs[0]];
      DecodeTail1(bs[0], st);
    } else {
      assert bs == [bs[0], bs[1]];
      DecodeTail2(bs[0], bs[1], st);
    }
  }

  /** Round trip from any quad boundary: decoding an encoding appends exactly the
      encoded bytes. */
  lemma {:induction false} DecodeEncodeFrom(bs: seq<byte>, st: DecodeState)
    requires st.quad == 0 && Valid(st)
    ensures DecodeFrom(Encode(bs), st) == Some(st.out + bs)
    decreases |bs|
  {
    if |bs| < 3 {
      DecodeEncodeShort(bs, st);
    } else {
      var st' := DecodeState(0, 0, 0, st.out + bs[..3]);
      DecodeEncodeQuad(bs, st);
      DecodeEncodeFrom(bs[3..], st');
      assert st'.out + bs[3..] == st.out + bs;
    }
  }

  /** `b64decode(b64encode(bs)) == bs`. */
  lemma DecodeEncode(bs: seq<byte>)
    ensures Decode(Encode(bs)) == Bytes(bs)
  {
    EncodeAlphabet(bs);
    var s := Encode(bs);
    assert Text.IsAscii(s) by {
      forall i | 0 <= i < |s| ensures s[i] < '\U{80}' {
        assert IsAlphabet(s[i]) || s[i] == '=';
      }
    }
    DecodeEncodeFrom(bs, Start);
  }
}
