/**
 * UTF-8, the encoding `Buffer.from(string)` applies by default before the
 * ETag pre-image is Base64-encoded. Dafny characters are Unicode scalar
 * values, so every character has exactly one well-formed encoding of one to
 * four bytes.
 */
module Utf8 {
  import opened Wrappers

  /** The Unicode scalar values: code points that are not surrogates. */
  predicate IsScalar(v: int) {
    (0 <= v < 0xD800) || (0xE000 <= v < 0x11_0000)
  }

  predicate IsContinuation(b: Byte) {
    0x80 <= b < 0xC0
  }

  /** The bytes of one character: the shortest form, as the encoding requires. */
  function EncodeChar(c: char): (bs: seq<Byte>)
    ensures 1 <= |bs| <= 4
    ensures (|bs| == 1) == (c as int < 0x80)
    ensures forall i :: 1 <= i < |bs| ==> IsContinuation(bs[i])
  {
    var v := c as int;
    if v < 0x80 then [v]
    else if v < 0x800 then [0xC0 + v / 64, 0x80 + v % 64]
    else if v < 0x1_0000 then [0xE0 + v / 4096, 0x80 + (v / 64) % 64, 0x80 + v % 64]
    else [0xF0 + v / 262144, 0x80 + (v / 4096) % 64, 0x80 + (v / 64) % 64, 0x80 + v % 64]
  }

  /** The bytes of a string: the encodings of its characters, in order. */
  function Encode(s: string): (bs: seq<Byte>)
    decreases |s|
  {
    if |s| == 0 then [] else EncodeChar(s[0]) + Encode(s[1..])
  }

  /**
   * Reads the character at the head of `bs`, with the number of bytes it
   * occupies; None when the head is not a well-formed shortest-form sequence.
   */
  function DecodeFirst(bs: seq<Byte>): (r: Option<(char, nat)>)
    requires |bs| > 0
    ensures r.Some? ==> 1 <= r.value.1 <= |bs|
  {
    var b0: int := bs[0];
    if b0 < 0x80 then
      Some((b0 as char, 1))
    else if 0xC0 <= b0 < 0xE0 && 2 <= |bs| && IsContinuation(bs[1]) then
      var v := (b0 - 0xC0) * 64 + (bs[1] as int - 0x80);
      if 0x80 <= v then Some((v as char, 2)) else None
    else if 0xE0 <= b0 < 0xF0 && 3 <= |bs| && IsContinuation(bs[1]) && IsContinuation(bs[2]) then
      var v := (b0 - 0xE0) * 4096 + (bs[1] as int - 0x80) * 64 + (bs[2] as int - 0x80);
      if 0x800 <= v && IsScalar(v) then Some((v as char, 3)) else None
    else if 0xF0 <= b0 < 0xF8 && 4 <= |bs| && IsContinuation(bs[1]) && IsContinuation(bs[2])
            && IsContinuation(bs[3]) then
      var v := (b0 - 0xF0) * 262144 + (bs[1] as int - 0x80) * 4096 + (bs[2] as int - 0x80) * 64 + (bs[3] as int - 0x80);
      if 0x1_0000 <= v < 0x11_0000 then Some((v as char, 4)) else None
    else
      None
  }

  /** The string a byte sequence encodes, or None when it is not well-formed UTF-8. */
  function Decode(bs: seq<Byte>): (r: Option<string>)
    decreases |bs|
  {
    if |bs| == 0 then Some("")
    else match DecodeFirst(bs)
      case None => None
      case Some((c, n)) =>
        match Decode(bs[n..])
        case None => None
        case Some(rest) => Some([c] + rest)
  }

  /** Splitting off the low six bits and putting them back gives the value back. */
  lemma SixBits(v: int)
    requires 0 <= v
    ensures v == (v / 64) * 64 + v % 64 && 0 <= v % 64 < 64
  {
  }

  /** Decoding the head of an encoded character gives that character back and consumes exactly its bytes. */
  lemma DecodeFirstEncodeChar(c: char, rest: seq<Byte>)
    ensures DecodeFirst(EncodeChar(c) + rest) == Some((c, |EncodeChar(c)|))
  {
    var v := c as int;
    if v < 0x80 {
    } else if v < 0x800 {
      DecodeTwo(c, rest);
    } else if v < 0x1_0000 {
      DecodeThree(c, rest);
    } else {
      DecodeFour(c, rest);
    }
  }

  lemma DecodeTwo(c: char, rest: seq<Byte>)
    requires 0x80 <= c as int < 0x800
    ensures DecodeFirst(EncodeChar(c) + rest) == Some((c, 2))
  {
    var v := c as int;
    var bs := EncodeChar(c) + rest;
    SixBits(v);
    assert bs[0] as int - 0xC0 == v / 64 && bs[1] as int - 0x80 == v % 64;
  }

  lemma DecodeThree(c: char, rest: seq<Byte>)
    requires 0x800 <= c as int < 0x1_0000
    ensures DecodeFirst(EncodeChar(c) + rest) == Some((c, 3))
  {
    var v := c as int;
    var bs := EncodeChar(c) + rest;
    SixBits(v);
    SixBits(v / 64);
    assert v / 64 / 64 == v / 4096;
    assert bs[0] as int - 0xE0 == v / 4096 && bs[1] as int - 0x80 == (v / 64) % 64;
    assert bs[2] as int - 0x80 == v % 64;
    assert IsScalar(v);
  }

  lemma DecodeFour(c: char, rest: seq<Byte>)
    requires 0x1_0000 <= c as int
    ensures DecodeFirst(EncodeChar(c) + rest) == Some((c, 4))
  {
    var v := c as int;
    var bs := EncodeChar(c) + rest;
    SixBits(v);
    SixBits(v / 64);
    SixBits(v / 4096);
    assert v / 64 / 64 == v / 4096;
    assert v / 4096 / 64 == v / 262144;
    assert bs[0] as int - 0xF0 == v / 262144 && bs[1] as int - 0x80 == (v / 4096) % 64;
    assert bs[2] as int - 0x80 == (v / 64) % 64 && bs[3] as int - 0x80 == v % 64;
  }

  /** Round trip: every string is recovered from its UTF-8 encoding. */
  lemma {:induction false} DecodeEncode(s: string)
    ensures Decode(Encode(s)) == Some(s)
    decreases |s|
  {
    if |s| > 0 {
      var head := EncodeChar(s[0]);
      var bs := head + Encode(s[1..]);
      DecodeFirstEncodeChar(s[0], Encode(s[1..]));
      assert bs[|head|..] == Encode(s[1..]);
      DecodeEncode(s[1..]);
      assert [s[0]] + s[1..] == s;
    }
  }

  /** Distinct strings have distinct encodings. */
  lemma EncodeInjective(s1: string, s2: string)
    ensures Encode(s1) == Encode(s2) ==> s1 == s2
  {
    DecodeEncode(s1);
    DecodeEncode(s2);
  }
}
