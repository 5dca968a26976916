/**
 * Base64 as section 4 of RFC 4648 defines it (alphabet A-Z a-z 0-9 + /,
 * '=' padding), which is what Node's `buffer.toString('base64')` produces.
 */
module Base64 {
  import opened Wrappers

  /** The 64 characters of the alphabet: letters, digits, '+' and '/'. */
  predicate InAlphabet(c: char) {
    'A' <= c <= 'Z' || 'a' <= c <= 'z' || '0' <= c <= '9' || c == '+' || c == '/'
  }

  /** The character of the 6-bit value v in the Base64 alphabet. */
  function CharOf(v: int): (c: char)
    requires 0 <= v < 64
    ensures c != '='
  {
    if v < 26 then ('A' as int + v) as char
    else if v < 52 then ('a' as int + v - 26) as char
    else if v < 62 then ('0' as int + v - 52) as char
    else if v == 62 then '+'
    else '/'
  }

  /** The 6-bit value a character stands for; None for characters outside the alphabet (including '='). */
  function ValueOf(c: char): (r: Option<int>)
    ensures r.Some? ==> 0 <= r.value < 64 && CharOf(r.value) == c
  {
    if 'A' <= c <= 'Z' then Some(c as int - 'A' as int)
    else if 'a' <= c <= 'z' then Some(c as int - 'a' as int + 26)
    else if '0' <= c <= '9' then Some(c as int - '0' as int + 52)
    else if c == '+' then Some(62)
    else if c == '/' then Some(63)
    else None
  }

  /** The alphabet is a bijection: every 6-bit value is read back from its character. */
  lemma ValueOfCharOf(v: int)
    requires 0 <= v < 64
    ensures ValueOf(CharOf(v)) == Some(v)
  {
  }

  /** Three bytes become four characters, six bits each, most significant first. */
  function EncodeGroup(b0: Byte, b1: Byte, b2: Byte): (q: string)
    ensures |q| == 4 && '=' !in q
  {
    [CharOf(b0 / 4), CharOf((b0 % 4) * 16 + b1 / 16), CharOf((b1 % 16) * 4 + b2 / 64), CharOf(b2 % 64)]
  }

  /** One or two trailing bytes are zero-filled to whole characters and padded with '=' to four. */
  function EncodeTail(bs: seq<Byte>): (q: string)
    requires 1 <= |bs| <= 2
    ensures |q| == 4 && q[3] == '=' && (q[2] == '=') == (|bs| == 1)
  {
    if |bs| == 1 then [CharOf(bs[0] / 4), CharOf((bs[0] % 4) * 16), '=', '=']
    else [CharOf(bs[0] / 4), CharOf((bs[0] % 4) * 16 + bs[1] / 16), CharOf((bs[1] % 16) * 4), '=']
  }

  /** The Base64 text of a byte sequence: four characters for every three bytes, the last group padded. */
  function Encode(bs: seq<Byte>): (s: string)
    ensures |s| == 4 * ((|bs| + 2) / 3)
    decreases |bs|
  {
    if |bs| == 0 then ""
    else if |bs| <= 2 then EncodeTail(bs)
    else EncodeGroup(bs[0], bs[1], bs[2]) + Encode(bs[3..])
  }

  lemma CharOfInAlphabet(v: int)
    requires 0 <= v < 64
    ensures InAlphabet(CharOf(v))
  {
  }

  lemma GroupInAlphabet(b0: Byte, b1: Byte, b2: Byte)
    ensures forall i :: 0 <= i < 4 ==> InAlphabet(EncodeGroup(b0, b1, b2)[i])
  {
    CharOfInAlphabet(b0 / 4);
    CharOfInAlphabet((b0 % 4) * 16 + b1 / 16);
    CharOfInAlphabet((b1 % 16) * 4 + b2 / 64);
    CharOfInAlphabet(b2 % 64);
  }

  lemma TailInAlphabet(bs: seq<Byte>)
    requires 1 <= |bs| <= 2
    ensures var q := EncodeTail(bs);
      InAlphabet(q[0]) && InAlphabet(q[1]) && (|bs| == 2 ==> InAlphabet(q[2]))
  {
    CharOfInAlphabet(bs[0] / 4);
    if |bs| == 1 {
      CharOfInAlphabet((bs[0] % 4) * 16);
    } else {
      CharOfInAlphabet((bs[0] % 4) * 16 + bs[1] / 16);
      CharOfInAlphabet((bs[1] % 16) * 4);
    }
  }

  /** Every character of the text is in the alphabet except '=' padding in the last two places. */
  lemma {:induction false} EncodeAlphabet(bs: seq<Byte>)
    ensures forall i :: 0 <= i < |Encode(bs)| ==> InAlphabet(Encode(bs)[i]) || (Encode(bs)[i] == '=' && i >= |Encode(bs)| - 2)
    decreases |bs|
  {
    if 1 <= |bs| <= 2 {
      TailInAlphabet(bs);
    } else if |bs| > 2 {
      var group, rest := EncodeGroup(bs[0], bs[1], bs[2]), Encode(bs[3..]);
      GroupInAlphabet(bs[0], bs[1], bs[2]);
      EncodeAlphabet(bs[3..]);
      var s := group + rest;
      assert Encode(bs) == s;
      forall i | 0 <= i < |s|
        ensures InAlphabet(s[i]) || (s[i] == '=' && i >= |s| - 2)
      {
        if i < 4 {
          assert s[i] == group[i] && InAlphabet(group[i]);
        } else {
          var j := i - 4;
          assert s[i] == rest[j];
          assert InAlphabet(rest[j]) || (rest[j] == '=' && j >= |rest| - 2);
        }
      }
    }
  }

  lemma DropGroup(n: int)
    requires n >= 3
    ensures (n - 3) % 3 == n % 3
  {
  }

  /** Padding appears exactly when the length is not a multiple of three. */
  lemma {:induction false} EncodePadded(bs: seq<Byte>)
    ensures ('=' in Encode(bs)) <==> (|bs| % 3 != 0)
    decreases |bs|
  {
    if |bs| > 2 {
      var group, rest := EncodeGroup(bs[0], bs[1], bs[2]), Encode(bs[3..]);
      EncodePadded(bs[3..]);
      assert Encode(bs) == group + rest;
      DropGroup(|bs|);
    }
  }

  /** The text ends in two '=' when one byte is left over, and in exactly one when two are. */
  lemma {:induction false} EncodePaddingLength(bs: seq<Byte>)
    requires |bs| % 3 != 0
    ensures var s := Encode(bs);
      s[|s| - 1] == '=' && (s[|s| - 2] == '=') == (|bs| % 3 == 1)
    decreases |bs|
  {
    if |bs| > 2 {
      var group, rest := EncodeGroup(bs[0], bs[1], bs[2]), Encode(bs[3..]);
      var s := group + rest;
      assert Encode(bs) == s;
      DropGroup(|bs|);
      EncodePaddingLength(bs[3..]);
      assert |rest| >= 2;
      assert s[|s| - 1] == rest[|rest| - 1] && s[|s| - 2] == rest[|rest| - 2];
    }
  }

  /** The bytes of one four-character group; padding is accepted only as "x==" or "=" at the end. */
  function DecodeQuartet(q: string): (r: Option<seq<Byte>>)
    requires |q| == 4
    ensures r.Some? ==> 1 <= |r.value| <= 3 && (|r.value| == 3) == (q[3] != '=')
  {
    var v0, v1, v2, v3 := ValueOf(q[0]), ValueOf(q[1]), ValueOf(q[2]), ValueOf(q[3]);
    if v0.None? || v1.None? then None
    else if q[2] == '=' && q[3] == '=' then
      Some([v0.value * 4 + v1.value / 16])
    else if v2.None? then None
    else if q[3] == '=' then
      Some([v0.value * 4 + v1.value / 16, (v1.value % 16) * 16 + v2.value / 4])
    else if v3.None? then None
    else
      Some([v0.value * 4 + v1.value / 16, (v1.value % 16) * 16 + v2.value / 4, (v2.value % 4) * 64 + v3.value])
  }

  /** The bytes a Base64 text stands for, or None when it is not well-formed. */
  function Decode(s: string): (r: Option<seq<Byte>>)
    decreases |s|
  {
    if |s| == 0 then Some([])
    else if |s| < 4 then None
    else if |s| == 4 then DecodeQuartet(s)
    else match DecodeQuartet(s[..4])
      case None => None
      case Some(group) =>
        if |group| != 3 then None
        else match Decode(s[4..])
          case None => None
          case Some(rest) => Some(group + rest)
  }

  lemma DecodeEncodeGroup(b0: Byte, b1: Byte, b2: Byte)
    ensures DecodeQuartet(EncodeGroup(b0, b1, b2)) == Some([b0, b1, b2])
  {
    var v0, v1, v2, v3 := b0 / 4, (b0 % 4) * 16 + b1 / 16, (b1 % 16) * 4 + b2 / 64, b2 % 64;
    ValueOfCharOf(v0);
    ValueOfCharOf(v1);
    ValueOfCharOf(v2);
    ValueOfCharOf(v3);
    assert v1 / 16 == b0 % 4 && v1 % 16 == b1 / 16;
    assert v2 / 4 == b1 % 16 && v2 % 4 == b2 / 64;
  }

  lemma DecodeEncodeTail(bs: seq<Byte>)
    requires 1 <= |bs| <= 2
    ensures DecodeQuartet(EncodeTail(bs)) == Some(bs)
  {
    var v0 := bs[0] / 4;
    ValueOfCharOf(v0);
    if |bs| == 1 {
      ValueOfCharOf((bs[0] % 4) * 16);
      assert ((bs[0] % 4) * 16) / 16 == bs[0] % 4;
      assert [bs[0]] == bs;
    } else {
      var v1, v2 := (bs[0] % 4) * 16 + bs[1] / 16, (bs[1] % 16) * 4;
      ValueOfCharOf(v1);
      ValueOfCharOf(v2);
      assert v1 / 16 == bs[0] % 4 && v1 % 16 == bs[1] / 16;
      assert v2 / 4 == bs[1] % 16;
      assert [bs[0], bs[1]] == bs;
    }
  }

  /** A full group followed by well-formed text decodes to the group's bytes followed by the text's. */
  lemma DecodeGroupThen(group: string, rest: string, g: seq<Byte>, r: seq<Byte>)
    requires |group| == 4 && DecodeQuartet(group) == Some(g) && |g| == 3
    requires |rest| > 0 && Decode(rest) == Some(r)
    ensures Decode(group + rest) == Some(g + r)
  {
    var s := group + rest;
    assert s[..4] == group;
    assert s[4..] == rest;
  }

  /** Round trip: every byte sequence is recovered from its Base64 text. */
  lemma {:induction false} DecodeEncode(bs: seq<Byte>)
    ensures Decode(Encode(bs)) == Some(bs)
    decreases |bs|
  {
    if |bs| == 0 {
    } else if |bs| <= 2 {
      DecodeEncodeTail(bs);
    } else {
      var group := EncodeGroup(bs[0], bs[1], bs[2]);
      DecodeEncodeGroup(bs[0], bs[1], bs[2]);
      assert [bs[0], bs[1], bs[2]] + bs[3..] == bs;
      if |bs| == 3 {
        assert Encode(bs) == group + "";
        assert bs == [bs[0], bs[1], bs[2]];
      } else {
        DecodeEncode(bs[3..]);
        DecodeGroupThen(group, Encode(bs[3..]), [bs[0], bs[1], bs[2]], bs[3..]);
      }
    }
  }

  /** Distinct byte sequences have distinct Base64 texts. */
  lemma EncodeInjective(a: seq<Byte>, b: seq<Byte>)
    ensures Encode(a) == Encode(b) ==> a == b
  {
    DecodeEncode(a);
    DecodeEncode(b);
  }
}
