/**
  The Base64 encoding of section 4 of RFC 4648 (alphabet of Table 1, '='
  padding), as `btoa` applies it to a string of byte-valued characters, and
  the strict decoder that inverts it.
 */
module Base64 {
  import opened Base

  /** The value of one Base64 digit. */
  type sextet = v: int | 0 <= v < 64

  /** A character of the Base64 alphabet (Table 1 of RFC 4648). */
  predicate IsDigit(c: char) {
    ('A' <= c <= 'Z') || ('a' <= c <= 'z') || ('0' <= c <= '9') || c == '+' || c == '/'
  }

  /** The padding character. */
  const Pad: char := '='

  /** The digit that stands for `v` in the alphabet. */
  function DigitChar(v: sextet): (c: char)
    ensures IsDigit(c) && DigitValue(c) == v
  {
    if v < 26 then ('A' as int + v) as char
    else if v < 52 then ('a' as int + (v - 26)) as char
    else if v < 62 then ('0' as int + (v - 52)) as char
    else if v == 62 then '+'
    else '/'
  }

  /** The value a digit stands for. */
  function DigitValue(c: char): (v: sextet)
    requires IsDigit(c)
  {
    if 'A' <= c <= 'Z' then c as int - 'A' as int
    else if 'a' <= c <= 'z' then c as int - 'a' as int + 26
    else if '0' <= c <= '9' then c as int - '0' as int + 52
    else if c == '+' then 62
    else 63
  }

  /** A digit is determined by its value. */
  lemma DigitCharOfValue(c: char)
    requires IsDigit(c)
    ensures DigitChar(DigitValue(c)) == c
  {
  }

  /** Three bytes as four digits: their 24 bits, six at a time, high bits first. */
  function EncodeGroup(b0: byte, b1: byte, b2: byte): string {
    [DigitChar(b0 / 4), DigitChar(b0 % 4 * 16 + b1 / 16), DigitChar(b1 % 16 * 4 + b2 / 64), DigitChar(b2 % 64)]
  }

  /** A final group of two bytes: three digits (low bits zero) and one pad. */
  function EncodeTwo(b0: byte, b1: byte): string {
    [DigitChar(b0 / 4), DigitChar(b0 % 4 * 16 + b1 / 16), DigitChar(b1 % 16 * 4), Pad]
  }

  /** A final group of one byte: two digits (low bits zero) and two pads. */
  function EncodeOne(b0: byte): string {
    [DigitChar(b0 / 4), DigitChar(b0 % 4 * 16), Pad, Pad]
  }

  /**
    Base64 text as `btoa` produces it: whole quads of alphabet digits, where
    only the last quad may end in one or two pads.
   */
  predicate IsCanonicalText(s: string) {
    && |s| % 4 == 0
    && (forall i :: 0 <= i < |s| - 2 ==> IsDigit(s[i]))
    && (|s| >= 4 ==> (IsDigit(s[|s| - 2]) || s[|s| - 2] == Pad) && (IsDigit(s[|s| - 1]) || s[|s| - 1] == Pad))
    && (|s| >= 4 && s[|s| - 2] == Pad ==> s[|s| - 1] == Pad)
  }

  /** `btoa`: every three bytes become four digits; a short last group is padded. */
  function Encode(data: seq<byte>): (s: string)
    ensures |s| == (|data| + 2) / 3 * 4
    ensures IsCanonicalText(s)
    decreases |data|
  {
    if |data| == 0 then []
    else if |data| == 1 then EncodeOne(data[0])
    else if |data| == 2 then EncodeTwo(data[0], data[1])
    else
      var rest := Encode(data[3..]);
      var s := EncodeGroup(data[0], data[1], data[2]) + rest;
      assert forall i :: 4 <= i < |s| ==> s[i] == rest[i - 4];
      s
  }

  /** Decodes one quad; a padded quad yields fewer bytes, and non-zero unused bits are rejected. */
  function DecodeQuad(q: string): (r: Option<seq<byte>>)
    requires |q| == 4
    ensures r.Some? ==> 1 <= |r.value| <= 3
    ensures r.Some? && |r.value| < 3 ==> q[3] == Pad
  {
    if !IsDigit(q[0]) || !IsDigit(q[1]) then None
    else
      var v0, v1 := DigitValue(q[0]), DigitValue(q[1]);
      var b0 := v0 * 4 + v1 / 16;
      if q[2] == Pad && q[3] == Pad then
        if v1 % 16 == 0 then Some([b0]) else None
      else if !IsDigit(q[2]) then None
      else
        var v2 := DigitValue(q[2]);
        var b1 := v1 % 16 * 16 + v2 / 4;
        if q[3] == Pad then
          if v2 % 4 == 0 then Some([b0, b1]) else None
        else if !IsDigit(q[3]) then None
        else Some([b0, b1, v2 % 4 * 64 + DigitValue(q[3])])
  }

  /**
    The strict inverse of `Encode` (section 4 of RFC 4648): text whose length
    is a multiple of four, pads only at the end of the last quad, unused bits zero.
   */
  function Decode(s: string): (r: Option<seq<byte>>)
    ensures r.Some? ==> |s| % 4 == 0 && (|r.value| == 0 <==> |s| == 0)
    decreases |s|
  {
    if |s| == 0 then Some([])
    else if |s| < 4 then None
    else
      match DecodeQuad(s[..4])
      case None => None
      case Some(head) =>
        if |s| > 4 && |head| < 3 then None
        else
          match Decode(s[4..])
          case None => None
          case Some(tail) => Some(head + tail)
  }

  lemma GroupRoundTrip(b0: byte, b1: byte, b2: byte)
    ensures DecodeQuad(EncodeGroup(b0, b1, b2)) == Some([b0, b1, b2])
  {
    var v1, v2 := b0 % 4 * 16 + b1 / 16, b1 % 16 * 4 + b2 / 64;
    assert v1 / 16 == b0 % 4 && v1 % 16 == b1 / 16;
    assert v2 / 4 == b1 % 16 && v2 % 4 == b2 / 64;
  }

  lemma TwoRoundTrip(b0: byte, b1: byte)
    ensures DecodeQuad(EncodeTwo(b0, b1)) == Some([b0, b1])
  {
    var v1, v2 := b0 % 4 * 16 + b1 / 16, b1 % 16 * 4;
    assert v1 / 16 == b0 % 4 && v1 % 16 == b1 / 16;
    assert v2 / 4 == b1 % 16 && v2 % 4 == 0;
  }

  lemma OneRoundTrip(b0: byte)
    ensures DecodeQuad(EncodeOne(b0)) == Some([b0])
  {
    var v1 := b0 % 4 * 16;
    assert v1 / 16 == b0 % 4 && v1 % 16 == 0;
  }

  /** Decoding what `btoa` produced gives back exactly the bytes it was given. */
  lemma {:induction false} DecodeEncode(data: seq<byte>)
    ensures Decode(Encode(data)) == Some(data)
    decreases |data|
  {
    if |data| == 0 {
    } else if |data| == 1 {
      var s := EncodeOne(data[0]);
      assert s[..4] == s && s[4..] == [];
      OneRoundTrip(data[0]);
      assert [data[0]] + [] == data;
    } else if |data| == 2 {
      var s := EncodeTwo(data[0], data[1]);
      assert s[..4] == s && s[4..] == [];
      TwoRoundTrip(data[0], data[1]);
      assert [data[0], data[1]] + [] == data;
    } else {
      var q := EncodeGroup(data[0], data[1], data[2]);
      var rest := Encode(data[3..]);
      var s := q + rest;
      assert s[..4] == q && s[4..] == rest;
      GroupRoundTrip(data[0], data[1], data[2]);
      DecodeEncode(data[3..]);
      assert |rest| == 0 <==> |data| == 3;
      assert DecodeQuad(s[..4]) == Some([data[0], data[1], data[2]]);
      assert Decode(s[4..]) == Some(data[3..]);
      assert [data[0], data[1], data[2]] + data[3..] == data;
    }
  }

  /** Distinct byte strings have distinct encodings. */
  lemma EncodeInjective(d1: seq<byte>, d2: seq<byte>)
    ensures Encode(d1) == Encode(d2) <==> d1 == d2
  {
    DecodeEncode(d1);
    DecodeEncode(d2);
  }

  /** A quad that decodes is the encoding of what it decodes to. */
  lemma QuadInverse(q: string, bytes: seq<byte>)
    requires |q| == 4 && DecodeQuad(q) == Some(bytes)
    ensures |bytes| == 1 ==> EncodeOne(bytes[0]) == q
    ensures |bytes| == 2 ==> EncodeTwo(bytes[0], bytes[1]) == q
    ensures |bytes| == 3 ==> EncodeGroup(bytes[0], bytes[1], bytes[2]) == q
  {
    var v0, v1 := DigitValue(q[0]), DigitValue(q[1]);
    DigitCharOfValue(q[0]);
    DigitCharOfValue(q[1]);
    assert bytes[0] / 4 == v0;
    if |bytes| >= 2 {
      var v2 := DigitValue(q[2]);
      DigitCharOfValue(q[2]);
      assert bytes[0] % 4 * 16 + bytes[1] / 16 == v1;
      if |bytes| == 3 {
        DigitCharOfValue(q[3]);
        assert bytes[1] % 16 * 4 + bytes[2] / 64 == v2;
      } else {
        assert bytes[1] % 16 * 4 == v2;
      }
    } else {
      assert bytes[0] % 4 * 16 == v1;
    }
  }

  /** Text that decodes is exactly what `btoa` makes of the decoded bytes: the decoder accepts nothing else. */
  lemma {:induction false} EncodeDecode(s: string, data: seq<byte>)
    requires Decode(s) == Some(data)
    ensures Encode(data) == s
    decreases |s|
  {
    if |s| > 0 {
      var head :| DecodeQuad(s[..4]) == Some(head);
      var tail :| Decode(s[4..]) == Some(tail);
      assert data == head + tail;
      QuadInverse(s[..4], head);
      if |s| == 4 {
        assert tail == [];
        assert s == s[..4];
        if |head| == 3 {
          assert data[3..] == [];
        }
      } else {
        EncodeDecode(s[4..], tail);
        assert data[..3] == head && data[3..] == tail;
        assert s == s[..4] + s[4..];
      }
    }
  }
}
