/**
  UTF-8 (RFC 3629), the byte form `unescape(encodeURIComponent(text))`
  produces for a string: each character becomes one to four bytes; `btoa`
  then sees one character per byte. Characters are Unicode scalar values.
 */
module Utf8 {
  import opened Base

  /** A continuation byte 10xxxxxx carrying the six bits `v`. */
  function Cont(v: int): byte
    requires 0 <= v < 64
  {
    0x80 + v
  }

  predicate IsCont(b: byte) {
    0x80 <= b < 0xC0
  }

  /** The bytes of one character (section 3 of RFC 3629). */
  function EncodeChar(c: char): (bytes: seq<byte>)
    ensures 1 <= |bytes| <= 4
    ensures (|bytes| == 1) == (c as int < 0x80)
  {
    var n := c as int;
    if n < 0x80 then [n]
    else
      var q1, r1 := n / 64, n % 64;
      if n < 0x800 then [0xC0 + q1, Cont(r1)]
      else
        var q2, r2 := q1 / 64, q1 % 64;
        if n < 0x10000 then [0xE0 + q2, Cont(r2), Cont(r1)]
        else
          var q3, r3 := q2 / 64, q2 % 64;
          [0xF0 + q3, Cont(r3), Cont(r2), Cont(r1)]
  }

  /** The bytes of a string: its characters' bytes, in order. */
  function Encode(s: string): (bytes: seq<byte>)
    ensures |bytes| >= |s|
    ensures |bytes| == |s| <==> forall i :: 0 <= i < |s| ==> s[i] as int < 0x80
  {
    if s == [] then []
    else
      assert forall i :: 1 <= i < |s| ==> s[i] == s[1..][i - 1];
      EncodeChar(s[0]) + Encode(s[1..])
  }

  /** A value that is a Unicode scalar value, hence a `char`. */
  predicate IsScalar(n: int) {
    (0 <= n < 0xD800) || (0xE000 <= n < 0x110000)
  }

  /**
    The first character of `bytes` and how many bytes it takes, when they
    start with a well-formed sequence of the table in section 4 of RFC 3629
    (no overlong forms, no surrogates, nothing above U+10FFFF).
   */
  function DecodeFirst(bytes: seq<byte>): (r: Option<(char, nat)>)
    ensures r.Some? ==> 1 <= r.value.1 <= |bytes|
  {
    if |bytes| == 0 then None
    else
      var b0: int := bytes[0];
      if b0 < 0x80 then Some((b0 as char, 1))
      else if b0 < 0xC2 then None
      else if b0 < 0xE0 then
        if |bytes| < 2 || !IsCont(bytes[1]) then None
        else Some((((b0 - 0xC0) * 64 + (bytes[1] as int - 0x80)) as char, 2))
      else if b0 < 0xF0 then
        if |bytes| < 3 || !IsCont(bytes[1]) || !IsCont(bytes[2]) then None
        else
          var n := ((b0 - 0xE0) * 64 + (bytes[1] as int - 0x80)) * 64 + (bytes[2] as int - 0x80);
          if n < 0x800 || !IsScalar(n) then None else Some((n as char, 3))
      else if b0 < 0xF5 then
        if |bytes| < 4 || !IsCont(bytes[1]) || !IsCont(bytes[2]) || !IsCont(bytes[3]) then None
        else
          var n := (((b0 - 0xF0) * 64 + (bytes[1] as int - 0x80)) * 64 + (bytes[2] as int - 0x80)) * 64 + (bytes[3] as int - 0x80);
          if n < 0x10000 || !IsScalar(n) then None else Some((n as char, 4))
      else None
  }

  /** The string whose UTF-8 form is `bytes`, if they are well-formed UTF-8. */
  function Decode(bytes: seq<byte>): (r: Option<string>)
    ensures r.Some? ==> |r.value| <= |bytes|
    decreases |bytes|
  {
    if |bytes| == 0 then Some([])
    else
      match DecodeFirst(bytes)
      case None => None
      case Some((c, n)) =>
        match Decode(bytes[n..])
        case None => None
        case Some(rest) => Some([c] + rest)
  }

  /** The first character's bytes decode to that character, whatever follows them. */
  lemma DecodeFirstEncodeChar(c: char, rest: seq<byte>)
    ensures DecodeFirst(EncodeChar(c) + rest) == Some((c, |EncodeChar(c)|))
  {
    var n := c as int;
    var bytes := EncodeChar(c) + rest;
    if n >= 0x80 {
      var q1, r1 := n / 64, n % 64;
      assert n == q1 * 64 + r1;
      if n >= 0x800 {
        var q2, r2 := q1 / 64, q1 % 64;
        assert q1 == q2 * 64 + r2;
        if n >= 0x10000 {
          var q3, r3 := q2 / 64, q2 % 64;
          assert q2 == q3 * 64 + r3;
          assert bytes[0] == 0xF0 + q3;
        }
      }
    }
  }

  /** Decoding the UTF-8 form of a string gives back the string. */
  lemma {:induction false} DecodeEncode(s: string)
    ensures Decode(Encode(s)) == Some(s)
  {
    if s != [] {
      var head, rest := EncodeChar(s[0]), Encode(s[1..]);
      DecodeFirstEncodeChar(s[0], rest);
      assert (head + rest)[|head|..] == rest;
      DecodeEncode(s[1..]);
      assert [s[0]] + s[1..] == s;
    }
  }
}
