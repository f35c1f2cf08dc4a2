/**
  JSON strings (section 7 of RFC 8259) as `JSON.stringify` writes them, and a
  reader for them. The writer escapes the quotation mark, the reverse solidus
  and every control character (the five with a short form as `\b \t \n \f \r`,
  the others as `\u00xx` with lower-case hex digits); everything else is
  written as is.
 */
module JsonText {
  import opened Base

  /** A lower-case hexadecimal digit. */
  function HexDigit(v: int): (c: char)
    requires 0 <= v < 16
    ensures HexValue(c) == Some(v)
  {
    if v < 10 then ('0' as int + v) as char else ('a' as int + (v - 10)) as char
  }

  /** The value of a hexadecimal digit of either case. */
  function HexValue(c: char): (r: Option<int>)
    ensures r.Some? ==> 0 <= r.value < 16
  {
    if '0' <= c <= '9' then Some(c as int - '0' as int)
    else if 'a' <= c <= 'f' then Some(c as int - 'a' as int + 10)
    else if 'A' <= c <= 'F' then Some(c as int - 'A' as int + 10)
    else None
  }

  /** How `JSON.stringify` writes one character inside a string. */
  function EscapeChar(c: char): (r: string)
    ensures |r| >= 1
    ensures forall i :: 0 <= i < |r| ==> r[i] as int >= 0x20
    ensures r[0] != '"'
    ensures |r| == 1 <==> IsPlain(c)
    ensures |r| == 1 ==> r == [c]
  {
    var n := c as int;
    if c == '"' then "\\\""
    else if c == '\\' then "\\\\"
    else if n == 0x08 then "\\b"
    else if n == 0x09 then "\\t"
    else if n == 0x0A then "\\n"
    else if n == 0x0C then "\\f"
    else if n == 0x0D then "\\r"
    else if n < 0x20 then "\\u00" + [HexDigit(n / 16), HexDigit(n % 16)]
    else [c]
  }

  /** A character `JSON.stringify` writes as itself: neither a control character, a quotation mark nor a backslash. */
  predicate IsPlain(c: char) {
    c as int >= 0x20 && c != '"' && c != '\\'
  }

  /** The escaped characters of a string, without the quotation marks. */
  function Escape(s: string): (r: string)
    ensures |r| >= |s|
    ensures forall i :: 0 <= i < |r| ==> r[i] as int >= 0x20
    ensures |r| == |s| <==> forall i :: 0 <= i < |s| ==> IsPlain(s[i])
    ensures |r| == |s| ==> r == s
  {
    if s == [] then []
    else
      var head, tail := EscapeChar(s[0]), Escape(s[1..]);
      assert forall i :: 1 <= i < |s| ==> s[i] == s[1..][i - 1];
      assert s == [s[0]] + s[1..];
      head + tail
  }

  /** `JSON.stringify` of a string. */
  function Quote(s: string): (r: string)
    ensures |r| >= |s| + 2 && r[0] == '"' && r[|r| - 1] == '"'
    ensures forall i :: 0 <= i < |r| ==> r[i] as int >= 0x20
  {
    "\"" + Escape(s) + "\""
  }

  /**
    Reads the characters of a JSON string up to its closing quotation mark:
    the decoded string and the text after that mark. Raw control characters
    are rejected; an escape must be one of the nine of RFC 8259 section 7.
   */
  function ReadString(t: string): (r: Option<(string, string)>)
    ensures r.Some? ==> |r.value.1| < |t|
    decreases |t|
  {
    if |t| == 0 then None
    else if t[0] == '"' then Some(([], t[1..]))
    else if t[0] as int < 0x20 then None
    else if t[0] != '\\' then Prepend(t[0], ReadString(t[1..]))
    else if |t| < 2 then None
    else
      var e := t[1];
      if e == '"' || e == '\\' || e == '/' then Prepend(e, ReadString(t[2..]))
      else if e == 'b' then Prepend(8 as char, ReadString(t[2..]))
      else if e == 't' then Prepend('\t', ReadString(t[2..]))
      else if e == 'n' then Prepend('\n', ReadString(t[2..]))
      else if e == 'f' then Prepend(12 as char, ReadString(t[2..]))
      else if e == 'r' then Prepend('\r', ReadString(t[2..]))
      else if e == 'u' && |t| >= 6 then
        match (HexValue(t[2]), HexValue(t[3]), HexValue(t[4]), HexValue(t[5]))
        case (Some(h0), Some(h1), Some(h2), Some(h3)) =>
          var n := ((h0 * 16 + h1) * 16 + h2) * 16 + h3;
          if 0xD800 <= n < 0xE000 then None else Prepend(n as char, ReadString(t[6..]))
        case _ => None
      else None
  }

  /** Puts `c` in front of the string a successful read returned. */
  function Prepend(c: char, r: Option<(string, string)>): (p: Option<(string, string)>)
    ensures p.Some? <==> r.Some?
    ensures p.Some? ==> p.value == ([c] + r.value.0, r.value.1)
  {
    match r
    case None => None
    case Some((s, rest)) => Some(([c] + s, rest))
  }

  /** Reading one escaped character takes it back, whatever follows it. */
  lemma ReadEscapeChar(c: char, rest: string)
    ensures ReadString(EscapeChar(c) + rest) == Prepend(c, ReadString(rest))
  {
    var n := c as int;
    var t := EscapeChar(c) + rest;
    if n < 0x20 && n != 8 && n != 9 && n != 10 && n != 12 && n != 13 {
      assert t[6..] == rest;
      assert n == ((0 * 16 + 0) * 16 + n / 16) * 16 + n % 16;
    } else if c == '"' || c == '\\' || n < 0x20 {
      assert t[2..] == rest;
    } else {
      assert t[1..] == rest;
    }
  }

  /** The escaped form of `s`, closed by a quotation mark, reads back as `s`. */
  lemma {:induction false} ReadEscape(s: string, rest: string)
    ensures ReadString(Escape(s) + "\"" + rest) == Some((s, rest))
  {
    if s == [] {
      assert Escape(s) + "\"" + rest == "\"" + rest;
    } else {
      assert Escape(s) + "\"" + rest == EscapeChar(s[0]) + (Escape(s[1..]) + "\"" + rest);
      ReadEscapeChar(s[0], Escape(s[1..]) + "\"" + rest);
      ReadEscape(s[1..], rest);
      assert [s[0]] + s[1..] == s;
    }
  }

  /** Reads a whole JSON string, opening quotation mark included: its value and the text after it. */
  function ReadQuoted(t: string): (r: Option<(string, string)>)
    ensures r.Some? ==> |r.value.1| < |t|
  {
    if |t| > 0 && t[0] == '"' then ReadString(t[1..]) else None
  }

  /** What `Quote` writes reads back as the string it quoted, whatever follows it. */
  lemma ReadQuote(s: string, rest: string)
    ensures ReadQuoted(Quote(s) + rest) == Some((s, rest))
  {
    assert (Quote(s) + rest)[1..] == Escape(s) + "\"" + rest;
    ReadEscape(s, rest);
  }
}
