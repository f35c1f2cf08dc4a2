/**
  The two ECMAScript string operations the authentication code relies on:
  `String.prototype.trim` (applied to the login field) and
  `String.prototype.toUpperCase` (applied to the first character of a login).
  Strings are sequences of Unicode scalar values.
 */
module JsString {

  /** WhiteSpace or LineTerminator as ECMAScript defines them: what `trim` removes. */
  predicate IsTrimmable(c: char) {
    var n := c as int;
    || n == 0x09 || n == 0x0A || n == 0x0B || n == 0x0C || n == 0x0D || n == 0x20
    || n == 0xA0 || n == 0x1680 || (0x2000 <= n <= 0x200A) || n == 0x2028 || n == 0x2029
    || n == 0x202F || n == 0x205F || n == 0x3000 || n == 0xFEFF
  }

  /** Every character of `s` is one that `trim` removes. */
  predicate AllTrimmable(s: string) {
    TrimmableBetween(s, 0, |s|)
  }

  /** Every character of `s` at an index in [lo, hi) is one that `trim` removes. */
  predicate TrimmableBetween(s: string, lo: int, hi: int) {
    forall i :: lo <= i < hi && 0 <= i < |s| ==> IsTrimmable(s[i])
  }

  /** The number of whitespace characters `s` starts with. */
  function LeadingSpace(s: string): (n: nat)
    ensures n <= |s| && TrimmableBetween(s, 0, n)
    ensures n == |s| || !IsTrimmable(s[n])
  {
    if |s| > 0 && IsTrimmable(s[0]) then 1 + LeadingSpace(s[1..]) else 0
  }

  /** The length of `s` without the whitespace it ends with. */
  function ContentEnd(s: string): (m: nat)
    ensures m <= |s| && TrimmableBetween(s, m, |s|)
    ensures m == 0 || !IsTrimmable(s[m - 1])
  {
    if |s| > 0 && IsTrimmable(s[|s| - 1]) then ContentEnd(s[..|s| - 1]) else |s|
  }

  /**
    `s[a..b]` is what trimming leaves of `s`: there is only whitespace outside
    it, and it neither starts nor ends with whitespace.
   */
  predicate TrimBounds(s: string, a: int, b: int) {
    && 0 <= a <= b <= |s|
    && TrimmableBetween(s, 0, a) && TrimmableBetween(s, b, |s|)
    && (a == b || (!IsTrimmable(s[a]) && !IsTrimmable(s[b - 1])))
  }

  /** `r` is `s` with its leading and trailing whitespace cut off. */
  ghost predicate IsTrimOf(s: string, r: string) {
    exists a, b :: TrimBounds(s, a, b) && r == s[a..b]
  }

  /** `String.prototype.trim`. */
  function Trim(s: string): (r: string)
    ensures IsTrimOf(s, r)
    ensures r == [] <==> AllTrimmable(s)
  {
    var a, b := LeadingSpace(s), ContentEnd(s);
    if a < b then
      assert TrimBounds(s, a, b);
      s[a..b]
    else
      assert TrimBounds(s, |s|, |s|) && s[|s|..|s|] == [];
      []
  }

  /** An empty trim means the whole string is whitespace. */
  lemma EmptyBounds(s: string, a: int)
    requires TrimBounds(s, a, a)
    ensures AllTrimmable(s)
  {
  }

  /** The bounds of a non-empty trim are determined by the string. */
  lemma BoundsUnique(s: string, a: int, b: int, a': int, b': int)
    requires TrimBounds(s, a, b) && TrimBounds(s, a', b') && a < b && a' < b'
    ensures a == a' && b == b'
  {
  }

  /** The trimmed form is unique: `Trim` is the only function meeting its contract. */
  lemma TrimUnique(s: string, r: string)
    requires IsTrimOf(s, r)
    ensures r == Trim(s)
  {
    var a, b :| TrimBounds(s, a, b) && r == s[a..b];
    var t := Trim(s);
    var a', b' :| TrimBounds(s, a', b') && t == s[a'..b'];
    if a == b {
      EmptyBounds(s, a);
    } else if a' == b' {
      EmptyBounds(s, a');
    } else {
      BoundsUnique(s, a, b, a', b');
    }
  }

  /** Trimming twice is trimming once. */
  lemma TrimIdempotent(s: string)
    ensures Trim(Trim(s)) == Trim(s)
  {
    var r := Trim(s);
    assert IsTrimOf(r, r) by {
      var a, b :| TrimBounds(s, a, b) && r == s[a..b];
      assert r == r[0..|r|] && r[..0] == [] && r[|r|..] == [];
      assert TrimBounds(r, 0, |r|);
    }
    TrimUnique(r, r);
  }

  /**
    `String.prototype.toUpperCase` of a single character, for Basic Latin,
    Latin-1 Supplement and the basic Cyrillic block; other characters are
    returned unchanged. The result is a string because one character can
    upper-case to two ('ß' to "SS").
   */
  function UpperCase(c: char): (r: string)
    ensures 1 <= |r| <= 2
    ensures 'a' <= c <= 'z' ==> r == [(c as int - 32) as char]
    ensures !IsCased(c) ==> r == [c]
  {
    var n := c as int;
    if 'a' <= c <= 'z' then [(n - 32) as char]
    else if n == 0xB5 then ['\U{039C}']
    else if n == 0xDF then "SS"
    else if 0xE0 <= n <= 0xFE && n != 0xF7 then [(n - 32) as char]
    else if n == 0xFF then ['\U{0178}']
    else if 0x430 <= n <= 0x44F then [(n - 32) as char]
    else if 0x450 <= n <= 0x45F then [(n - 80) as char]
    else [c]
  }

  /** The lower-case characters `UpperCase` changes. */
  predicate IsCased(c: char) {
    var n := c as int;
    || ('a' <= c <= 'z') || n == 0xB5 || n == 0xDF || (0xE0 <= n <= 0xFF && n != 0xF7)
    || (0x430 <= n <= 0x45F)
  }

  /** Upper-casing is idempotent: every character of an upper-cased result upper-cases to itself. */
  lemma UpperCaseStable(c: char)
    ensures forall i :: 0 <= i < |UpperCase(c)| ==> UpperCase(UpperCase(c)[i]) == [UpperCase(c)[i]]
  {
    var r := UpperCase(c);
    forall i | 0 <= i < |r| ensures !IsCased(r[i]) {
    }
  }
}
