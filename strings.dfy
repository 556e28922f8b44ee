/**
 * String helpers with the meaning the application gives them: whitespace
 * trimming (`str::trim` in Rust, `String.prototype.trim` in TypeScript),
 * substring search (JavaScript `includes`, and the plain-text reading of SQL
 * `LIKE '%q%'`), ASCII lower case, byte-wise text order, UTF-8 and UTF-16
 * lengths (Rust's `len()` and JavaScript's `.length`) and decimal formatting.
 */
module Strings {

  /** The language whose notion of whitespace a trim uses. */
  datatype Lang = Rust | JavaScript

  /**
   * Whitespace as `trim` sees it: Rust's `char::is_whitespace` (the Unicode
   * `White_Space` property, with U+0085) or JavaScript's WhiteSpace and
   * LineTerminator (with U+FEFF, without U+0085).
   */
  predicate IsSpace(lang: Lang, c: char) {
    || ('\t' <= c <= '\r')
    || c == ' '
    || c == '\U{00A0}'
    || c == '\U{1680}'
    || ('\U{2000}' <= c <= '\U{200A}')
    || c == '\U{2028}' || c == '\U{2029}'
    || c == '\U{202F}' || c == '\U{205F}'
    || c == '\U{3000}'
    || (lang == Rust && c == '\U{0085}')
    || (lang == JavaScript && c == '\U{FEFF}')
  }

  /** `s.trim().is_empty()` / `!s.trim()`: the string holds whitespace only. */
  predicate IsBlank(lang: Lang, s: string) {
    forall i | 0 <= i < |s| :: IsSpace(lang, s[i])
  }

  /** Number of whitespace characters `s` begins with. */
  function LeadingSpaces(lang: Lang, s: string): (n: nat)
    ensures n <= |s|
    ensures forall i | 0 <= i < n :: IsSpace(lang, s[i])
    ensures n < |s| ==> !IsSpace(lang, s[n])
  {
    if |s| > 0 && IsSpace(lang, s[0]) then
      var m := LeadingSpaces(lang, s[1..]);
      assert forall i | 1 <= i < m + 1 :: s[i] == s[1..][i - 1];
      m + 1
    else 0
  }

  /** Number of whitespace characters `s` ends with. */
  function TrailingSpaces(lang: Lang, s: string): (n: nat)
    ensures n <= |s|
    ensures forall i | |s| - n <= i < |s| :: IsSpace(lang, s[i])
    ensures n < |s| ==> !IsSpace(lang, s[|s| - 1 - n])
  {
    if |s| > 0 && IsSpace(lang, s[|s| - 1]) then
      var m := TrailingSpaces(lang, s[..|s| - 1]);
      assert forall i | |s| - 1 - m <= i < |s| - 1 :: s[i] == s[..|s| - 1][i];
      m + 1
    else 0
  }

  /** `trim()`: the string without leading and trailing whitespace. */
  function Trim(lang: Lang, s: string): (r: string)
    ensures |r| <= |s|
    ensures r == [] <==> IsBlank(lang, s)
    ensures r == [] || (!IsSpace(lang, r[0]) && !IsSpace(lang, r[|r| - 1]))
  {
    var t := s[LeadingSpaces(lang, s)..];
    var n := TrailingSpaces(lang, t);
    assert forall i | 0 <= i < |t| :: t[i] == s[LeadingSpaces(lang, s) + i];
    t[..|t| - n]
  }

  /**
   * The two trims disagree: U+0085 is whitespace to Rust only, U+FEFF to
   * JavaScript only.
   */
  lemma TrimsDiffer()
    ensures IsBlank(Rust, "\U{0085}") && !IsBlank(JavaScript, "\U{0085}")
    ensures IsBlank(JavaScript, "\U{FEFF}") && !IsBlank(Rust, "\U{FEFF}")
  {
    assert "\U{0085}"[0] == '\U{0085}';
    assert "\U{FEFF}"[0] == '\U{FEFF}';
  }

  /** JavaScript `message || fallback` on strings: the message unless it is empty. */
  function OrFallback(message: string, fallback: string): (m: string)
    ensures m != "" <==> message != "" || fallback != ""
    ensures message != "" ==> m == message
  {
    if message != "" then message else fallback
  }

  /** `s` begins with `prefix`. */
  predicate StartsWith(s: string, prefix: string) {
    |prefix| <= |s| && s[..|prefix|] == prefix
  }

  /** `sub` occurs somewhere in `s` (SQL `LIKE '%sub%'`, JavaScript `includes`). */
  predicate Contains(s: string, sub: string)
    decreases |s|
  {
    StartsWith(s, sub) || (|s| > 0 && Contains(s[1..], sub))
  }

  /** `sub` occurs in `s` starting at index `i`. */
  predicate OccursAt(s: string, sub: string, i: nat) {
    i + |sub| <= |s| && s[i..i + |sub|] == sub
  }

  /** Contains agrees with the index-based definition of "is a substring of". */
  lemma {:induction false} ContainsIffOccurs(s: string, sub: string)
    ensures Contains(s, sub) <==> exists i: nat :: OccursAt(s, sub, i)
    decreases |s|
  {
    if |s| > 0 {
      ContainsIffOccurs(s[1..], sub);
      assert StartsWith(s, sub) <==> OccursAt(s, sub, 0) by {
        assert |sub| > |s| || s[0..|sub|] == s[..|sub|];
      }
      if Contains(s[1..], sub) {
        var i: nat :| OccursAt(s[1..], sub, i);
        assert s[i + 1..i + 1 + |sub|] == s[1..][i..i + |sub|];
        assert OccursAt(s, sub, i + 1);
      }
      if exists i: nat :: OccursAt(s, sub, i) {
        var i: nat :| OccursAt(s, sub, i);
        if i > 0 {
          assert s[1..][i - 1..i - 1 + |sub|] == s[i..i + |sub|];
          assert OccursAt(s[1..], sub, i - 1);
        }
      }
    } else {
      if exists i: nat :: OccursAt(s, sub, i) {
        var i: nat :| OccursAt(s, sub, i);
        assert i == 0;
      }
      assert StartsWith(s, sub) ==> OccursAt(s, sub, 0);
    }
  }

  /** The empty string occurs in every string: a search for "" keeps everything. */
  lemma EmptyOccursEverywhere(s: string)
    ensures Contains(s, "")
  {
    assert StartsWith(s, "");
  }

  /** ASCII `toLowerCase` of one character. */
  function LowerChar(c: char): char {
    if 'A' <= c <= 'Z' then (c as int + 32) as char else c
  }

  /** `toLowerCase()` restricted to ASCII letters. */
  function ToLower(s: string): (r: string)
    ensures |r| == |s|
    ensures forall i | 0 <= i < |s| :: r[i] == LowerChar(s[i])
  {
    if s == [] then [] else [LowerChar(s[0])] + ToLower(s[1..])
  }

  /** A string that lower-casing leaves as it is. */
  predicate IsLower(s: string) {
    forall i | 0 <= i < |s| :: !('A' <= s[i] <= 'Z')
  }

  /** Lower-casing produces a lower-case string and is idempotent. */
  lemma ToLowerIsLower(s: string)
    ensures IsLower(ToLower(s))
    ensures ToLower(ToLower(s)) == ToLower(s)
  {
  }

  /** The byte-wise order of text (SQLite's default BINARY collation). */
  predicate LexLe(a: string, b: string)
    decreases |a|
  {
    |a| == 0 || (|b| > 0 && (a[0] < b[0] || (a[0] == b[0] && LexLe(a[1..], b[1..]))))
  }

  lemma {:induction false} LexLeTotal(a: string, b: string)
    ensures LexLe(a, b) || LexLe(b, a)
    decreases |a|
  {
    if |a| > 0 && |b| > 0 && a[0] == b[0] {
      LexLeTotal(a[1..], b[1..]);
    }
  }

  lemma {:induction false} LexLeTransitive(a: string, b: string, c: string)
    requires LexLe(a, b) && LexLe(b, c)
    ensures LexLe(a, c)
    decreases |a|
  {
    if |a| > 0 && a[0] == b[0] && b[0] == c[0] {
      LexLeTransitive(a[1..], b[1..], c[1..]);
    }
  }

  lemma {:induction false} LexLeAntisymmetric(a: string, b: string)
    requires LexLe(a, b) && LexLe(b, a)
    ensures a == b
    decreases |a|
  {
    if |a| > 0 {
      LexLeAntisymmetric(a[1..], b[1..]);
      assert a == [a[0]] + a[1..];
      assert b == [b[0]] + b[1..];
    }
  }

  /** Bytes one character takes in UTF-8. */
  function Utf8Width(c: char): nat {
    if c as int < 0x80 then 1
    else if c as int < 0x800 then 2
    else if c as int < 0x1_0000 then 3
    else 4
  }

  /** Rust's `str::len()`: the length in UTF-8 bytes. */
  function Utf8Len(s: string): (n: nat)
    ensures |s| <= n <= 4 * |s|
    ensures n == |s| <==> forall i | 0 <= i < |s| :: s[i] as int < 0x80
  {
    if s == [] then 0 else Utf8Width(s[0]) + Utf8Len(s[1..])
  }

  /** JavaScript's `String.prototype.length`: the length in UTF-16 code units. */
  function Utf16Len(s: string): (n: nat)
    ensures |s| <= n <= 2 * |s|
    ensures n == |s| <==> forall i | 0 <= i < |s| :: s[i] as int < 0x1_0000
  {
    if s == [] then 0 else (if s[0] as int < 0x1_0000 then 1 else 2) + Utf16Len(s[1..])
  }

  /** A string takes at least as many UTF-8 bytes as UTF-16 code units. */
  lemma {:induction false} Utf16AtMostUtf8(s: string)
    ensures Utf16Len(s) <= Utf8Len(s)
  {
    if s != [] {
      Utf16AtMostUtf8(s[1..]);
    }
  }

  function DigitChar(d: nat): char
    requires d < 10
  {
    ('0' as int + d) as char
  }

  predicate IsDigits(s: string) {
    forall i | 0 <= i < |s| :: '0' <= s[i] <= '9'
  }

  /** Decimal digits of `n`, most significant first, without leading zeros. */
  function NatToString(n: nat): (r: string)
    ensures |r| >= 1 && IsDigits(r)
    ensures |r| > 1 ==> r[0] != '0'
    decreases n
  {
    if n < 10 then [DigitChar(n)] else NatToString(n / 10) + [DigitChar(n % 10)]
  }

  /** Reads decimal digits back into a number. */
  function ParseNat(s: string): nat
    requires IsDigits(s)
  {
    if s == [] then 0 else 10 * ParseNat(s[..|s| - 1]) + (s[|s| - 1] as int - '0' as int)
  }

  lemma {:induction false} NatToStringRoundTrip(n: nat)
    ensures ParseNat(NatToString(n)) == n
    decreases n
  {
    if n >= 10 {
      var r := NatToString(n);
      NatToStringRoundTrip(n / 10);
      assert r[..|r| - 1] == NatToString(n / 10);
    }
  }

  /** Rust's `{}` formatting of an integer. */
  function IntToString(i: int): string {
    if i < 0 then "-" + NatToString(-i) else NatToString(i)
  }

  /** Different integers print differently. */
  lemma IntToStringInjective(i: int, j: int)
    requires IntToString(i) == IntToString(j)
    ensures i == j
  {
    if i < 0 && j < 0 {
      assert NatToString(-i) == IntToString(i)[1..];
      NatToStringRoundTrip(-i);
      NatToStringRoundTrip(-j);
    } else if i >= 0 && j >= 0 {
      NatToStringRoundTrip(i);
      NatToStringRoundTrip(j);
    }
  }
}
