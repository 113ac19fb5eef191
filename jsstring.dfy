/**
 * The JavaScript string built-ins the feed client relies on, stated over
 * Dafny strings (sequences of Unicode scalar values):
 *  - `length`, which counts UTF-16 code units;
 *  - the whitespace class shared by `String.prototype.trim` and the regular
 *    expression escape `\s` (ECMAScript WhiteSpace and LineTerminator);
 *  - `trim`;
 *  - `toLowerCase`, restricted to ASCII letters;
 *  - the decimal rendering of a non-negative integer in a template literal.
 */
module JsString {

  /** Number of UTF-16 code units that encode `c`: characters above the Basic
      Multilingual Plane take a surrogate pair. */
  function CodeUnits(c: char): (n: nat)
    ensures n == 1 || n == 2
  {
    if c as int > 0xFFFF then 2 else 1
  }

  /** JavaScript's `s.length`. */
  function Utf16Length(s: string): (n: nat)
    ensures |s| <= n <= 2 * |s|
    ensures n == |s| <==> forall i :: 0 <= i < |s| ==> s[i] as int <= 0xFFFF
  {
    if s == [] then 0 else CodeUnits(s[0]) + Utf16Length(s[1..])
  }

  /** Code units add up over concatenation. */
  lemma {:induction false} Utf16LengthAppend(a: string, b: string)
    ensures Utf16Length(a + b) == Utf16Length(a) + Utf16Length(b)
  {
    if a != [] {
      assert (a + b)[0] == a[0];
      assert (a + b)[1..] == a[1..] + b;
      Utf16LengthAppend(a[1..], b);
    } else {
      assert a + b == b;
    }
  }

  /** ECMAScript WhiteSpace (tab, vertical tab, form feed, U+FEFF and the
      Unicode space separators) and LineTerminator (LF, CR, U+2028, U+2029). */
  predicate IsWhitespace(c: char)
    ensures IsWhitespace(c) ==> c != '@' && c != '.' && !('0' <= c <= '9') && !('a' <= c <= 'z') && !('A' <= c <= 'Z')
    ensures c as int < 0x80 ==> (IsWhitespace(c) <==> c == ' ' || '\t' <= c <= '\r')
  {
    var n := c as int;
    || n == 0x09 || n == 0x0A || n == 0x0B || n == 0x0C || n == 0x0D
    || n == 0x20 || n == 0xA0 || n == 0x1680
    || (0x2000 <= n <= 0x200A)
    || n == 0x2028 || n == 0x2029 || n == 0x202F || n == 0x205F
    || n == 0x3000 || n == 0xFEFF
  }

  predicate AllWhitespace(s: string)
  {
    forall i :: 0 <= i < |s| ==> IsWhitespace(s[i])
  }

  /** True when `s` neither starts nor ends with whitespace. */
  predicate Stripped(s: string)
  {
    s == [] || (!IsWhitespace(s[0]) && !IsWhitespace(s[|s| - 1]))
  }

  /** Length of the longest all-whitespace prefix of `s`. */
  function LeadingWhitespace(s: string): (k: nat)
    ensures k <= |s|
    ensures AllWhitespace(s[..k])
    ensures k < |s| ==> !IsWhitespace(s[k])
  {
    if s == [] || !IsWhitespace(s[0]) then 0
    else
      var k := 1 + LeadingWhitespace(s[1..]);
      assert s[..k] == [s[0]] + s[1..][..k - 1];
      k
  }

  /** Length of the longest all-whitespace suffix of `s`. */
  function TrailingWhitespace(s: string): (k: nat)
    ensures k <= |s|
    ensures AllWhitespace(s[|s| - k..])
    ensures k < |s| ==> !IsWhitespace(s[|s| - 1 - k])
  {
    if s == [] || !IsWhitespace(s[|s| - 1]) then 0
    else
      var init := s[..|s| - 1];
      var k := 1 + TrailingWhitespace(init);
      assert s[|s| - k..] == init[|init| - (k - 1)..] + [s[|s| - 1]];
      k
  }

  /** `s.trim()`: `s` without its leading and trailing whitespace. */
  function Trim(s: string): (r: string)
    ensures |r| <= |s|
    ensures Stripped(r)
    ensures r == [] <==> AllWhitespace(s)
  {
    var t := s[LeadingWhitespace(s)..];
    var r := t[..|t| - TrailingWhitespace(t)];
    assert r == [] ==> s[..LeadingWhitespace(s)] == s;
    r
  }

  /** Trimming is determined by the decomposition it undoes: a stripped core
      surrounded by whitespace trims to that core. */
  lemma TrimOfPadded(p: string, m: string, q: string)
    requires AllWhitespace(p) && AllWhitespace(q) && Stripped(m)
    ensures Trim(p + m + q) == m
  {
    var s := p + m + q;
    if m == [] {
      assert AllWhitespace(s) by {
        forall i | 0 <= i < |s| ensures IsWhitespace(s[i]) {
          if i < |p| { assert s[i] == p[i]; } else { assert s[i] == q[i - |p|]; }
        }
      }
    } else {
      var a := LeadingWhitespace(s);
      assert s[|p|] == m[0];
      assert a == |p|;
      var t := s[a..];
      assert t == m + q;
      var b := TrailingWhitespace(t);
      assert t[|t| - 1 - |q|] == m[|m| - 1];
      assert b == |q|;
      assert t[..|t| - b] == m;
    }
  }

  /** `trim` is idempotent. */
  lemma TrimIdempotent(s: string)
    ensures Trim(Trim(s)) == Trim(s)
  {
    var r := Trim(s);
    assert r == [] + r + [];
    TrimOfPadded([], r, []);
  }

  /** `toLowerCase` on one character, for the ASCII letters only. */
  function LowerChar(c: char): (d: char)
    ensures 'A' <= c <= 'Z' ==> d as int == c as int + 32
    ensures !('A' <= c <= 'Z') ==> d == c
  {
    if 'A' <= c <= 'Z' then (c as int + 32) as char else c
  }

  /** `s.toLowerCase()` with ASCII case mapping. */
  function LowerAscii(s: string): (r: string)
    ensures |r| == |s|
    ensures forall i :: 0 <= i < |s| ==> r[i] == LowerChar(s[i])
  {
    if s == [] then [] else [LowerChar(s[0])] + LowerAscii(s[1..])
  }

  /** Lower-casing leaves no ASCII capital and is idempotent. */
  lemma LowerAsciiIdempotent(s: string)
    ensures forall i :: 0 <= i < |s| ==> !('A' <= LowerAscii(s)[i] <= 'Z')
    ensures LowerAscii(LowerAscii(s)) == LowerAscii(s)
  {
  }

  function DigitChar(d: nat): (c: char)
    requires d < 10
    ensures '0' <= c <= '9'
  {
    ('0' as int + d) as char
  }

  /** The value of a string of decimal digits, most significant first. */
  function DecimalValue(s: string): nat
    requires forall i :: 0 <= i < |s| ==> '0' <= s[i] <= '9'
  {
    if s == [] then 0
    else DecimalValue(s[..|s| - 1]) * 10 + (s[|s| - 1] as int - '0' as int)
  }

  /** The decimal rendering of `n` in a template literal (`${n}`). */
  function Decimal(n: nat): (r: string)
    ensures |r| >= 1
    ensures forall i :: 0 <= i < |r| ==> '0' <= r[i] <= '9'
    ensures |r| > 1 ==> r[0] != '0'
  {
    if n < 10 then [DigitChar(n)] else Decimal(n / 10) + [DigitChar(n % 10)]
  }

  /** Reading the rendered digits back gives the number. */
  lemma {:induction false} DecimalRoundTrip(n: nat)
    ensures DecimalValue(Decimal(n)) == n
  {
    if n >= 10 {
      var r := Decimal(n);
      assert r[..|r| - 1] == Decimal(n / 10);
      DecimalRoundTrip(n / 10);
    }
  }
}
