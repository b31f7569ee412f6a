/**
 * Characters and strings with the meaning Python 3 gives them in the bot:
 * the `\s` and `\w` classes of `re` on `str`, `str.lower()`,
 * `str(n)` for a natural number, `str.endswith` and list slicing `a[:k]`.
 * Case mapping and `\w` are modelled for ASCII and the Cyrillic block
 * (U+0400..U+04FF), the scripts of the bot's corpora.
 */
module Strings {
  predicate IsAsciiLower(c: char) { 'a' <= c <= 'z' }

  predicate IsAsciiLetter(c: char) { 'a' <= c <= 'z' || 'A' <= c <= 'Z' }

  predicate IsDigit(c: char) { '0' <= c <= '9' }

  /** The Cyrillic letters (the block less the signs and combining marks U+0482..U+0489). */
  predicate IsCyrillicLetter(c: char) { '\U{0400}' <= c <= '\U{0481}' || '\U{048A}' <= c <= '\U{04FF}' }

  /** The `\w` class: letters, digits and the underscore. */
  predicate IsWordChar(c: char) { IsAsciiLetter(c) || IsDigit(c) || c == '_' || IsCyrillicLetter(c) }

  /** The `\s` class on `str` patterns: the characters for which `str.isspace()` holds. */
  predicate IsSpace(c: char)
  {
    c == ' ' || '\t' <= c <= '\r' || '\U{1C}' <= c <= '\U{1F}' || c == '\U{85}' || c == '\U{A0}'
    || c == '\U{1680}' || '\U{2000}' <= c <= '\U{200A}' || c == '\U{2028}' || c == '\U{2029}'
    || c == '\U{202F}' || c == '\U{205F}' || c == '\U{3000}'
  }

  /** `c.lower()`: A-Z, Cyrillic А-Я (U+0410..U+042F), Ѐ-Џ (U+0400..U+040F), Ӏ (U+04C0), and the
      case pairs of U+0460..U+04FF, where the capital is the even (U+04C1..U+04CE: the odd) member. */
  function LowerChar(c: char): (d: char)
    ensures IsWordChar(c) <==> IsWordChar(d)
    ensures !IsWordChar(c) ==> d == c
  {
    if 'A' <= c <= 'Z' then (c as int + 32) as char
    else if '\U{0410}' <= c <= '\U{042F}' then (c as int + 0x20) as char
    else if '\U{0400}' <= c <= '\U{040F}' then (c as int + 0x50) as char
    else if c == '\U{04C0}' then '\U{04CF}'
    else if IsEvenCapitalPair(c) && c as int % 2 == 0 then (c as int + 1) as char
    else if '\U{04C1}' <= c <= '\U{04CE}' && c as int % 2 == 1 then (c as int + 1) as char
    else c
  }

  /** The ranges of Cyrillic case pairs whose capital has the even code point. */
  predicate IsEvenCapitalPair(c: char)
  {
    '\U{0460}' <= c <= '\U{0481}' || '\U{048A}' <= c <= '\U{04BF}' || '\U{04D0}' <= c <= '\U{04FF}'
  }

  /** `c.upper()` on an ASCII letter, the only place the bot upper-cases. */
  function UpperAscii(c: char): (d: char)
    ensures IsAsciiLetter(c) ==> IsAsciiLetter(d) && !IsAsciiLower(d)
    ensures !IsAsciiLower(c) ==> d == c
  {
    if IsAsciiLower(c) then (c as int - 32) as char else c
  }

  /** `s.lower()`, character by character. */
  function Lower(s: string): (r: string)
    ensures |r| == |s|
    ensures forall i :: 0 <= i < |s| ==> r[i] == LowerChar(s[i])
  {
    seq(|s|, i requires 0 <= i < |s| => LowerChar(s[i]))
  }

  lemma LowerCharIdempotent(c: char)
    ensures LowerChar(LowerChar(c)) == LowerChar(c)
  {
  }

  /** Lower-casing twice is lower-casing once. */
  lemma LowerIdempotent(s: string)
    ensures Lower(Lower(s)) == Lower(s)
  {
    forall i | 0 <= i < |s| ensures Lower(Lower(s))[i] == Lower(s)[i] {
      LowerCharIdempotent(s[i]);
    }
  }

  lemma LowerAppend(a: string, b: string)
    ensures Lower(a + b) == Lower(a) + Lower(b)
  {
  }

  // ---------------------------------------------------------------------
  // Other helpers

  predicate EndsWith(s: string, suffix: string)
  {
    |suffix| <= |s| && s[|s| - |suffix|..] == suffix
  }

  /** Python slice bound: where `a[:k]` stops in a list of length `n`. */
  function SliceBound(k: int, n: nat): (b: nat)
    ensures b <= n
    ensures 0 <= k <= n ==> b == k
    ensures k > n ==> b == n
  {
    if k < 0 then (if n + k < 0 then 0 else n + k)
    else if k > n then n
    else k
  }

  /** `int(x)`: truncation toward zero. */
  function Truncate(x: real): (n: int)
    ensures 0.0 <= x ==> n == x.Floor
    ensures x < 0.0 ==> n == -((-x).Floor)
  {
    if x >= 0.0 then x.Floor else -((-x).Floor)
  }

  // ---------------------------------------------------------------------
  // Decimal numerals: `str(n)` and its inverse

  function DigitChar(d: nat): (c: char)
    requires d < 10
    ensures IsDigit(c)
  {
    ('0' as int + d) as char
  }

  function DigitValue(c: char): nat
    requires IsDigit(c)
  {
    c as int - '0' as int
  }

  /** `str(n)` for a natural number. */
  function Decimal(n: nat): (s: string)
    ensures |s| >= 1
    ensures forall i :: 0 <= i < |s| ==> IsDigit(s[i])
    ensures n >= 10 ==> s[0] != '0'
  {
    if n < 10 then [DigitChar(n)] else Decimal(n / 10) + [DigitChar(n % 10)]
  }

  /** The value `int(s)` of a string of decimal digits. */
  function DecimalValue(s: string): nat
    requires forall i :: 0 <= i < |s| ==> IsDigit(s[i])
  {
    if s == [] then 0 else DecimalValue(s[..|s| - 1]) * 10 + DigitValue(s[|s| - 1])
  }

  /** `int(str(n)) == n`. */
  lemma {:induction false} DecimalRoundTrip(n: nat)
    ensures DecimalValue(Decimal(n)) == n
  {
    if n >= 10 {
      DecimalRoundTrip(n / 10);
      var s := Decimal(n);
      assert s[..|s| - 1] == Decimal(n / 10);
    }
  }

  /** Distinct numbers have distinct decimal strings. */
  lemma DecimalInjective(m: nat, n: nat)
    requires m != n
    ensures Decimal(m) != Decimal(n)
  {
    DecimalRoundTrip(m);
    DecimalRoundTrip(n);
  }

  /** `s` is `str(n)` for some `n` in `[lo, hi]`. */
  ghost predicate IsDecimalIn(s: string, lo: int, hi: int)
  {
    exists n: nat :: lo <= n <= hi && s == Decimal(n)
  }
}
