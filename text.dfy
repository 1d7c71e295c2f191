/**
 * String helpers the controllers get from PHP: decimal formatting (`sprintf("%d")`,
 * `sprintf("%06d")`), `explode`/`implode`, `str_starts_with`, `str_replace`, `trim`-blankness
 * and PHP truthiness of strings.
 */
module Text {
  import opened Wrappers

  predicate IsDigit(c: char) {
    '0' <= c <= '9'
  }

  predicate AllDigits(s: string) {
    forall i :: 0 <= i < |s| ==> IsDigit(s[i])
  }

  function DigitChar(d: nat): (c: char)
    requires d < 10
    ensures IsDigit(c)
  {
    (('0' as int) + d) as char
  }

  function DigitValue(c: char): (d: nat)
    requires IsDigit(c)
    ensures d < 10 && DigitChar(d) == c
  {
    (c as int) - ('0' as int)
  }

  /** Decimal notation of `n` without leading zeros (`"0"` for zero), as PHP prints an integer. */
  function NatToString(n: nat): (s: string)
    ensures |s| >= 1 && AllDigits(s)
    ensures n >= 10 ==> s[0] != '0'
    decreases n
  {
    if n < 10 then [DigitChar(n)] else NatToString(n / 10) + [DigitChar(n % 10)]
  }

  /** The number a string of decimal digits denotes (leading zeros allowed). */
  function ParseDigits(s: string): nat
    requires AllDigits(s)
  {
    if s == [] then 0 else 10 * ParseDigits(s[..|s| - 1]) + DigitValue(s[|s| - 1])
  }

  function Pow10(k: nat): (p: nat)
    ensures p >= 1
  {
    if k == 0 then 1 else 10 * Pow10(k - 1)
  }

  /** Reading back what was printed gives the number again. */
  lemma {:induction false} ParseNatToString(n: nat)
    ensures ParseDigits(NatToString(n)) == n
    decreases n
  {
    var s := NatToString(n);
    if n >= 10 {
      ParseNatToString(n / 10);
      assert s[..|s| - 1] == NatToString(n / 10);
    }
  }

  /** A number below 10^k prints in at most k digits. */
  lemma {:induction false} NatToStringLength(n: nat, k: nat)
    requires 1 <= k && n < Pow10(k)
    ensures |NatToString(n)| <= k
    decreases k
  {
    if n >= 10 {
      assert k >= 2;
      NatToStringLength(n / 10, k - 1);
    }
  }

  function Repeat(c: char, k: nat): (s: string)
    ensures |s| == k && forall i :: 0 <= i < k ==> s[i] == c
  {
    if k == 0 then [] else [c] + Repeat(c, k - 1)
  }

  /** Leading zeros do not change the value. */
  lemma {:induction false} ParseLeadingZeros(k: nat, s: string)
    requires AllDigits(s)
    ensures AllDigits(Repeat('0', k) + s)
    ensures ParseDigits(Repeat('0', k) + s) == ParseDigits(s)
    decreases |s|
  {
    var z := Repeat('0', k) + s;
    assert AllDigits(z) by {
      forall i | 0 <= i < |z| ensures IsDigit(z[i]) {
        if i >= k { assert z[i] == s[i - k]; }
      }
    }
    if s == [] {
      assert z == Repeat('0', k);
      ParseZeros(k);
    } else {
      ParseLeadingZeros(k, s[..|s| - 1]);
      assert z[..|z| - 1] == Repeat('0', k) + s[..|s| - 1];
    }
  }

  lemma {:induction false} ParseZeros(k: nat)
    ensures AllDigits(Repeat('0', k)) && ParseDigits(Repeat('0', k)) == 0
    decreases k
  {
    if k > 0 {
      ParseZeros(k - 1);
      var z := Repeat('0', k);
      assert z[..|z| - 1] == Repeat('0', k - 1);
    }
  }

  /** `sprintf("%0{width}d", n)`: decimal notation left-padded with zeros to at least `width` characters. */
  function ZeroPad(n: nat, width: nat): (s: string)
    ensures AllDigits(s)
    ensures |s| == if |NatToString(n)| < width then width else |NatToString(n)|
    ensures ParseDigits(s) == n
  {
    var digits := NatToString(n);
    var pad := if |digits| < width then width - |digits| else 0;
    ParseNatToString(n);
    ParseLeadingZeros(pad, digits);
    Repeat('0', pad) + digits
  }

  /** `explode(sep, s)`: the maximal pieces between separators; never empty. */
  function Explode(sep: char, s: string): (parts: seq<string>)
    ensures |parts| >= 1
    ensures forall i :: 0 <= i < |parts| ==> sep !in parts[i]
  {
    if s == [] then [""]
    else if s[0] == sep then [""] + Explode(sep, s[1..])
    else
      var rest := Explode(sep, s[1..]);
      [[s[0]] + rest[0]] + rest[1..]
  }

  /** `implode(sep, parts)`: the pieces with one separator between neighbours. */
  function Implode(sep: char, parts: seq<string>): string
    requires |parts| >= 1
  {
    if |parts| == 1 then parts[0] else parts[0] + [sep] + Implode(sep, parts[1..])
  }

  /** Exploding and imploding with the same separator gives the string back. */
  lemma {:induction false} ImplodeExplode(sep: char, s: string)
    ensures Implode(sep, Explode(sep, s)) == s
    decreases |s|
  {
    if s != [] {
      ImplodeExplode(sep, s[1..]);
      var rest := Explode(sep, s[1..]);
      if s[0] == sep {
        assert Explode(sep, s)[1..] == rest;
      } else {
        var parts := Explode(sep, s);
        assert parts[1..] == rest[1..];
        if |rest| > 1 {
          assert Implode(sep, rest) == rest[0] + [sep] + Implode(sep, rest[1..]);
        }
      }
    }
  }

  /** The string is cut into more than one piece exactly when it contains the separator. */
  lemma {:induction false} ExplodeCount(sep: char, s: string)
    ensures |Explode(sep, s)| > 1 <==> sep in s
    decreases |s|
  {
    if s != [] {
      ExplodeCount(sep, s[1..]);
      assert sep in s <==> s[0] == sep || sep in s[1..];
    }
  }

  /** The longest prefix of `s` made of decimal digits. */
  function DigitPrefix(s: string): (p: string)
    ensures AllDigits(p)
  {
    if s == [] || !IsDigit(s[0]) then [] else [s[0]] + DigitPrefix(s[1..])
  }

  /** A run of digits followed by a non-digit is exactly the digit prefix. */
  lemma {:induction false} DigitPrefixOf(digits: string, c: char, rest: string)
    requires AllDigits(digits) && !IsDigit(c)
    ensures DigitPrefix(digits + [c] + rest) == digits
  {
    if digits != [] {
      assert (digits + [c] + rest)[1..] == digits[1..] + [c] + rest;
      DigitPrefixOf(digits[1..], c, rest);
    }
  }

  /** `str_starts_with(s, prefix)`. */
  predicate StartsWith(s: string, prefix: string) {
    |prefix| <= |s| && s[..|prefix|] == prefix
  }

  /** `str_replace(pattern, "", s)`: every occurrence of `pattern`, scanning left to right, removed. */
  function RemoveAll(s: string, pattern: string): string
    requires |pattern| > 0
    decreases |s|
  {
    if |s| == 0 then s
    else if StartsWith(s, pattern) then RemoveAll(s[|pattern|..], pattern)
    else [s[0]] + RemoveAll(s[1..], pattern)
  }

  /** A string shorter than the pattern holds no occurrence of it, so nothing is removed. */
  lemma {:induction false} RemoveAllShort(s: string, pattern: string)
    requires 0 < |pattern| && |s| < |pattern|
    ensures RemoveAll(s, pattern) == s
    decreases |s|
  {
    if |s| > 0 {
      RemoveAllShort(s[1..], pattern);
    }
  }

  /** Removing the pattern from the pattern followed by a shorter tail leaves the tail. */
  lemma RemoveAllPrefix(pattern: string, tail: string)
    requires 0 < |pattern| && |tail| < |pattern|
    ensures RemoveAll(pattern + tail, pattern) == tail
  {
    assert StartsWith(pattern + tail, pattern);
    assert (pattern + tail)[|pattern|..] == tail;
    RemoveAllShort(tail, pattern);
  }

  /** The characters PHP's `trim` strips by default. */
  predicate IsTrimmed(c: char) {
    c == ' ' || c == '\t' || c == '\n' || c == '\r' || c == '\0' || c == '\U{B}'
  }

  /** Laravel's notion of a blank string: nothing left after `trim`. */
  predicate IsBlank(s: string) {
    forall i :: 0 <= i < |s| ==> IsTrimmed(s[i])
  }

  /** PHP converts a string to false exactly when it is `""` or `"0"`. */
  predicate Truthy(s: string) {
    s != "" && s != "0"
  }

  /**
   * Laravel's `required` rule on a string field, and `$request->filled(key)`: present, not null,
   * and not made only of whitespace.
   */
  predicate Filled(p: Param<string>) {
    p.Given? && !IsBlank(p.value)
  }

  /**
   * A `nullable|string|max:n` field: absent, null, blank, or a string of at most `n` characters.
   * Laravel's validator runs a rule that is not implicit (`string`, `max`, `url`, `min`,
   * `confirmed`, `in`) only on a value that is not a blank string, so a blank value passes.
   */
  predicate NullableMax(p: Param<string>, n: nat) {
    Filled(p) ==> |p.value| <= n
  }
}
