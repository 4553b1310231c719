/** Characters and strings as the extractor sees them: Python's `\d`, `\s`
    and `\w` classes, `str.lower()`, the `in` substring test on strings,
    and the numeric value `int()` / `float()` give to a run of digits. */
module Text {

  /** `\d`, restricted to the ASCII digits. */
  predicate IsDigit(c: char) {
    '0' <= c <= '9'
  }

  /** `\s` on a `str` pattern: every character Python's `str.isspace()` accepts. */
  predicate IsSpace(c: char) {
    ('\t' <= c <= '\r') || ('\U{1C}' <= c <= ' ')
    || c == '\U{85}' || c == '\U{A0}' || c == '\U{1680}'
    || ('\U{2000}' <= c <= '\U{200A}') || c == '\U{2028}' || c == '\U{2029}'
    || c == '\U{202F}' || c == '\U{205F}' || c == '\U{3000}'
  }

  /** `\w`, restricted to ASCII letters, digits and the underscore. */
  predicate IsWordChar(c: char) {
    ('a' <= c <= 'z') || ('A' <= c <= 'Z') || IsDigit(c) || c == '_'
  }

  /** `str.lower()` on one character (ASCII letters only). */
  function Lower(c: char): (l: char)
    ensures 'A' <= c <= 'Z' ==> 'a' <= l <= 'z' && l as int == c as int + 32
    ensures !('A' <= c <= 'Z') ==> l == c
  {
    if 'A' <= c <= 'Z' then (c as int + 32) as char else c
  }

  /** `str.lower()`: the same length, lowered character by character. */
  function LowerStr(s: string): (r: string)
    ensures |r| == |s|
    ensures forall k :: 0 <= k < |s| ==> r[k] == Lower(s[k])
  {
    if s == [] then [] else LowerStr(s[..|s| - 1]) + [Lower(s[|s| - 1])]
  }

  /** Lower-case ASCII text: what the extractor's literals are written in. */
  predicate IsLowerWord(w: string) {
    forall k :: 0 <= k < |w| ==> 'a' <= w[k] <= 'z'
  }

  /** The literal `w` (lower case) occurs at position `i` of `t` under `re.I`. */
  predicate LitAt(t: string, i: nat, w: string) {
    i + |w| <= |t| && forall k :: 0 <= k < |w| ==> Lower(t[i + k]) == w[k]
  }

  // ---------------------------------------------------------------------
  // Maximal runs, as a greedy `\s*` or `\d+` consumes them

  /** Every character of `t[a..b]` is whitespace. */
  ghost predicate Spaces(t: string, a: nat, b: nat) {
    a <= b <= |t| && forall k :: a <= k < b ==> IsSpace(t[k])
  }

  /** `t[a..b]` is a non-empty run of digits. */
  ghost predicate Digits(t: string, a: nat, b: nat) {
    a < b <= |t| && forall k :: a <= k < b ==> IsDigit(t[k])
  }

  /** The end of the longest run of whitespace starting at `i`. */
  function SkipSpaces(t: string, i: nat): (j: nat)
    requires i <= |t|
    ensures i <= j <= |t| && Spaces(t, i, j)
    ensures j < |t| ==> !IsSpace(t[j])
    decreases |t| - i
  {
    if i < |t| && IsSpace(t[i]) then SkipSpaces(t, i + 1) else i
  }

  /** The end of the longest run of digits starting at `i`. */
  function DigitsEnd(t: string, i: nat): (j: nat)
    requires i <= |t|
    ensures i <= j <= |t|
    ensures forall k :: i <= k < j ==> IsDigit(t[k])
    ensures j < |t| ==> !IsDigit(t[j])
    decreases |t| - i
  {
    if i < |t| && IsDigit(t[i]) then DigitsEnd(t, i + 1) else i
  }

  /** A whitespace run that is followed by a non-space character is the
      longest one: it ends where `SkipSpaces` stops. */
  lemma SpacesEndAtSkip(t: string, i: nat, c: nat)
    requires Spaces(t, i, c) && c < |t| && !IsSpace(t[c])
    ensures c == SkipSpaces(t, i)
  {
  }

  /** A digit run that is followed by a non-digit is the longest one. */
  lemma DigitsEndAt(t: string, i: nat, e: nat)
    requires Digits(t, i, e) && e < |t| && !IsDigit(t[e])
    ensures e == DigitsEnd(t, i)
  {
  }

  /** Every digit run starting at `i` ends at or before `DigitsEnd(t, i)`. */
  lemma DigitsWithin(t: string, i: nat, e: nat)
    requires Digits(t, i, e)
    ensures e <= DigitsEnd(t, i)
  {
  }

  // ---------------------------------------------------------------------
  // Decimal literals `\d+(?:\.\d+)?` and their values

  /** The end of the longest decimal literal starting at the digit `t[i]`:
      the digit run, extended by `.` and a second digit run when one follows. */
  function NumberEnd(t: string, i: nat): (e: nat)
    requires i < |t| && IsDigit(t[i])
    ensures DigitsEnd(t, i) <= e <= |t|
  {
    var d := DigitsEnd(t, i);
    if d + 1 < |t| && t[d] == '.' && IsDigit(t[d + 1]) then DigitsEnd(t, d + 1) else d
  }

  /** The value of one decimal digit. */
  function DigitValue(c: char): (v: nat)
    ensures IsDigit(c) ==> v == c as int - '0' as int
    ensures v <= 9
  {
    if IsDigit(c) then c as int - '0' as int else 0
  }

  /** `int(s)` for a string of decimal digits. */
  function IntValue(s: string): nat {
    if s == [] then 0 else IntValue(s[..|s| - 1]) * 10 + DigitValue(s[|s| - 1])
  }

  function Pow10(n: nat): (p: nat)
    ensures p >= 1
  {
    if n == 0 then 1 else 10 * Pow10(n - 1)
  }

  /** The length of the run of digits that starts `s`. */
  function LeadingDigits(s: string): (n: nat)
    ensures n <= |s|
    ensures forall k :: 0 <= k < n ==> IsDigit(s[k])
    ensures n < |s| ==> !IsDigit(s[n])
  {
    if s != [] && IsDigit(s[0]) then 1 + LeadingDigits(s[1..]) else 0
  }

  /** `float(s)` for a decimal literal `s`, over the reals: the integer part
      plus the fraction digits scaled by their count. */
  function DecimalValue(s: string): real {
    var n := LeadingDigits(s);
    IntValue(s[..n]) as real
      + (if n + 1 < |s| then Scaled(IntValue(s[n + 1..]), |s| - n - 1) else 0.0)
  }

  /** `x / 10^n`. */
  function Scaled(x: nat, n: nat): (r: real)
    ensures 0.0 <= r && r * Pow10(n) as real == x as real
  {
    x as real / Pow10(n) as real
  }

  /** Every character of `s` is a decimal digit. */
  predicate AllDigits(s: string) {
    forall k :: 0 <= k < |s| ==> IsDigit(s[k])
  }

  /** `int()` of one digit is that digit's value. */
  lemma IntValueDigit(c: char)
    requires IsDigit(c)
    ensures IntValue([c]) == c as int - '0' as int
  {
    assert [c][..0] == [];
  }

  /** Positional notation: the digits of `a` followed by those of `b` are
      worth `a` shifted left by `|b|` places, plus `b`. */
  lemma {:induction false} IntValueConcat(a: string, b: string)
    ensures IntValue(a + b) == IntValue(a) * Pow10(|b|) + IntValue(b)
    decreases |b|
  {
    if b == [] {
      assert a + b == a;
    } else {
      var b' := b[..|b| - 1];
      assert (a + b)[..|a + b| - 1] == a + b';
      assert (a + b)[|a + b| - 1] == b[|b| - 1];
      IntValueConcat(a, b');
      var d := DigitValue(b[|b| - 1]);
      assert IntValue(a + b) == IntValue(a + b') * 10 + d;
      assert IntValue(b) == IntValue(b') * 10 + d;
      assert Pow10(|b|) == 10 * Pow10(|b'|);
      ShiftLeft(IntValue(a), Pow10(|b'|), IntValue(b'), d);
    }
  }

  lemma ShiftLeft(x: int, p: int, y: int, d: int)
    ensures (x * p + y) * 10 + d == x * (10 * p) + (y * 10 + d)
  {
  }

  /** `int(s)` of `n` digits is below `10^n`. */
  lemma {:induction false} IntValueBound(s: string)
    ensures IntValue(s) < Pow10(|s|)
  {
    if s != [] {
      IntValueBound(s[..|s| - 1]);
    }
  }

  /** The leading digit run of a digit string followed by a non-digit is
      that whole digit string. */
  lemma {:induction false} LeadingDigitsOf(a: string, rest: string)
    requires AllDigits(a) && (rest == [] || !IsDigit(rest[0]))
    ensures LeadingDigits(a + rest) == |a|
  {
    if a != [] {
      assert (a + rest)[1..] == a[1..] + rest;
      LeadingDigitsOf(a[1..], rest);
    }
  }

  /** The fraction digits of a decimal literal contribute less than one. */
  lemma FractionBelowOne(b: string)
    ensures Scaled(IntValue(b), |b|) < 1.0
  {
    IntValueBound(b);
    ScaledBelowOne(IntValue(b), |b|);
  }

  /** A number of fewer than `n` digits, scaled down by `10^n`, is below one. */
  lemma ScaledBelowOne(x: nat, n: nat)
    requires x < Pow10(n)
    ensures Scaled(x, n) < 1.0
  {
    var p := Pow10(n) as real;
    QuotientBelowOne(Scaled(x, n), p, x as real);
  }

  lemma QuotientBelowOne(r: real, p: real, x: real)
    requires p > 0.0 && r * p == x && x < p
    ensures r < 1.0
  {
    assert (1.0 - r) * p == p - x;
  }

  /** `float` of a digit string is its integer value. */
  lemma DecimalValueOfInteger(a: string)
    requires AllDigits(a)
    ensures DecimalValue(a) == IntValue(a) as real
  {
    LeadingDigitsOf(a, []);
    assert a + [] == a;
  }

  /** `float` of `a.b` is the value of `a` plus that of `b` scaled down by
      ten to the number of fraction digits. */
  lemma DecimalValueOfFraction(a: string, b: string)
    requires AllDigits(a) && AllDigits(b) && |b| > 0
    ensures DecimalValue(a + "." + b) == IntValue(a) as real + Scaled(IntValue(b), |b|)
  {
    var s := a + "." + b;
    assert s == a + ("." + b);
    LeadingDigitsOf(a, "." + b);
    var n := LeadingDigits(s);
    assert n == |a|;
    assert s[..n] == a;
    assert s[n + 1..] == b;
    assert |s| - n - 1 == |b|;
  }

  // ---------------------------------------------------------------------
  // Substring test

  /** Python's `key in s` for strings. */
  function Contains(s: string, key: string): bool
    decreases |s|
  {
    |key| <= |s| && (s[..|key|] == key || Contains(s[1..], key))
  }

  /** `key` occurs in `s` at offset `i`. */
  predicate OccursAt(s: string, key: string, i: nat) {
    i + |key| <= |s| && s[i..i + |key|] == key
  }

  /** `Contains` holds exactly when `key` occurs at some offset of `s`. */
  lemma {:induction false} ContainsIff(s: string, key: string)
    ensures Contains(s, key) <==> exists i: nat :: OccursAt(s, key, i)
    decreases |s|
  {
    if |key| <= |s| && s[..|key|] != key {
      assert !OccursAt(s, key, 0);
      ContainsIff(s[1..], key);
      forall i: nat | 0 < i ensures OccursAt(s, key, i) <==> OccursAt(s[1..], key, i - 1) {
        if i + |key| <= |s| {
          ShiftedSlice(s, i, |key|);
        }
      }
      if Contains(s[1..], key) {
        var j: nat :| OccursAt(s[1..], key, j);
        assert OccursAt(s, key, j + 1);
      }
      if exists i: nat :: OccursAt(s, key, i) {
        var i: nat :| OccursAt(s, key, i);
        assert OccursAt(s[1..], key, i - 1);
      }
    } else if |key| <= |s| {
      assert OccursAt(s, key, 0);
    }
  }

  /** A slice of `s` starting after its first character is a slice of `s[1..]`. */
  lemma ShiftedSlice(s: string, i: nat, n: nat)
    requires 0 < i && i + n <= |s|
    ensures s[i..i + n] == s[1..][i - 1..i - 1 + n]
  {
    var a, b := s[i..i + n], s[1..][i - 1..i - 1 + n];
    assert forall m :: 0 <= m < n ==> a[m] == b[m];
  }

  /** A key that occurs at some offset is contained. */
  lemma OccursContains(s: string, key: string, i: nat)
    requires OccursAt(s, key, i)
    ensures Contains(s, key)
  {
    ContainsIff(s, key);
  }

  /** A key with a character that `s` lacks is not contained in `s`. */
  lemma AbsentCharacter(s: string, key: string, m: nat)
    requires m < |key| && forall i :: 0 <= i < |s| ==> s[i] != key[m]
    ensures !Contains(s, key)
  {
    ContainsIff(s, key);
    forall i: nat ensures !OccursAt(s, key, i) {
      if i + |key| <= |s| {
        assert s[i..i + |key|][m] == s[i + m];
      }
    }
  }
}
