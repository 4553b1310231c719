/** What each of the extractor's regular expressions means, written as the
    set of spans it accepts (with no regard to how a backtracking engine
    explores them), and the proof that the scanners of module Scan accept
    exactly those spans. For the patterns with a capture group it also shows
    that no other choice of group than the scanner's can make the pattern
    match, so the engine's greedy backtracking order selects the
    scanner's group. */
module Regex {
  import opened Text
  import opened Scan

  // ---------------------------------------------------------------------
  // The languages

  /** `-?` spans `t[a..b]`. */
  ghost predicate OptDash(t: string, a: nat, b: nat) {
    b == a || (a < |t| && t[a] == '-' && b == a + 1)
  }

  /** `[:=]?` spans `t[a..b]`. */
  ghost predicate OptColonOrEquals(t: string, a: nat, b: nat) {
    b == a || (a < |t| && (t[a] == ':' || t[a] == '=') && b == a + 1)
  }

  /** `t[j..]` starts with a word of `\s*-?\s*year`. */
  ghost predicate YearSuffix(t: string, j: nat) {
    exists a: nat, b: nat, c: nat ::
      Spaces(t, j, a) && OptDash(t, a, b) && Spaces(t, b, c) && LitAt(t, c, "year")
  }

  /** `(\d+)\s*-?\s*year` matches at `i` with group `t[i..j]`. */
  ghost predicate AgeGroup(t: string, i: nat, j: nat) {
    Digits(t, i, j) && YearSuffix(t, j)
  }

  /** `t[a..b]` is a word of `\d+(?:\.\d+)?`. */
  ghost predicate Decimal(t: string, a: nat, b: nat) {
    Digits(t, a, b) || exists d: nat :: Digits(t, a, d) && d < |t| && t[d] == '.' && Digits(t, d + 1, b)
  }

  /** `t[e..]` starts with a word of `\s*(?:u1|u2|...)`. */
  ghost predicate UnitSuffix(t: string, e: nat, units: seq<string>) {
    exists c: nat, u :: Spaces(t, e, c) && u in units && LitAt(t, c, u)
  }

  /** `(\d+(?:\.\d+)?)\s*(?:u1|u2|...)` matches at `i` with group `t[i..e]`. */
  ghost predicate MeasureGroup(t: string, i: nat, e: nat, units: seq<string>) {
    Decimal(t, i, e) && UnitSuffix(t, e, units)
  }

  /** `bmi\s*[:=]?\s*(\d+(?:\.\d+)?)` matches at `i` with group `t[s..e]`. */
  ghost predicate BmiGroup(t: string, i: nat, s: nat, e: nat) {
    && LitAt(t, i, "bmi")
    && (exists a: nat, b: nat ::
         Spaces(t, i + 3, a) && OptColonOrEquals(t, a, b) && Spaces(t, b, s))
    && Decimal(t, s, e)
  }

  /** `first\s*second` matches at `i`. */
  ghost predicate SpacedMatch(t: string, i: nat, first: string, second: string) {
    LitAt(t, i, first) && exists c: nat :: Spaces(t, i + |first|, c) && LitAt(t, c, second)
  }

  /** The pattern, read as a regular expression, matches at position `i`.
      `\bw\b` and a plain literal have no choice points, so their reading is
      the scanner's own; `Regex.SearchSucceedsIff` is what states them. */
  ghost predicate RegexAt(p: Pattern, t: string, i: nat) {
    match p
    case AgeYears => exists j: nat :: AgeGroup(t, i, j)
    case Measure(units) => exists e: nat :: MeasureGroup(t, i, e, units)
    case BmiValue => exists s: nat, e: nat :: BmiGroup(t, i, s, e)
    case Word(w) => i + |w| <= |t| && LitAt(t, i, w) && WordBoundary(t, i) && WordBoundary(t, i + |w|)
    case Spaced(a, b) => SpacedMatch(t, i, a, b)
    case Literal(w) => LitAt(t, i, w)
  }

  /** The pattern matches somewhere in `t`. */
  ghost predicate Occurs(p: Pattern, t: string) {
    exists i: nat :: RegexAt(p, t, i)
  }

  /** `i` is where `re.search` reports the pattern: the leftmost match. */
  ghost predicate Leftmost(p: Pattern, t: string, i: nat) {
    RegexAt(p, t, i) && forall k: nat :: k < i ==> !RegexAt(p, t, k)
  }

  // ---------------------------------------------------------------------
  // Small facts about the pieces

  /** A lower-case letter cannot be whitespace, a digit, `.` or `-`. */
  lemma LetterAt(t: string, c: nat, w: string)
    requires LitAt(t, c, w) && |w| > 0 && 'a' <= w[0] <= 'z'
    ensures c < |t| && !IsSpace(t[c]) && !IsDigit(t[c]) && t[c] != '.' && t[c] != '-'
  {
    assert Lower(t[c + 0]) == w[0];
  }

  /** The suffix `\s*-?\s*year` starts with a character that is not a digit. */
  lemma YearSuffixStartsNonDigit(t: string, j: nat)
    requires YearSuffix(t, j)
    ensures j < |t| && !IsDigit(t[j])
  {
    var a: nat, b: nat, c: nat :|
      Spaces(t, j, a) && OptDash(t, a, b) && Spaces(t, b, c) && LitAt(t, c, "year");
    LetterAt(t, c, "year");
    if j < a {
      assert IsSpace(t[j]);
    } else if j < b {
      assert t[j] == '-';
    } else if j < c {
      assert IsSpace(t[j]);
    }
  }

  /** The suffix `\s*(?:u1|...)` starts with a character that is not a digit or `.`. */
  lemma UnitSuffixStarts(t: string, e: nat, units: seq<string>)
    requires WellFormed(Measure(units)) && UnitSuffix(t, e, units)
    ensures e < |t| && !IsDigit(t[e]) && t[e] != '.'
  {
    var c: nat, u :| Spaces(t, e, c) && u in units && LitAt(t, c, u);
    LetterAt(t, c, u);
    if e < c {
      assert IsSpace(t[e]);
    }
  }

  /** A decimal literal starting at `i` ends at or before `NumberEnd(t, i)`. */
  lemma DecimalWithin(t: string, i: nat, e: nat)
    requires Decimal(t, i, e)
    ensures i < |t| && IsDigit(t[i]) && e <= NumberEnd(t, i)
  {
    assert IsDigit(t[i]);
    if Digits(t, i, e) {
      DigitsWithin(t, i, e);
    } else {
      var d: nat :| Digits(t, i, d) && d < |t| && t[d] == '.' && Digits(t, d + 1, e);
      DigitsEndAt(t, i, d);
      assert IsDigit(t[d + 1]);
      DigitsWithin(t, d + 1, e);
    }
  }

  /** The longest decimal literal at a digit is a decimal literal. */
  lemma NumberEndIsDecimal(t: string, i: nat)
    requires i < |t| && IsDigit(t[i])
    ensures Decimal(t, i, NumberEnd(t, i))
  {
    var d := DigitsEnd(t, i);
    if d + 1 < |t| && t[d] == '.' && IsDigit(t[d + 1]) {
      assert Digits(t, i, d) && Digits(t, d + 1, DigitsEnd(t, d + 1));
    } else {
      assert Digits(t, i, d);
    }
  }

  /** A decimal literal followed by a character that is neither a digit nor
      `.` is the longest one. */
  lemma DecimalEndAt(t: string, i: nat, e: nat)
    requires Decimal(t, i, e) && e < |t| && !IsDigit(t[e]) && t[e] != '.'
    ensures i < |t| && IsDigit(t[i]) && e == NumberEnd(t, i)
  {
    DecimalWithin(t, i, e);
    if Digits(t, i, e) {
      DigitsEndAt(t, i, e);
    } else {
      var d: nat :| Digits(t, i, d) && d < |t| && t[d] == '.' && Digits(t, d + 1, e);
      DigitsEndAt(t, i, d);
      DigitsEndAt(t, d + 1, e);
    }
  }

  // ---------------------------------------------------------------------
  // Scanner and regular expression agree

  lemma YearTailIff(t: string, j: nat)
    requires j <= |t|
    ensures YearTail(t, j) <==> YearSuffix(t, j)
  {
    if YearTail(t, j) {
      YearTailIsSuffix(t, j);
    }
    if YearSuffix(t, j) {
      YearSuffixIsTail(t, j);
    }
  }

  lemma YearTailIsSuffix(t: string, j: nat)
    requires j <= |t| && YearTail(t, j)
    ensures YearSuffix(t, j)
  {
    var k := SkipSpaces(t, j);
    if k < |t| && t[k] == '-' {
      var c := SkipSpaces(t, k + 1);
      assert Spaces(t, j, k) && OptDash(t, k, k + 1) && Spaces(t, k + 1, c) && LitAt(t, c, "year");
    } else {
      assert Spaces(t, j, k) && OptDash(t, k, k) && Spaces(t, k, k) && LitAt(t, k, "year");
    }
  }

  lemma YearSuffixIsTail(t: string, j: nat)
    requires j <= |t| && YearSuffix(t, j)
    ensures YearTail(t, j)
  {
    var a: nat, b: nat, c: nat :|
      Spaces(t, j, a) && OptDash(t, a, b) && Spaces(t, b, c) && LitAt(t, c, "year");
    LetterAt(t, c, "year");
    if b == a {
      assert Spaces(t, j, c);
      SpacesEndAtSkip(t, j, c);
    } else {
      SpacesEndAtSkip(t, j, a);
      SpacesEndAtSkip(t, a + 1, c);
    }
  }

  lemma UnitTailIff(t: string, e: nat, units: seq<string>)
    requires e <= |t| && WellFormed(Measure(units))
    ensures UnitTail(t, e, units) <==> UnitSuffix(t, e, units)
  {
    var k := SkipSpaces(t, e);
    if UnitTail(t, e, units) {
      var u :| u in units && LitAt(t, k, u);
      assert Spaces(t, e, k);
    }
    if UnitSuffix(t, e, units) {
      var c: nat, u :| Spaces(t, e, c) && u in units && LitAt(t, c, u);
      LetterAt(t, c, u);
      SpacesEndAtSkip(t, e, c);
    }
  }

  lemma SpacedIff(t: string, i: nat, first: string, second: string)
    requires i <= |t| && |second| > 0 && IsLowerWord(second)
    ensures MatchAt(Spaced(first, second), t, i) <==> SpacedMatch(t, i, first, second)
  {
    if SpacedMatch(t, i, first, second) {
      SpacedMatchIsScan(t, i, first, second);
    }
    if MatchAt(Spaced(first, second), t, i) {
      assert Spaces(t, i + |first|, SkipSpaces(t, i + |first|));
    }
  }

  lemma SpacedMatchIsScan(t: string, i: nat, first: string, second: string)
    requires i <= |t| && |second| > 0 && IsLowerWord(second) && SpacedMatch(t, i, first, second)
    ensures MatchAt(Spaced(first, second), t, i)
  {
    var c: nat :| Spaces(t, i + |first|, c) && LitAt(t, c, second);
    LetterAt(t, c, second);
    SpacesEndAtSkip(t, i + |first|, c);
  }

  /** The scanner's BMI group is a group of the regular expression. */
  lemma BmiScanIsGroup(t: string, i: nat)
    requires i <= |t| && MatchAt(BmiValue, t, i)
    ensures BmiGroup(t, i, BmiNumberStart(t, i + 3), NumberEnd(t, BmiNumberStart(t, i + 3)))
  {
    var k := SkipSpaces(t, i + 3);
    var s := BmiNumberStart(t, i + 3);
    NumberEndIsDecimal(t, s);
    if k < |t| && (t[k] == ':' || t[k] == '=') {
      assert Spaces(t, i + 3, k) && OptColonOrEquals(t, k, k + 1) && Spaces(t, k + 1, s);
    } else {
      assert Spaces(t, i + 3, k) && OptColonOrEquals(t, k, k) && Spaces(t, k, s);
    }
  }

  /** Every group of the BMI regular expression starts where the scanner's
      does and is a prefix of the scanner's. */
  lemma BmiGroupWithin(t: string, i: nat, s: nat, e: nat)
    requires BmiGroup(t, i, s, e)
    ensures i <= |t| && MatchAt(BmiValue, t, i) && s == BmiNumberStart(t, i + 3)
    ensures e <= NumberEnd(t, s)
  {
    var a: nat, b: nat :| Spaces(t, i + 3, a) && OptColonOrEquals(t, a, b) && Spaces(t, b, s);
    DecimalWithin(t, s, e);
    if b == a {
      assert Spaces(t, i + 3, s);
      SpacesEndAtSkip(t, i + 3, s);
    } else {
      SpacesEndAtSkip(t, i + 3, a);
      SpacesEndAtSkip(t, a + 1, s);
    }
  }

  /** The scanner accepts at `i` exactly when the regular expression matches there. */
  lemma {:induction false} ScannerIsRegex(p: Pattern, t: string, i: nat)
    requires i <= |t| && WellFormed(p)
    ensures MatchAt(p, t, i) <==> RegexAt(p, t, i)
  {
    match p
    case AgeYears =>
      if MatchAt(p, t, i) {
        var j := DigitsEnd(t, i);
        YearTailIff(t, j);
        assert AgeGroup(t, i, j);
      }
      if RegexAt(p, t, i) {
        var j: nat :| AgeGroup(t, i, j);
        AgeGroupUnique(t, i, j);
        YearTailIff(t, j);
      }
    case Measure(units) =>
      if MatchAt(p, t, i) {
        var e := NumberEnd(t, i);
        UnitTailIff(t, e, units);
        NumberEndIsDecimal(t, i);
        assert MeasureGroup(t, i, e, units);
      }
      if RegexAt(p, t, i) {
        var e: nat :| MeasureGroup(t, i, e, units);
        MeasureGroupUnique(t, i, e, units);
        UnitTailIff(t, e, units);
      }
    case BmiValue =>
      if MatchAt(p, t, i) {
        BmiScanIsGroup(t, i);
        var s := BmiNumberStart(t, i + 3);
        assert BmiGroup(t, i, s, NumberEnd(t, s));
      }
      if RegexAt(p, t, i) {
        var s: nat, e: nat :| BmiGroup(t, i, s, e);
        BmiGroupWithin(t, i, s, e);
      }
    case Word(w) =>
    case Spaced(a, b) =>
      SpacedIff(t, i, a, b);
    case Literal(w) =>
  }

  // ---------------------------------------------------------------------
  // The capture groups are determined by where the match starts

  /** The only group `(\d+)` that lets the age pattern match at `i` is the
      whole run of digits there. */
  lemma AgeGroupUnique(t: string, i: nat, j: nat)
    requires AgeGroup(t, i, j)
    ensures i < |t| && IsDigit(t[i]) && j == DigitsEnd(t, i)
  {
    YearSuffixStartsNonDigit(t, j);
    DigitsEndAt(t, i, j);
  }

  /** The only number group that lets a `Measure` pattern match at `i` is the
      longest decimal literal there. */
  lemma MeasureGroupUnique(t: string, i: nat, e: nat, units: seq<string>)
    requires WellFormed(Measure(units)) && MeasureGroup(t, i, e, units)
    ensures i < |t| && IsDigit(t[i]) && e == NumberEnd(t, i)
  {
    UnitSuffixStarts(t, e, units);
    DecimalEndAt(t, i, e);
  }

  /** The BMI pattern, whose group is not followed by anything, matches at
      `i` with every decimal prefix of the number; greedy matching takes the
      longest, which is the scanner's group. */
  lemma BmiGroupLongest(t: string, i: nat, s: nat, e: nat)
    requires BmiGroup(t, i, s, e)
    requires forall e': nat :: BmiGroup(t, i, s, e') ==> e' <= e
    ensures MatchAt(BmiValue, t, i) && BmiNumber(t, i) == t[s..e]
  {
    BmiGroupWithin(t, i, s, e);
    BmiScanIsGroup(t, i);
  }

  // ---------------------------------------------------------------------
  // The search reports the leftmost match

  /** `re.search` reports the leftmost position where the expression matches. */
  lemma SearchFindsLeftmost(p: Pattern, t: string, i: nat)
    requires WellFormed(p) && Leftmost(p, t, i)
    ensures i <= |t| && Search(p, t, 0) == Some(i)
  {
    MatchStartsInText(p, t, i);
    ScannerIsRegex(p, t, i);
    forall k: nat | k < i ensures !MatchAt(p, t, k) {
      ScannerIsRegex(p, t, k);
    }
  }

  /** `re.search` reports nothing when the expression matches nowhere. */
  lemma SearchFindsNothing(p: Pattern, t: string)
    requires WellFormed(p) && !Occurs(p, t)
    ensures Search(p, t, 0) == None
  {
    forall k: nat | k <= |t| ensures !MatchAt(p, t, k) {
      ScannerIsRegex(p, t, k);
    }
  }

  /** The search succeeds exactly when the expression occurs. */
  lemma SearchSucceedsIff(p: Pattern, t: string)
    requires WellFormed(p)
    ensures Search(p, t, 0).Some? <==> Occurs(p, t)
  {
    var r := Search(p, t, 0);
    if r.Some? {
      ScannerIsRegex(p, t, r.value);
    } else if Occurs(p, t) {
      var i: nat :| RegexAt(p, t, i);
      MatchStartsInText(p, t, i);
      ScannerIsRegex(p, t, i);
    }
  }

  /** A match starts inside the text (or, for an empty literal, at its end). */
  lemma MatchStartsInText(p: Pattern, t: string, i: nat)
    requires RegexAt(p, t, i)
    ensures i <= |t|
  {
    match p
    case AgeYears =>
      var j: nat :| AgeGroup(t, i, j);
    case Measure(units) =>
      var e: nat :| MeasureGroup(t, i, e, units);
      assert Digits(t, i, e) || exists d: nat :: Digits(t, i, d);
    case BmiValue =>
    case Word(w) =>
    case Spaced(a, b) =>
    case Literal(w) =>
  }
}
