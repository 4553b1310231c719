/** Hand-written scanners for the six shapes of regular expression behind
    the extractor's twelve searches, and Python's `re.search`: the leftmost position at which the
    pattern matches. Every pattern is searched with `re.I`. */
module Scan {
  import opened Text

  datatype Option<T> = None | Some(value: T)

  /** The patterns used by the extractor. */
  datatype Pattern =
    | AgeYears                              // (\d+)\s*-?\s*year
    | Measure(units: seq<string>)           // (\d+(?:\.\d+)?)\s*(?:u1|u2|...)
    | BmiValue                              // bmi\s*[:=]?\s*(\d+(?:\.\d+)?)
    | Word(w: string)                       // \bw\b
    | Spaced(first: string, second: string) // first\s*second
    | Literal(w: string)                    // w

  /** The literals a pattern is built from are lower-case words, and the
      units and the word after a `\s*` are not empty. */
  predicate WellFormed(p: Pattern) {
    match p
    case Measure(units) => forall u :: u in units ==> |u| > 0 && IsLowerWord(u)
    case Spaced(a, b) => |b| > 0 && IsLowerWord(a) && IsLowerWord(b)
    case Word(w) => IsLowerWord(w)
    case Literal(w) => IsLowerWord(w)
    case _ => true
  }

  /** `\s*-?\s*year` matches at `j`: greedy whitespace, then a dash and more
      whitespace if there is a dash, then `year`. */
  predicate YearTail(t: string, j: nat)
    requires j <= |t|
  {
    var k := SkipSpaces(t, j);
    if k < |t| && t[k] == '-' then LitAt(t, SkipSpaces(t, k + 1), "year") else LitAt(t, k, "year")
  }

  /** `\s*(?:u1|u2|...)` matches at `e`. */
  predicate UnitTail(t: string, e: nat, units: seq<string>)
    requires e <= |t|
  {
    var k := SkipSpaces(t, e);
    exists u :: u in units && LitAt(t, k, u)
  }

  /** Where the number of `bmi\s*[:=]?\s*` starts, `j` being the position
      just after `bmi`. */
  function BmiNumberStart(t: string, j: nat): (s: nat)
    requires j <= |t|
    ensures j <= s <= |t|
  {
    var k := SkipSpaces(t, j);
    if k < |t| && (t[k] == ':' || t[k] == '=') then SkipSpaces(t, k + 1) else k
  }

  /** `\b`: exactly one of the characters around position `i` is a word character. */
  predicate WordBoundary(t: string, i: nat)
    requires i <= |t|
  {
    (i > 0 && IsWordChar(t[i - 1])) != (i < |t| && IsWordChar(t[i]))
  }

  /** The pattern matches somewhere starting at position `i`. */
  predicate MatchAt(p: Pattern, t: string, i: nat)
    requires i <= |t|
  {
    match p
    case AgeYears => i < |t| && IsDigit(t[i]) && YearTail(t, DigitsEnd(t, i))
    case Measure(units) => i < |t| && IsDigit(t[i]) && UnitTail(t, NumberEnd(t, i), units)
    case BmiValue =>
      LitAt(t, i, "bmi") && var s := BmiNumberStart(t, i + 3); s < |t| && IsDigit(t[s])
    case Word(w) => LitAt(t, i, w) && WordBoundary(t, i) && WordBoundary(t, i + |w|)
    case Spaced(a, b) => LitAt(t, i, a) && LitAt(t, SkipSpaces(t, i + |a|), b)
    case Literal(w) => LitAt(t, i, w)
  }

  /** `re.search(p, t[from..])`: the first position at or after `from` where
      `p` matches, or `None` when it matches nowhere. */
  function Search(p: Pattern, t: string, from: nat): (r: Option<nat>)
    requires from <= |t|
    ensures r.Some? ==> from <= r.value <= |t| && MatchAt(p, t, r.value)
    ensures forall j :: from <= j <= |t| && (r.None? || j < r.value) ==> !MatchAt(p, t, j)
    decreases |t| - from
  {
    if MatchAt(p, t, from) then Some(from)
    else if from == |t| then None
    else Search(p, t, from + 1)
  }

  /** The digits of the group `(\d+)` of the age pattern matching at `i`. */
  function AgeDigits(t: string, i: nat): (g: string)
    requires i <= |t| && MatchAt(AgeYears, t, i)
    ensures |g| > 0 && forall k :: 0 <= k < |g| ==> IsDigit(g[k])
  {
    t[i..DigitsEnd(t, i)]
  }

  /** The text of the number group of a `Measure` pattern matching at `i`. */
  function MeasureNumber(t: string, i: nat, units: seq<string>): (g: string)
    requires i <= |t| && MatchAt(Measure(units), t, i)
    ensures |g| > 0 && IsDigit(g[0])
  {
    t[i..NumberEnd(t, i)]
  }

  /** The text of the number group of the BMI pattern matching at `i`. */
  function BmiNumber(t: string, i: nat): (g: string)
    requires i <= |t| && MatchAt(BmiValue, t, i)
    ensures |g| > 0 && IsDigit(g[0])
  {
    var s := BmiNumberStart(t, i + 3);
    t[s..NumberEnd(t, s)]
  }
}
