# Fitness recommender: profile extractor and icon matcher

This is a model of the text handling in the fitness recommendation web app, app.py. It has two parts.

- **The profile extractor `parse_paragraph`.** It reads a free-text paragraph and returns
  `(age, height, weight, bmi, sex, level, goal)` from twelve case-insensitive `re.search`
  calls (app.py:55-94).
  - Age, height and weight take the leftmost match of their pattern, or a fixed default when the
    pattern does not occur.
  - The BMI is the number stated after `bmi`, or else it is computed as weight / height².
  - Sex, level and goal are decided by which of their keyword patterns occur, tried in a fixed
    priority order; where a match falls plays no part.
- **The icon matcher in the request handler.** It lowers a result label and walks an ordered
  key → file name table. It lists the file name of every entry whose key is a substring of the
  label.

The modules follow that structure:

- `Text`: characters and strings as the extractor sees them.
  - Python's `\d`, `\s` and `\w` classes.
  - `str.lower()`.
  - Greedy whitespace and digit runs.
  - The values `int()` and `float()` give to a matched group.
  - The substring test `key in s`.
- `Scan`: one hand-written scanner per shape of regular expression, and `re.search`.
  - The twelve expressions have six shapes: the age pattern, a number before a unit (height,
    weight), the BMI pattern, a standalone word (`\bmale\b` and the like), two words joined by
    `\s*` (`weight\s*loss`, `weight\s*gain`) and a plain literal.
  - `maintain|maintenance` is searched as its two literals, giving thirteen pattern constants.
  - The scanners are gathered in the `Pattern` datatype, through `MatchAt`.
  - `Search` is Python's `re.search`: the leftmost position at which `MatchAt` holds.
- `Regex`: the same expressions read declaratively, as the set of spans they accept.
  - These are ghost predicates. Where an expression has choice points (the age, height, weight
    and BMI groups, and the `\s*` inside `weight\s*loss`), the sub-spans are existentially chosen.
  - `\bw\b` and a plain literal have no choice points, so they are read exactly as scanned. For
    them, `Regex.SearchSucceedsIff` (found exactly when some position matches) is the partner.
  - They are proved to accept exactly what the scanners accept.
  - The capture groups are proved unique, or for BMI longest. So the backtracking engine's
    greedy choice is the group the scanner returns.
- `Extractor`: the profile datatypes, one function per field, `ParseParagraph`, and one lemma
  per field stating what that field is.
- `Images`: the two icon tables, in insertion order.
  - `Matching` is the specification: an order-preserving selection.
  - `MatchImages` is the loop of the request handler, proved to compute `Matching`.
- `Scenarios` and `Paragraphs`: particular labels and paragraphs worked through the model.

## Model

| member | source | states |
|---|---|---|
| Text.Lower | app.py:68 | `str.lower()` on one character: an upper-case ASCII letter becomes its lower-case letter; every other character is unchanged |
| Text.LowerStr | app.py:137 | the lowered string has the same length, and each character is the lowered character at that position |
| Text.SkipSpaces | app.py:55 | a greedy `\s*` stops at the end of the longest whitespace run |
| Text.DigitsEnd | app.py:55 | a greedy `\d+` stops at the end of the longest digit run |
| Text.SpacesEndAtSkip | app.py:55 | a whitespace run followed by a non-space is the longest one |
| Text.DigitsEndAt | app.py:55 | a digit run followed by a non-digit is the longest one |
| Text.NumberEnd | app.py:65 | the longest `\d+(?:\.\d+)?` starting at a digit ends at or after its digit run |
| Text.IntValue | app.py:56 | `int()` of a digit string; no contract of its own, specified digit by digit by `Text.IntValueDigit` and positionally by `Text.IntValueConcat`; `Text.IntValueBound` bounds it |
| Text.IntValueDigit | app.py:56 | `int()` of one digit is that digit's value |
| Text.IntValueConcat | app.py:56 | the digits of `a` followed by those of `b` are worth `a` times 10^\|b\| plus `b` |
| Text.IntValueBound | app.py:56 | `int()` of an n-digit string is below 10^n |
| Text.DecimalValue | app.py:67 | `float()` of a decimal literal; no contract of its own, specified by `Text.DecimalValueOfInteger`, `Text.DecimalValueOfFraction` and `Text.FractionBelowOne` |
| Text.DecimalValueOfInteger | app.py:76 | `float()` of a digit string is its integer value |
| Text.DecimalValueOfFraction | app.py:67 | `float()` of `a.b` is the value of `a` plus the value of `b` scaled down by ten to the number of digits of `b` |
| Text.FractionBelowOne | app.py:67 | the fraction digits contribute less than one |
| Text.Scaled | app.py:67 | `x / 10^n` is non-negative, and times `10^n` it gives back `x` |
| Text.Contains | app.py:139 | `key in s`; no contract of its own, specified by `Text.ContainsIff` |
| Text.ContainsIff | app.py:139 | `key in s` holds exactly when `key` occurs at some offset of `s` |
| Text.OccursContains | app.py:139 | a key occurring at an offset is `in` the string |
| Text.AbsentCharacter | app.py:139 | a key with a character the string lacks is not `in` it |
| Text.IsDigit | app.py:55 | `\d` on ASCII digits; no contract of its own, used by `Text.DigitsEnd` and specified with the scanners by `Regex.ScannerIsRegex` |
| Text.IsSpace | app.py:55 | `\s`, every character `str.isspace()` accepts; no contract of its own, used by `Text.SkipSpaces` and specified with the scanners by `Regex.ScannerIsRegex` |
| Text.IsWordChar | app.py:58 | `\w` on ASCII; no contract of its own, used by `Scan.WordBoundary` and specified with it by `Regex.ScannerIsRegex` |
| Scan.YearTail | app.py:55 | the scanner for `\s*-?\s*year`; no contract of its own, specified by `Regex.YearTailIff` |
| Scan.UnitTail | app.py:65 | the scanner for `\s*(?:cm\|m)` (and `\s*kg`, app.py:75); no contract of its own, specified by `Regex.UnitTailIff` |
| Scan.BmiNumberStart | app.py:78 | where the BMI group starts, after `bmi\s*[:=]?\s*`; no contract of its own, specified by `Regex.BmiScanIsGroup` and `Regex.BmiGroupWithin` |
| Scan.Search | app.py:55 | `re.search` returns the first position where the pattern matches, no earlier position matching; `None` only if it matches nowhere |
| Scan.MatchAt | app.py:55-94 | the scanners of the twelve expressions; no contract of its own, specified by `Regex.ScannerIsRegex` |
| Text.LitAt | app.py:90 | a literal, matched under `re.I`; no contract of its own, used by `Scan.MatchAt` and specified with it by `Regex.ScannerIsRegex` |
| Scan.WordBoundary | app.py:58 | `\b`; no contract of its own, specified with `Scan.MatchAt` by `Regex.ScannerIsRegex` and used by `Extractor.MaleNotInsideFemale` |
| Extractor.Found | app.py:58 | `re.search` is truthy; no contract of its own, specified by `Regex.SearchSucceedsIff` |
| Scan.AgeDigits | app.py:56 | the age group is a non-empty run of digits |
| Scan.MeasureNumber | app.py:67 | the height or weight group starts with a digit |
| Scan.BmiNumber | app.py:79 | the BMI group starts with a digit |
| Regex.YearTailIff | app.py:55 | the scanner for `\s*-?\s*year` accepts exactly the suffixes the expression accepts |
| Regex.UnitTailIff | app.py:65 | the scanner for `\s*(?:cm\|m)` (and `\s*kg`) accepts exactly the suffixes the expression accepts |
| Regex.SpacedIff | app.py:90 | the scanner for `weight\s*loss` and `weight\s*gain` accepts exactly where the expression matches |
| Regex.BmiScanIsGroup | app.py:78 | the scanner's BMI group is a group the expression accepts |
| Regex.BmiGroupWithin | app.py:78 | every BMI group the expression accepts starts where the scanner's does and ends no later |
| Regex.ScannerIsRegex | app.py:55-94 | for every pattern of the extractor, the scanner accepts at a position exactly when the regular expression matches there |
| Regex.AgeGroupUnique | app.py:55 | the only group `(\d+)` with which the age pattern matches is the whole digit run |
| Regex.MeasureGroupUnique | app.py:65 | the only number group with which the height or weight pattern matches is the longest decimal literal |
| Regex.BmiGroupLongest | app.py:78 | the group greedy matching takes, the longest accepted, is the scanner's group |
| Regex.SearchFindsLeftmost | app.py:55 | `re.search` reports the leftmost match of the expression |
| Regex.SearchFindsNothing | app.py:56 | `re.search` reports nothing when the expression occurs nowhere |
| Regex.SearchSucceedsIff | app.py:58 | `re.search` succeeds exactly when the expression occurs |
| Regex.MatchStartsInText | app.py:55 | a match starts inside the text |
| Extractor.ParseParagraph | app.py:54-99 | the result is an error exactly when no BMI is stated and the height is zero; a derived BMI times the squared height is the weight |
| Extractor.Quotient | app.py:79 | `weight / height ** 2` multiplied by the squared height gives back the weight |
| Extractor.ExtractAge | app.py:55-56 | the age field; no contract of its own, specified by `Extractor.AgeOfLeftmostMatch` and `Extractor.AgeDefault` |
| Extractor.ExtractSex | app.py:58-63 | the sex field; no contract of its own, specified by `Extractor.SexPriority` and `Extractor.MaleNotInsideFemale` |
| Extractor.ExtractHeight | app.py:65-73 | the height field; no contract of its own, specified by `Extractor.HeightOfLeftmostMatch` and `Extractor.HeightDefault` |
| Extractor.ExtractWeight | app.py:75-76 | the weight field; no contract of its own, specified by `Extractor.WeightOfLeftmostMatch` and `Extractor.WeightDefault` |
| Extractor.StatedBmi | app.py:78-79 | the stated BMI, if any; no contract of its own, specified by `Extractor.StatedBmiWins` and `Extractor.DerivedBmiWhenNotStated` |
| Extractor.ExtractLevel | app.py:81-88 | the level field; no contract of its own, specified by `Extractor.LevelPriority` |
| Extractor.ExtractGoal | app.py:90-97 | the goal field; no contract of its own, specified by `Extractor.GoalPriority` |
| Extractor.AgeOfLeftmostMatch | app.py:55-56 | the age is the integer value of the digit group of the leftmost match of `(\d+)\s*-?\s*year` |
| Extractor.AgeDefault | app.py:56 | with no age match, the age is 25 |
| Extractor.SexPriority | app.py:58-63 | a standalone `male` gives male even when `female` occurs; the sex is female exactly when there is no standalone `male` and there is a standalone `female` |
| Extractor.NoStandaloneMaleNear | app.py:58 | no standalone `male` starts within a `female` or overlaps one |
| Extractor.MaleNotInsideFemale | app.py:58-61 | every standalone `male` lies clear of every `female`, so `female` alone never passes the `male` test |
| Extractor.HeightOfLeftmostMatch | app.py:65-71 | the height is the value of the leftmost match's number group, divided by 100 exactly when `cm` occurs anywhere in the lowered text |
| Extractor.HeightDefault | app.py:72-73 | with no height match, the height is 1.7 |
| Extractor.WeightOfLeftmostMatch | app.py:75-76 | the weight is the value of the number group of the leftmost match of `(\d+(?:\.\d+)?)\s*kg` |
| Extractor.WeightDefault | app.py:76 | with no weight match, the weight is 70 |
| Extractor.StatedBmiWins | app.py:78-79 | with a `bmi` match, the BMI is the stated number, whatever the height and weight |
| Extractor.DerivedBmiWhenNotStated | app.py:79 | with no `bmi` match, the BMI is derived from weight and height; this fails exactly when the height is zero |
| Extractor.LevelPriority | app.py:81-88 | the level is the first of beginner, intermediate, advanced found as a standalone word, else beginner |
| Extractor.GoalPriority | app.py:90-97 | the goal is the first of `weight\s*loss`, `weight\s*gain`, `maintain\|maintenance` that occurs, else weight loss |
| Extractor.DefaultsWhenNothingMatches | app.py:54-99 | a text matching no pattern gets age 25, height 1.7, weight 70, male, beginner, weight loss, and the BMI computed from the defaults |
| Images.TablesHaveDistinctKeys | app.py:28-51 | each icon table, a dictionary literal, has distinct keys; the tables are the constants `Images.ExerciseImages` (app.py:28-39) and `Images.EquipmentImages` (app.py:41-51), entry for entry in source order |
| Images.Matching | app.py:137-145 | the icon list is no longer than the table |
| Images.MatchingStep | app.py:138-140 | the unfolding step of `Matching`: one more table entry adds its file name exactly when its key occurs |
| Images.MatchedPositions | app.py:138-140 | the matched positions increase strictly, each has a key in the text, and every entry whose key is in the text is among them |
| Images.MatchingIsSelection | app.py:138-140 | the icon list is the table values at the matched positions, in table order |
| Images.MatchingMembers | app.py:138-140 | a file name is listed exactly when some entry with that file name has its key in the text |
| Images.MatchingEmpty | app.py:138-140 | the list is empty exactly when no key is in the text |
| Images.TwoListed | app.py:138-140 | two matched entries are listed in table order |
| Images.BriskWalkingListsBoth | app.py:34-35 | a text holding `brisk walking` lists `walking.jpeg` and, after it, `brisk_walking.jpg` |
| Images.RowerListedTwice | app.py:47-49 | a text holding both `indoor rowers` and `rowing machine` lists `rower.jpeg` twice |
| Images.MatchImages | app.py:137-140 | the loop returns the file names of the entries whose keys are in the lowered label, in table order |
| Images.IconsFor | app.py:137-145 | the two icon lists are the selections from the exercise table and the equipment table for their lowered labels |
| Scenarios.SquatsYogaSelection | app.py:138-140 | a text in which, of all the exercise keys, exactly `squats` and `yoga` occur lists `squats.jpeg` and then `yoga.jpeg` |
| Scenarios.LowerSquatsYoga | app.py:137 | `Exercises: Squats, Yoga` lowers to `exercises: squats, yoga` |
| Scenarios.SquatsAndYoga | app.py:137-140 | the label `Exercises: Squats, Yoga` yields exactly `["squats.jpeg", "yoga.jpeg"]` |
| Paragraphs.SearchAt | app.py:65 | a pattern matching at `i` and nowhere before is reported at `i` |
| Paragraphs.MaleReadAsMetres | app.py:65-71 | in `28 male` the `m` of `male` is taken as metres, and the height is 28 |
| Paragraphs.StandaloneMale | app.py:58-59 | in `28 male` the word `male` stands alone, so the sex is male |

## Left out

- The Flask app, its route, the request form and template rendering (app.py:7, 127-136, 147-150) are web plumbing. The label strings the matcher reads are parameters of `Images.IconsFor`.
- Loading the Keras model, the preprocessor and the label tables (app.py:9-25) is file I/O of opaque objects.
- `predict_from_paragraph` beyond its call to `parse_paragraph` (app.py:101-125) is not modelled. It builds a DataFrame, runs the preprocessor and the model and takes `argmax`: these are foreign library calls over float tensors.
- Extractor.ParseParagraph: the derived BMI is the exact real quotient weight / height².
  - The source applies `round(..., 2)` to its floating-point value; rounding is not modelled.
  - Heights, weights and BMIs are reals, not IEEE doubles.
  - The default weight is the real 70, where the source uses the integer `70`.
  - Two float error paths of `weight/(height**2)` are therefore absent. A finite height above about 1.34e154 makes `height**2` raise `OverflowError`. A nonzero height below about 1.5e-162 squares to 0.0 and raises `ZeroDivisionError`. In both cases the model returns `Ok` with a derived BMI.
  - A height literal beyond the double range (more than about 309 digits before the point) makes `float()` return `inf`, which `/100` keeps. Then `height**2` is `inf` with no error, and the source's derived BMI is `weight/inf`, rounded to 0.0. The model returns `Ok` with a small positive quotient instead.
- Extractor.ParseParagraph: a zero height with no stated BMI makes the source raise `ZeroDivisionError`. The model returns `Err(DivisionByZero)` instead.
- Text.IsDigit: `\d` and `\w` on `str` patterns also accept non-ASCII digits and letters. The model takes ASCII only.
- Text.IsWordChar: restricted to ASCII in the same way as `\d`.
- Text.Lower: full Unicode case mapping (under `re.I` and in `str.lower()`) is not modelled; only ASCII letters are lowered. `\s` is modelled with Python's whole whitespace set.
- Extractor.ExtractAge: the limit on `int()` of strings over 4300 digits is not modelled. It raises `ValueError`, and whether it exists depends on the interpreter version: it came with CPython 3.11 and with the 2022 security releases 3.10.7, 3.9.14, 3.8.14 and 3.7.14.
- Extractor.ExtractGoal: `maintain|maintenance` is modelled as two literal searches. Only whether the search succeeds is used, and the alternation succeeds exactly when one of its alternatives occurs.
- The regular expression engine in general is not modelled. Only the twelve fixed expressions are, through the scanners of their six shapes.
- Python dictionaries iterate in insertion order, so the icon tables are ordered sequences.
- The equipment table literal (app.py:41-51) has a trailing comma after its eighth entry and no empty entry, so the model's table has eight entries.
