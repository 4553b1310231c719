/** The free-text profile extractor `parse_paragraph`: twelve independent
    searches over the paragraph. Age, height and weight take the leftmost
    match of their pattern or a fixed default; the BMI is the stated number
    or is computed from weight and height; sex, level and goal are decided by
    which of their keyword patterns occur, tried in a fixed priority order. */
module Extractor {
  import opened Text
  import opened Scan
  import opened Regex

  datatype Sex = Male | Female {
    /** The string the source stores in the `sex` field. */
    function Name(): string {
      match this
      case Male => "male"
      case Female => "female"
    }
  }

  datatype Level = Beginner | Intermediate | Advanced {
    function Name(): string {
      match this
      case Beginner => "beginner"
      case Intermediate => "intermediate"
      case Advanced => "advanced"
    }
  }

  datatype Goal = WeightLoss | WeightGain | Maintenance {
    function Name(): string {
      match this
      case WeightLoss => "weight_loss"
      case WeightGain => "weight_gain"
      case Maintenance => "maintenance"
    }
  }

  /** The BMI field: a number stated in the text, or the quotient
      weight / height² that the source then rounds to two decimals. */
  datatype Bmi = Stated(value: real) | Derived(quotient: real)

  /** The tuple `(age, height, weight, bmi, sex, level, goal)`. */
  datatype Profile = Profile(
    age: nat, height: real, weight: real, bmi: Bmi, sex: Sex, level: Level, goal: Goal)

  /** The exception the BMI computation raises when the height is zero. */
  datatype Error = DivisionByZero

  datatype Result = Ok(profile: Profile) | Err(error: Error)

  const AgePattern: Pattern := AgeYears
  const HeightPattern: Pattern := Measure(["cm", "m"])
  const WeightPattern: Pattern := Measure(["kg"])
  const BmiPattern: Pattern := BmiValue
  const MalePattern: Pattern := Word("male")
  const FemalePattern: Pattern := Word("female")
  const BeginnerPattern: Pattern := Word("beginner")
  const IntermediatePattern: Pattern := Word("intermediate")
  const AdvancedPattern: Pattern := Word("advanced")
  const LossPattern: Pattern := Spaced("weight", "loss")
  const GainPattern: Pattern := Spaced("weight", "gain")
  const MaintainPattern: Pattern := Literal("maintain")
  const MaintenancePattern: Pattern := Literal("maintenance")

  const DefaultAge: nat := 25
  const DefaultHeight: real := 1.7
  const DefaultWeight: real := 70.0

  /** `re.search(p, t, re.I)` is truthy. */
  predicate Found(p: Pattern, t: string) {
    Search(p, t, 0).Some?
  }

  function ExtractAge(t: string): nat {
    match Search(AgePattern, t, 0)
    case None => DefaultAge
    case Some(i) => IntValue(AgeDigits(t, i))
  }

  function ExtractSex(t: string): Sex {
    if Found(MalePattern, t) then Male
    else if Found(FemalePattern, t) then Female
    else Male
  }

  /** The height in metres: the first number before `cm` or `m`, divided by
      100 when `cm` occurs anywhere in the lowered text. */
  function ExtractHeight(t: string): real {
    match Search(HeightPattern, t, 0)
    case None => DefaultHeight
    case Some(i) =>
      var v := DecimalValue(MeasureNumber(t, i, ["cm", "m"]));
      if Contains(LowerStr(t), "cm") then v / 100.0 else v
  }

  function ExtractWeight(t: string): real {
    match Search(WeightPattern, t, 0)
    case None => DefaultWeight
    case Some(i) => DecimalValue(MeasureNumber(t, i, ["kg"]))
  }

  /** The number after `bmi`, when the text states one. */
  function StatedBmi(t: string): Option<real> {
    match Search(BmiPattern, t, 0)
    case None => None
    case Some(i) => Some(DecimalValue(BmiNumber(t, i)))
  }

  function ExtractLevel(t: string): Level {
    if Found(BeginnerPattern, t) then Beginner
    else if Found(IntermediatePattern, t) then Intermediate
    else if Found(AdvancedPattern, t) then Advanced
    else Beginner
  }

  function ExtractGoal(t: string): Goal {
    if Found(LossPattern, t) then WeightLoss
    else if Found(GainPattern, t) then WeightGain
    else if Found(MaintainPattern, t) || Found(MaintenancePattern, t) then Maintenance
    else WeightLoss
  }

  /** `parse_paragraph(text)`. It fails only when no BMI is stated and the
      height it divides by is zero; otherwise a derived BMI times the squared
      height gives back the weight. */
  function ParseParagraph(t: string): (r: Result)
    ensures r.Err? <==> StatedBmi(t).None? && ExtractHeight(t) == 0.0
    ensures r.Ok? && r.profile.bmi.Derived? ==>
      IsBmiOf(r.profile.bmi.quotient, r.profile.weight, r.profile.height)
  {
    var height := ExtractHeight(t);
    var weight := ExtractWeight(t);
    match StatedBmi(t)
    case Some(v) => Ok(Profile(ExtractAge(t), height, weight, Stated(v), ExtractSex(t), ExtractLevel(t), ExtractGoal(t)))
    case None =>
      if height == 0.0 then Err(DivisionByZero)
      else
        var q := Quotient(weight, height);
        Ok(Profile(ExtractAge(t), height, weight, Derived(q), ExtractSex(t), ExtractLevel(t), ExtractGoal(t)))
  }

  /** `q` is the BMI of `weight` and `height`: times the squared height it gives the weight. */
  predicate IsBmiOf(q: real, weight: real, height: real) {
    q * (height * height) == weight
  }

  lemma SquarePositive(h: real)
    requires h != 0.0
    ensures h * h > 0.0
  {
    if h < 0.0 {
      assert h * h == (-h) * (-h);
    }
  }

  /** `weight / (height ** 2)` before rounding. */
  function Quotient(weight: real, height: real): (q: real)
    requires height != 0.0
    ensures IsBmiOf(q, weight, height)
  {
    SquarePositive(height);
    weight / (height * height)
  }

  // ---------------------------------------------------------------------
  // What each field is

  /** The age is the integer value of the digit group of the leftmost match
      of `(\d+)\s*-?\s*year`. */
  lemma AgeOfLeftmostMatch(t: string, i: nat, j: nat)
    requires Leftmost(AgePattern, t, i) && AgeGroup(t, i, j)
    ensures ExtractAge(t) == IntValue(t[i..j])
  {
    SearchFindsLeftmost(AgePattern, t, i);
    AgeGroupUnique(t, i, j);
  }

  /** Without a match the age is 25. */
  lemma AgeDefault(t: string)
    requires !Occurs(AgePattern, t)
    ensures ExtractAge(t) == 25
  {
    SearchFindsNothing(AgePattern, t);
  }

  /** `male` is tested first: a standalone `male` makes the sex male even when
      `female` occurs too; otherwise a standalone `female` makes it female. */
  lemma SexPriority(t: string)
    ensures Occurs(MalePattern, t) ==> ExtractSex(t) == Male
    ensures ExtractSex(t) == Female <==> !Occurs(MalePattern, t) && Occurs(FemalePattern, t)
  {
    SearchSucceedsIff(MalePattern, t);
    SearchSucceedsIff(FemalePattern, t);
  }

  /** The `male` inside a `female` is not a standalone word: every standalone
      `male` lies clear of every `female`. */
  lemma MaleNotInsideFemale(t: string, i: nat, j: nat)
    requires LitAt(t, i, "female") && RegexAt(MalePattern, t, j)
    ensures j + 4 <= i || i + 6 <= j
  {
    NoStandaloneMaleNear(t, i);
  }

  /** No standalone `male` starts less than four characters before or less
      than six characters after a `female`. */
  lemma NoStandaloneMaleNear(t: string, i: nat)
    requires LitAt(t, i, "female")
    ensures forall k: nat :: i < k + 4 && k < i + 6 ==> !RegexAt(MalePattern, t, k)
  {
    forall k: nat | i < k + 4 && k < i + 6 ensures !RegexAt(MalePattern, t, k) {
      assert RegexAt(MalePattern, t, k) ==> LitAt(t, k, "male") && WordBoundary(t, k);
      if k == i + 2 {
        // the letter before it is the `e` of `female`, a word character
        assert Lower(t[i + 1]) == "female"[1];
        assert IsWordChar(t[k - 1]);
        assert LitAt(t, k, "male") ==> Lower(t[k + 0]) == "male"[0] && IsWordChar(t[k]);
      } else {
        // the two words would need different letters at position `p`
        var p: nat := if k <= i then i else k;
        assert Lower(t[i + (p - i)]) == "female"[p - i];
        assert Lower(t[p]) != "male"[p - k];
      }
    }
  }

  /** The height is the value of the number group of the leftmost match of
      `(\d+(?:\.\d+)?)\s*(?:cm|m)`, divided by 100 exactly when `cm` occurs
      anywhere in the lowered text, whether or not in the match. */
  lemma HeightOfLeftmostMatch(t: string, i: nat, e: nat)
    requires Leftmost(HeightPattern, t, i) && MeasureGroup(t, i, e, ["cm", "m"])
    ensures ExtractHeight(t) ==
      if Contains(LowerStr(t), "cm") then DecimalValue(t[i..e]) / 100.0 else DecimalValue(t[i..e])
  {
    SearchFindsLeftmost(HeightPattern, t, i);
    MeasureGroupUnique(t, i, e, ["cm", "m"]);
  }

  /** Without a match the height is 1.7. */
  lemma HeightDefault(t: string)
    requires !Occurs(HeightPattern, t)
    ensures ExtractHeight(t) == 1.7
  {
    SearchFindsNothing(HeightPattern, t);
  }

  /** The weight is the value of the number group of the leftmost match of
      `(\d+(?:\.\d+)?)\s*kg`. */
  lemma WeightOfLeftmostMatch(t: string, i: nat, e: nat)
    requires Leftmost(WeightPattern, t, i) && MeasureGroup(t, i, e, ["kg"])
    ensures ExtractWeight(t) == DecimalValue(t[i..e])
  {
    SearchFindsLeftmost(WeightPattern, t, i);
    MeasureGroupUnique(t, i, e, ["kg"]);
  }

  /** Without a match the weight is 70. */
  lemma WeightDefault(t: string)
    requires !Occurs(WeightPattern, t)
    ensures ExtractWeight(t) == 70.0
  {
    SearchFindsNothing(WeightPattern, t);
  }

  /** A stated BMI is taken as it is, whatever height and weight the text
      gives: the value of the longest number after the leftmost `bmi`. */
  lemma StatedBmiWins(t: string, i: nat, s: nat, e: nat)
    requires Leftmost(BmiPattern, t, i) && BmiGroup(t, i, s, e)
    requires forall e': nat :: BmiGroup(t, i, s, e') ==> e' <= e
    ensures ParseParagraph(t).Ok?
    ensures ParseParagraph(t).profile.bmi == Stated(DecimalValue(t[s..e]))
  {
    SearchFindsLeftmost(BmiPattern, t, i);
    BmiGroupLongest(t, i, s, e);
  }

  /** Without a stated BMI it is derived from weight and height, which fails
      exactly when the height is zero. */
  lemma DerivedBmiWhenNotStated(t: string)
    requires !Occurs(BmiPattern, t)
    ensures ParseParagraph(t).Err? <==> ExtractHeight(t) == 0.0
    ensures ParseParagraph(t).Ok? ==>
      && ParseParagraph(t).profile.bmi.Derived?
      && IsBmiOf(ParseParagraph(t).profile.bmi.quotient, ExtractWeight(t), ExtractHeight(t))
  {
    SearchFindsNothing(BmiPattern, t);
  }

  /** The level words are tried in the order beginner, intermediate,
      advanced; the first that occurs as a standalone word wins, and the
      level is beginner when none does. */
  lemma LevelPriority(t: string)
    ensures ExtractLevel(t) == Intermediate <==>
      !Occurs(BeginnerPattern, t) && Occurs(IntermediatePattern, t)
    ensures ExtractLevel(t) == Advanced <==>
      !Occurs(BeginnerPattern, t) && !Occurs(IntermediatePattern, t) && Occurs(AdvancedPattern, t)
    ensures ExtractLevel(t) == Beginner <==>
      Occurs(BeginnerPattern, t) || (!Occurs(IntermediatePattern, t) && !Occurs(AdvancedPattern, t))
  {
    SearchSucceedsIff(BeginnerPattern, t);
    SearchSucceedsIff(IntermediatePattern, t);
    SearchSucceedsIff(AdvancedPattern, t);
  }

  /** The goals are tried in the order `weight\s*loss`, `weight\s*gain`,
      `maintain|maintenance`; the goal is weight loss when none occurs. */
  lemma GoalPriority(t: string)
    ensures ExtractGoal(t) == WeightGain <==> !Occurs(LossPattern, t) && Occurs(GainPattern, t)
    ensures ExtractGoal(t) == Maintenance <==>
      && !Occurs(LossPattern, t) && !Occurs(GainPattern, t)
      && (Occurs(MaintainPattern, t) || Occurs(MaintenancePattern, t))
    ensures ExtractGoal(t) == WeightLoss <==>
      || Occurs(LossPattern, t)
      || (!Occurs(GainPattern, t) && !Occurs(MaintainPattern, t) && !Occurs(MaintenancePattern, t))
  {
    SearchSucceedsIff(LossPattern, t);
    SearchSucceedsIff(GainPattern, t);
    SearchSucceedsIff(MaintainPattern, t);
    SearchSucceedsIff(MaintenancePattern, t);
  }

  /** Every pattern of the extractor. */
  const Patterns: seq<Pattern> := [
    AgePattern, HeightPattern, WeightPattern, BmiPattern, MalePattern, FemalePattern,
    BeginnerPattern, IntermediatePattern, AdvancedPattern,
    LossPattern, GainPattern, MaintainPattern, MaintenancePattern]

  /** The profile of a text in which nothing is recognised. */
  const DefaultProfile: Profile :=
    Profile(25, 1.7, 70.0, Derived(70.0 / (1.7 * 1.7)), Male, Beginner, WeightLoss)

  /** A text in which no pattern occurs gets every default, and its BMI is
      derived from the default weight and height. */
  lemma DefaultsWhenNothingMatches(t: string)
    requires forall p :: p in Patterns ==> !Occurs(p, t)
    ensures ParseParagraph(t) == Ok(DefaultProfile)
    ensures ParseParagraph(t).profile.sex.Name() == "male"
    ensures ParseParagraph(t).profile.level.Name() == "beginner"
    ensures ParseParagraph(t).profile.goal.Name() == "weight_loss"
  {
    AgeDefault(t);
    HeightDefault(t);
    WeightDefault(t);
    DerivedBmiWhenNotStated(t);
    SexPriority(t);
    LevelPriority(t);
    GoalPriority(t);
  }
}

