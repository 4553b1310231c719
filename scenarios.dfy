/** Worked inputs: what the model gives for particular labels and paragraphs. */
module Scenarios {
  import opened Text
  import opened Images

  /** The exercise list of a label in which, of all keys, exactly `squats`
      and `yoga` occur. */
  lemma SquatsYogaSelection(text: string)
    requires Contains(text, "squats") && !Contains(text, "deadlifts")
    requires !Contains(text, "bench presses") && !Contains(text, "overhead presses")
    requires Contains(text, "yoga") && !Contains(text, "walking")
    requires !Contains(text, "brisk walking") && !Contains(text, "cycling")
    requires !Contains(text, "swimming") && !Contains(text, "dancing")
    ensures Matching(ExerciseImages, text) == ["squats.jpeg", "yoga.jpeg"]
  {
    SquatsYogaFirstHalf(text);
    var t := ExerciseImages;
    MatchingStep(t, text, 6);
    MatchingStep(t, text, 7);
    MatchingStep(t, text, 8);
    MatchingStep(t, text, 9);
    MatchingStep(t, text, 10);
    assert t[..10] == t;
  }

  lemma SquatsYogaFirstHalf(text: string)
    requires Contains(text, "squats") && !Contains(text, "deadlifts")
    requires !Contains(text, "bench presses") && !Contains(text, "overhead presses")
    requires Contains(text, "yoga")
    ensures Matching(ExerciseImages[..5], text) == ["squats.jpeg", "yoga.jpeg"]
  {
    var t := ExerciseImages;
    MatchingStep(t, text, 1);
    MatchingStep(t, text, 2);
    MatchingStep(t, text, 3);
    MatchingStep(t, text, 4);
    MatchingStep(t, text, 5);
  }

  /** `Exercises: Squats, Yoga` lowers to `exercises: squats, yoga`. */
  lemma LowerSquatsYoga(shown: string)
    requires shown == "Exercises: Squats, Yoga"
    ensures LowerStr(shown) == "exercises: squats, yoga"
  {
    LowerSquatsYogaFrom(shown, 0, 8);
    LowerSquatsYogaFrom(shown, 8, 16);
    LowerSquatsYogaFrom(shown, 16, 23);
    LowerPiece(shown, "exercises: squats, yoga");
  }

  /** Positions `lo` to `hi` of the label lower to those of the text. */
  lemma LowerSquatsYogaFrom(shown: string, lo: nat, hi: nat)
    requires shown == "Exercises: Squats, Yoga" && lo <= hi <= 23 && hi - lo <= 8
    ensures forall k :: lo <= k < hi ==> Lower(shown[k]) == "exercises: squats, yoga"[k]
  {
  }

  lemma LowerPiece(s: string, l: string)
    requires |s| == |l| && forall k :: 0 <= k < |s| ==> Lower(s[k]) == l[k]
    ensures LowerStr(s) == l
  {
  }

  lemma SquatsYogaKeys(text: string)
    requires text == "exercises: squats, yoga"
    ensures Contains(text, "squats") && Contains(text, "yoga")
  {
    OccursContains(text, "squats", 11);
    OccursContains(text, "yoga", 19);
  }

  lemma SquatsYogaLacksDeadlifts(text: string)
    requires text == "exercises: squats, yoga"
    ensures !Contains(text, "deadlifts")
  {
    AbsentCharacter(text, "deadlifts", 0);
  }

  lemma SquatsYogaLacksBenchPresses(text: string)
    requires text == "exercises: squats, yoga"
    ensures !Contains(text, "bench presses")
  {
    AbsentCharacter(text, "bench presses", 0);
  }

  lemma SquatsYogaLacksOverheadPresses(text: string)
    requires text == "exercises: squats, yoga"
    ensures !Contains(text, "overhead presses")
  {
    AbsentCharacter(text, "overhead presses", 1);
  }

  lemma SquatsYogaLacksWalking(text: string)
    requires text == "exercises: squats, yoga"
    ensures !Contains(text, "walking")
  {
    AbsentCharacter(text, "walking", 5);
  }

  lemma SquatsYogaLacksBriskWalking(text: string)
    requires text == "exercises: squats, yoga"
    ensures !Contains(text, "brisk walking")
  {
    AbsentCharacter(text, "brisk walking", 11);
  }

  lemma SquatsYogaLacksCycling(text: string)
    requires text == "exercises: squats, yoga"
    ensures !Contains(text, "cycling")
  {
    AbsentCharacter(text, "cycling", 5);
  }

  lemma SquatsYogaLacksSwimming(text: string)
    requires text == "exercises: squats, yoga"
    ensures !Contains(text, "swimming")
  {
    AbsentCharacter(text, "swimming", 6);
  }

  lemma SquatsYogaLacksDancing(text: string)
    requires text == "exercises: squats, yoga"
    ensures !Contains(text, "dancing")
  {
    AbsentCharacter(text, "dancing", 2);
  }

  /** The worked label of the icon matcher: `Exercises: Squats, Yoga` shows
      the squats icon and then the yoga icon. */
  lemma SquatsAndYoga(shown: string)
    requires shown == "Exercises: Squats, Yoga"
    ensures Matching(ExerciseImages, LowerStr(shown)) == ["squats.jpeg", "yoga.jpeg"]
  {
    LowerSquatsYoga(shown);
    var text := LowerStr(shown);
    SquatsYogaKeys(text);
    SquatsYogaLacksDeadlifts(text);
    SquatsYogaLacksBenchPresses(text);
    SquatsYogaLacksOverheadPresses(text);
    SquatsYogaLacksWalking(text);
    SquatsYogaLacksBriskWalking(text);
    SquatsYogaLacksCycling(text);
    SquatsYogaLacksSwimming(text);
    SquatsYogaLacksDancing(text);
    SquatsYogaSelection(text);
  }
}
