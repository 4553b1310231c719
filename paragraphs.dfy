/** Worked paragraphs: what the extractor gives for particular texts. */
module Paragraphs {
  import opened Text
  import opened Scan
  import opened Extractor

  /** When `p` matches at `i` and nowhere before, the search reports `i`. */
  lemma SearchAt(p: Pattern, t: string, i: nat)
    requires i <= |t| && MatchAt(p, t, i)
    requires forall k: nat :: k < i ==> !MatchAt(p, t, k)
    ensures Search(p, t, 0) == Some(i)
  {
  }

  /** In `28 male` the height pattern matches `28 m`: the `m` of `male` is
      read as metres, and with no `cm` anywhere the height is 28. */
  lemma MaleReadAsMetres(t: string)
    requires t == "28 male"
    ensures ExtractHeight(t) == 28.0
  {
    assert DigitsEnd(t, 2) == 2;
    assert DigitsEnd(t, 1) == 2;
    assert DigitsEnd(t, 0) == 2;
    assert NumberEnd(t, 0) == 2;
    assert SkipSpaces(t, 3) == 3;
    assert SkipSpaces(t, 2) == 3;
    assert LitAt(t, 3, "m");
    assert Search(HeightPattern, t, 0) == Some(0);
    assert MeasureNumber(t, 0, ["cm", "m"]) == "28";
    DecimalValueOfInteger("28");
    assert IntValue("28") == 28 by {
      assert "28"[..1] == "2";
    }
    NoCentimetres(t);
  }

  lemma NoCentimetres(t: string)
    requires t == "28 male"
    ensures !Contains(LowerStr(t), "cm")
  {
    AbsentCharacter(LowerStr(t), "cm", 0);
  }

  /** `male` in `28 male` is a standalone word, so the sex is male. */
  lemma StandaloneMale(t: string)
    requires t == "28 male"
    ensures ExtractSex(t) == Male
  {
    assert LitAt(t, 3, "male");
    assert Lower(t[0 + 0]) != "male"[0] && Lower(t[1 + 0]) != "male"[0] && Lower(t[2 + 0]) != "male"[0];
    SearchAt(MalePattern, t, 3);
  }
}
