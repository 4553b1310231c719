/** The icon lookup of the request handler: for a result label, the file
    names of every table entry whose key occurs in the lowered label, in the
    table's own order and without removing duplicates. */
module Images {
  import opened Text

  /** An ordered key -> file name table, iterated in insertion order. */
  type Table = seq<(string, string)>

  /** A Python dict literal has distinct keys. */
  predicate DistinctKeys(table: Table) {
    forall m, n :: 0 <= m < n < |table| ==> table[m].0 != table[n].0
  }

  const ExerciseImages: Table := [
    ("squats", "squats.jpeg"),
    ("deadlifts", "deadlifts.jpeg"),
    ("bench presses", "bench_press.jpeg"),
    ("overhead presses", "overhead_press.jpeg"),
    ("yoga", "yoga.jpeg"),
    ("walking", "walking.jpeg"),
    ("brisk walking", "brisk_walking.jpg"),
    ("cycling", "cycling.jpeg"),
    ("swimming", "swimming.jpeg"),
    ("dancing", "dancing.jpeg")
  ]

  const EquipmentImages: Table := [
    ("dumbbells", "dumbbells.jpeg"),
    ("barbells", "barbells.jpeg"),
    ("resistance bands", "resisitance_bands.jpeg"),
    ("light athletic shoes", "shoes.jpeg"),
    ("ellipticals", "elliptical.jpeg"),
    ("indoor rowers", "rower.jpeg"),
    ("treadmills", "treadmill.jpeg"),
    ("rowing machine", "rower.jpeg")
  ]

  /** The file names of the entries whose key occurs in `text`, in table order. */
  function Matching(table: Table, text: string): (r: seq<string>)
    ensures |r| <= |table|
  {
    if table == [] then []
    else
      var last := table[|table| - 1];
      Matching(table[..|table| - 1], text) + (if Contains(text, last.0) then [last.1] else [])
  }

  /** The positions, in increasing order, of the entries whose key occurs in `text`. */
  function MatchedPositions(table: Table, text: string): (ps: seq<nat>)
    ensures forall m :: 0 <= m < |ps| ==> ps[m] < |table| && Contains(text, table[ps[m]].0)
    ensures forall m, n :: 0 <= m < n < |ps| ==> ps[m] < ps[n]
    ensures forall k :: 0 <= k < |table| && Contains(text, table[k].0) ==> k in ps
  {
    if table == [] then []
    else
      var n := |table| - 1;
      MatchedPositions(table[..n], text) + (if Contains(text, table[n].0) then [n] else [])
  }

  /** The matched file names are the values at the matched positions: an
      order-preserving selection from the table. */
  lemma {:induction false} MatchingIsSelection(table: Table, text: string)
    ensures |Matching(table, text)| == |MatchedPositions(table, text)|
    ensures forall m :: 0 <= m < |Matching(table, text)| ==>
      Matching(table, text)[m] == table[MatchedPositions(table, text)[m]].1
  {
    if table != [] {
      var n := |table| - 1;
      MatchingIsSelection(table[..n], text);
    }
  }

  /** A file name is listed exactly when some entry with that file name has a
      key that occurs in `text`. */
  lemma {:induction false} MatchingMembers(table: Table, text: string, img: string)
    ensures img in Matching(table, text) <==>
      exists k :: 0 <= k < |table| && table[k].1 == img && Contains(text, table[k].0)
  {
    if table != [] {
      var n := |table| - 1;
      MatchingMembers(table[..n], text, img);
      if img in Matching(table[..n], text) {
        var k :| 0 <= k < n && table[..n][k].1 == img && Contains(text, table[..n][k].0);
        assert table[k] == table[..n][k];
      }
      if exists k :: 0 <= k < |table| && table[k].1 == img && Contains(text, table[k].0) {
        var k :| 0 <= k < |table| && table[k].1 == img && Contains(text, table[k].0);
        if k < n {
          assert table[..n][k] == table[k];
        }
      }
    }
  }

  /** The list is empty exactly when no key occurs in `text`. */
  lemma {:induction false} MatchingEmpty(table: Table, text: string)
    ensures Matching(table, text) == [] <==>
      forall k :: 0 <= k < |table| ==> !Contains(text, table[k].0)
  {
    if table != [] {
      var n := |table| - 1;
      MatchingEmpty(table[..n], text);
      assert forall k :: 0 <= k < n ==> table[..n][k] == table[k];
    }
  }

  /** Extending the table by one entry extends the list by that entry's file
      name exactly when its key occurs. */
  lemma MatchingStep(table: Table, text: string, n: nat)
    requires 0 < n <= |table|
    ensures Matching(table[..n], text) ==
      Matching(table[..n - 1], text) + (if Contains(text, table[n - 1].0) then [table[n - 1].1] else [])
  {
    assert table[..n][..n - 1] == table[..n - 1];
  }

  /** Each table is a dictionary literal: its keys are distinct. */
  lemma TablesHaveDistinctKeys()
    ensures DistinctKeys(ExerciseImages) && DistinctKeys(EquipmentImages)
  {
  }

  /** `walking` lies inside `brisk walking`: a text holding the longer key
      lists the walking icon and, after it, the brisk walking icon. */
  lemma {:induction false} BriskWalkingListsBoth(text: string)
    requires Contains(text, "brisk walking")
    ensures exists m, n :: (0 <= m < n < |Matching(ExerciseImages, text)|
      && Matching(ExerciseImages, text)[m] == "walking.jpeg"
      && Matching(ExerciseImages, text)[n] == "brisk_walking.jpg")
  {
    ContainsIff(text, "brisk walking");
    var i: nat :| OccursAt(text, "brisk walking", i);
    assert text[i + 6..i + 13] == text[i..i + 13][6..];
    OccursContains(text, "walking", i + 6);
    TwoListed(ExerciseImages, text, 5, 6);
  }

  /** Two keys share the rower icon: a text holding both lists it twice. */
  lemma {:induction false} RowerListedTwice(text: string)
    requires Contains(text, "indoor rowers") && Contains(text, "rowing machine")
    ensures exists m, n :: (0 <= m < n < |Matching(EquipmentImages, text)|
      && Matching(EquipmentImages, text)[m] == "rower.jpeg"
      && Matching(EquipmentImages, text)[n] == "rower.jpeg")
  {
    TwoListed(EquipmentImages, text, 5, 7);
  }

  /** Two matched entries appear in the list in table order. */
  lemma TwoListed(table: Table, text: string, a: nat, b: nat)
    requires a < b < |table| && Contains(text, table[a].0) && Contains(text, table[b].0)
    ensures exists m, n :: (0 <= m < n < |Matching(table, text)|
      && Matching(table, text)[m] == table[a].1 && Matching(table, text)[n] == table[b].1)
  {
    MatchingIsSelection(table, text);
    var ps := MatchedPositions(table, text);
    var m :| 0 <= m < |ps| && ps[m] == a;
    var n :| 0 <= n < |ps| && ps[n] == b;
  }

  /** The loop of the request handler: lower the label, then walk the table
      in order and append the file name of every entry whose key occurs. */
  method MatchImages(table: Table, resultText: string) returns (images: seq<string>)
    ensures images == Matching(table, LowerStr(resultText))
  {
    var text := LowerStr(resultText);
    images := [];
    for n := 0 to |table|
      invariant images == Matching(table[..n], text)
    {
      var (key, img) := table[n];
      assert table[..n + 1][..n] == table[..n];
      if Contains(text, key) {
        images := images + [img];
      }
    }
    assert table[..|table|] == table;
  }

  /** The two lists the handler renders: exercise icons for the exercise
      label and equipment icons for the equipment label. */
  method IconsFor(exercises: string, equipment: string) returns (exImages: seq<string>, eqImages: seq<string>)
    ensures exImages == Matching(ExerciseImages, LowerStr(exercises))
    ensures eqImages == Matching(EquipmentImages, LowerStr(equipment))
  {
    exImages := MatchImages(ExerciseImages, exercises);
    eqImages := MatchImages(EquipmentImages, equipment);
  }
}
