/** The selection logic of `RatingsFilter` (components/gallery/ratings-filter.tsx):
    each button toggles one star rating in or out of the selected list; two more
    buttons clear the list or select every rating. */
module RatingsFilter {

  /** The ratings offered, in the order the buttons show them. */
  const AllRatings: seq<int> := [5, 4, 3, 2, 1]

  /** `selected.filter(r => r !== rating)`. */
  function Without(selected: seq<int>, rating: int): (rest: seq<int>)
    ensures |rest| <= |selected|
    ensures forall v :: v in rest <==> v != rating && v in selected
  {
    if selected == [] then []
    else
      assert selected == [selected[0]] + selected[1..];
      (if selected[0] == rating then [] else [selected[0]]) + Without(selected[1..], rating)
  }

  /** `toggleRating`: the new selection after the button for `rating` is pressed. */
  function ToggleRating(selected: seq<int>, rating: int): (next: seq<int>)
    ensures rating in next <==> rating !in selected
    ensures forall v :: v != rating ==> (v in next <==> v in selected)
  {
    if rating in selected then Without(selected, rating) else selected + [rating]
  }

  /** `clearAll`: the new selection, whatever the current one. */
  function ClearAll(selected: seq<int>): (next: seq<int>)
    ensures forall v :: v !in next
  {
    []
  }

  /** `selectAll`: the new selection, whatever the current one. */
  function SelectAll(selected: seq<int>): (next: seq<int>)
    ensures forall v :: v in next <==> 1 <= v <= 5
    ensures forall i, j :: 0 <= i < j < |next| ==> next[i] > next[j]
  {
    AllRatings
  }

  // ---------------------------------------------------------------------------

  /** Removing a rating keeps every other rating as often as before, in the same
      order: removing it from two lists one after the other is removing it from both. */
  lemma {:induction false} WithoutAppend(a: seq<int>, b: seq<int>, rating: int)
    ensures Without(a + b, rating) == Without(a, rating) + Without(b, rating)
  {
    if a == [] {
      assert a + b == b;
    } else {
      assert (a + b)[0] == a[0] && (a + b)[1..] == a[1..] + b;
      WithoutAppend(a[1..], b, rating);
    }
  }

  /** Removing a rating that is absent changes nothing. */
  lemma {:induction false} WithoutAbsent(selected: seq<int>, rating: int)
    requires rating !in selected
    ensures Without(selected, rating) == selected
  {
    if selected != [] {
      WithoutAbsent(selected[1..], rating);
      assert [selected[0]] + selected[1..] == selected;
    }
  }

  /** Every occurrence of the rating goes, and every other value keeps its count. */
  lemma {:induction false} WithoutCounts(selected: seq<int>, rating: int)
    ensures multiset(Without(selected, rating))[rating] == 0
    ensures forall v :: v != rating ==> multiset(Without(selected, rating))[v] == multiset(selected)[v]
  {
    if selected != [] {
      WithoutCounts(selected[1..], rating);
      var x := selected[0];
      var head := if x == rating then [] else [x];
      assert Without(selected, rating) == head + Without(selected[1..], rating);
      assert selected == [x] + selected[1..];
      assert multiset(selected) == multiset([x]) + multiset(selected[1..]);
    }
  }

  lemma {:induction false} WithoutShorter(selected: seq<int>, rating: int)
    requires rating in selected
    ensures |Without(selected, rating)| < |selected|
  {
    if selected[0] != rating {
      WithoutShorter(selected[1..], rating);
    }
  }

  /** Selecting a rating appends it at the end, the earlier ones kept in order. */
  lemma ToggleAppends(selected: seq<int>, rating: int)
    requires rating !in selected
    ensures var next := ToggleRating(selected, rating);
            |next| == |selected| + 1 && next[..|selected|] == selected && next[|selected|] == rating
  {
  }

  /** Deselecting a rating removes all its occurrences and keeps the others, with
      their counts and in their order. */
  lemma ToggleRemoves(selected: seq<int>, rating: int)
    requires rating in selected
    ensures var next := ToggleRating(selected, rating);
            rating !in next && |next| < |selected| &&
            forall v :: v != rating ==> multiset(next)[v] == multiset(selected)[v]
  {
    WithoutCounts(selected, rating);
    WithoutShorter(selected, rating);
  }

  /** Pressing the button of an unselected rating twice gives back the selection. */
  lemma ToggleTwice(selected: seq<int>, rating: int)
    requires rating !in selected
    ensures ToggleRating(ToggleRating(selected, rating), rating) == selected
  {
    WithoutAppend(selected, [rating], rating);
    WithoutAbsent(selected, rating);
    assert Without([rating], rating) == [];
  }

}
