/** Positions into the entry vector of a page, whose position 0 is not used, and the
    halves of a sorted list of them. */
module Entries {

  ghost predicate InRange<T>(positions: seq<nat>, entries: seq<T>) {
    forall i | 0 <= i < |positions| :: positions[i] < |entries|
  }

  /** The entries at the given positions. */
  function At<T>(entries: seq<T>, positions: seq<nat>): (at: seq<T>)
    requires InRange(positions, entries)
    ensures |at| == |positions| && forall i | 0 <= i < |at| :: at[i] == entries[positions[i]]
  {
    seq(|positions|, i requires 0 <= i < |positions| => entries[positions[i]])
  }

  lemma AtNext<T>(entries: seq<T>, positions: seq<nat>, p: nat)
    requires InRange(positions, entries) && p < |entries|
    ensures InRange(positions + [p], entries)
    ensures At(entries, positions + [p]) == At(entries, positions) + [entries[p]]
  {
  }

  /** What the library sort may leave behind: each position once, in order. */
  ghost predicate Sorted<T>(entries: seq<T>, before: (T, T) -> bool, order: seq<nat>) {
    && |order| == |entries| - 1
    && (forall i | 0 <= i < |order| :: 1 <= order[i] < |entries|)
    && (forall i, j | 0 <= i < j < |order| :: order[i] != order[j])
    && AllInOrder(At(entries, order), before)
  }

  ghost predicate AllInOrder<T>(xs: seq<T>, before: (T, T) -> bool) {
    forall i, j | 0 <= i < j < |xs| :: before(xs[i], xs[j])
  }

  /** Every entry of the left side sorts before every entry of the right one. */
  ghost predicate Separated<T>(left: seq<T>, right: seq<T>, before: (T, T) -> bool) {
    forall i, j | 0 <= i < |left| && 0 <= j < |right| :: before(left[i], right[j])
  }

  lemma SidesInOrder<T>(entries: seq<T>, before: (T, T) -> bool, order: seq<nat>, left: seq<nat>, right: seq<nat>)
    requires Sorted(entries, before, order) && left + right == order
    ensures InRange(left, entries) && InRange(right, entries)
    ensures Separated(At(entries, left), At(entries, right), before)
  {
    var all := At(entries, order);
    assert forall i | 0 <= i < |left| :: left[i] == order[i];
    assert forall j | 0 <= j < |right| :: right[j] == order[|left| + j];
    forall i, j | 0 <= i < |left| && 0 <= j < |right|
      ensures before(At(entries, left)[i], At(entries, right)[j])
    {
      assert before(all[i], all[|left| + j]);
    }
  }
}
