/** Trees of cube index keys: stored boxes, unions and sides of splits, as
    contrib/cube/cube.cpp forms them. */
module CubeTree {
  import opened Cube
  import opened CubeIndex
  import opened CubeSplit
  import opened Entries

  /** How a key came about. A page splits by position, and its position 0 is not
      used. */
  datatype History =
    | Leaf(box: Box)
    | UnionOf(parts: seq<History>, key: Box)
    | SplitSide(page: seq<History>, side: seq<nat>, key: Box)

  function Key(h: History): Box {
    if h.Leaf? then h.box else h.key
  }

  function Keys(hs: seq<History>): (ks: seq<Box>)
    ensures |ks| == |hs|
  {
    seq(|hs|, i requires 0 <= i < |hs| => Key(hs[i]))
  }

  /** Each key is the smallest box around the keys it was formed from. */
  ghost predicate Built(h: History) {
    Valid(Key(h)) &&
    match h
    case Leaf(_) => true
    case UnionOf(parts, key) =>
      && AllValid(Keys(parts)) && IsHull(key, Keys(parts))
      && forall k | 0 <= k < |parts| :: Built(parts[k])
    case SplitSide(page, side, key) =>
      && AllValid(Keys(page)) && HullOfSide(key, Keys(page), side)
      && forall k | 0 <= k < |side| :: side[k] < |page| && Built(page[side[k]])
  }

  ghost predicate Below(b: Box, h: History) {
    match h
    case Leaf(box) => box == b
    case UnionOf(parts, _) => exists k :: 0 <= k < |parts| && Below(b, parts[k])
    case SplitSide(page, side, _) =>
      exists k :: 0 <= k < |side| && side[k] < |page| && Below(b, page[side[k]])
  }

  // ---- The code builds such trees ----

  /** Union of the keys of a page of at least two entries. */
  method StoreUnion(parts: seq<History>) returns (h: History)
    requires |parts| >= 2 && forall k | 0 <= k < |parts| :: Built(parts[k])
    ensures Built(h) && h.UnionOf? && h.parts == parts
  {
    hide IsHull, Valid;
    var out := UnionEntries(Keys(parts));
    h := UnionOf(parts, out.value);
  }

  /** Split of a page; position 0 holds any valid box. */
  method StoreSplit(page: seq<History>) returns (l: History, r: History)
    requires |page| >= 3 && Valid(Key(page[0])) && forall k | 1 <= k < |page| :: Built(page[k])
    ensures l.SplitSide? && r.SplitSide? && l.page == page == r.page
    ensures Built(l) && Built(r)
    ensures Partitions(l.side, r.side, |page| - 1)
  {
    hide IsHull, Valid, AreSeeds, CubeSplit.IsRun;
    var left, right, ldatum, rdatum, s1, s2, states := PickSplit(Keys(page));
    assert forall k | 0 <= k < |left| :: left[k] in left;
    assert forall k | 0 <= k < |right| :: right[k] in right;
    l, r := SplitSide(page, left, ldatum), SplitSide(page, right, rdatum);
  }

  // ---- No row lost ----

  /** Every key encloses every box below it. */
  lemma {:induction false} KeyEnclosesLeaf(h: History, b: Box)
    requires Built(h) && Below(b, h)
    ensures Valid(b) && Valid(Key(h)) && Encloses(Key(h), b)
  {
    hide Encloses;
    match h
    case Leaf(_) => EnclosesItself(b);
    case UnionOf(parts, key) =>
      var k :| 0 <= k < |parts| && Below(b, parts[k]);
      KeyEnclosesLeaf(parts[k], b);
      assert Encloses(key, Keys(parts)[k]);
      EnclosesTransitive(key, Key(parts[k]), b);
    case SplitSide(page, side, key) =>
      var k :| 0 <= k < |side| && side[k] < |page| && Below(b, page[side[k]]);
      KeyEnclosesLeaf(page[side[k]], b);
      assert Encloses(key, At(Keys(page), side)[k]);
      EnclosesTransitive(key, Key(page[side[k]]), b);
  }

  /** Whatever a stored box satisfies, every key above it accepts; for the
      contained-by operator, when the query reaches zero in the dimensions the box
      lacks, as it does when there are none. */
  lemma {:induction false} NoRowLost(h: History, b: Box, q: Box, strategy: Strategy)
    requires Built(h) && Below(b, h) && Valid(b) && Valid(q)
    requires Satisfies(b, q, strategy)
    requires strategy == ContainedBy ==> ReachesZero(q, b.dim)
    ensures InternalAccepts(Key(h), q, strategy)
  {
    hide Encloses, Satisfies;
    LeafTestIsExact(b, q, strategy);
    KeyEnclosesLeaf(h, b);
    match strategy
    case Overlaps =>
      OverlapEverywhere(b, q);
      OverlapGrows(Key(h), b, q);
    case Same =>
      SameIsContained(b, q);
      ContainsGrows(Key(h), b, q);
    case ContainsQuery => ContainsGrows(Key(h), b, q);
    case ContainedBy => ContainedByFoundIff(b, q);
  }

  /** For contained-by the condition is exact: every key above a box the operator finds
      is descended into, in whatever tree, exactly when the query reaches zero in the
      dimensions the box lacks. */
  lemma {:induction false} ContainedByLosesNothingIff(b: Box, q: Box)
    requires Valid(b) && Valid(q) && Satisfies(b, q, ContainedBy)
    ensures (forall h | Built(h) && Below(b, h) :: InternalAccepts(Key(h), q, ContainedBy)) <==> ReachesZero(q, b.dim)
  {
    hide Encloses, IsHull, Overlap, Contains, ReachesZero;
    if ReachesZero(q, b.dim) {
      forall h | Built(h) && Below(b, h) ensures InternalAccepts(Key(h), q, ContainedBy) {
        NoRowLost(h, b, q, ContainedBy);
      }
    } else {
      var h := PairOf(b);
      OwnKeyMisses(b, q);
    }
  }

  /** A page holding one box twice. */
  lemma {:induction false} PairOf(b: Box) returns (h: History)
    requires Valid(b)
    ensures h == UnionOf([Leaf(b), Leaf(b)], b) && Built(h) && Below(b, h)
  {
    hide IsHull;
    var parts := [Leaf(b), Leaf(b)];
    h := UnionOf(parts, b);
    HullOfOne(b);
    HullOfSame(b, [b], [b, b]);
    assert Keys(parts) == [b, b];
    assert Below(b, parts[0]);
  }

  lemma OwnKeyMisses(b: Box, q: Box)
    requires Valid(b) && Valid(q) && !ReachesZero(q, b.dim)
    ensures !InternalAccepts(b, q, ContainedBy)
  {
    var i: nat :| b.dim <= i < q.dim && !(Lo(q, i) <= 0.0 <= Hi(q, i));
    assert !Meet(b, q, i);
  }

  /** Such a row is lost: the box [1, 1] lies in [0, 2] x [5, 6] for the operator,
      but the key [1, 1] above it is not descended into. */
  lemma ContainedByLosesRow() returns (h: History)
    ensures var b, q := Box(1, [1.0, 1.0]), Box(2, [0.0, 5.0, 2.0, 6.0]);
            && h == UnionOf([Leaf(b), Leaf(b)], b) && Built(h) && Below(b, h)
            && Satisfies(b, q, ContainedBy) && !InternalAccepts(Key(h), q, ContainedBy)
  {
    var b, q := Box(1, [1.0, 1.0]), Box(2, [0.0, 5.0, 2.0, 6.0]);
    h := PairOf(b);
    hide Built, Below;
    assert !(Lo(q, 1) <= 0.0);
    OwnKeyMisses(b, q);
    assert LeafAccepts(b, q, ContainedBy);
    LeafTestIsExact(b, q, ContainedBy);
  }
}
