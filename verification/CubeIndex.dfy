/** Search through keys built by g_cube_union (contrib/cube/cube.cpp). */
module CubeIndex {
  import opened Cube
  import opened CubeCompare
  import opened Options

  datatype Strategy = Overlaps | Same | ContainsQuery | ContainedBy

  /** g_cube_leaf_consistent. */
  ghost predicate LeafAccepts(key: Box, q: Box, strategy: Strategy)
    requires Valid(key) && Valid(q)
  {
    match strategy
    case Overlaps => Overlap(key, q)
    case Same => Compare(key, q) == 0
    case ContainsQuery => Contains(key, q)
    case ContainedBy => Contains(q, key)
  }

  /** g_cube_internal_consistent. */
  ghost predicate InternalAccepts(key: Box, q: Box, strategy: Strategy)
    requires Valid(key) && Valid(q)
  {
    match strategy
    case Overlaps => Overlap(key, q)
    case Same | ContainsQuery => Contains(key, q)
    case ContainedBy => Overlap(key, q)
  }

  // ---- What the operators mean on points ----

  ghost predicate ShareAPoint(a: Box, b: Box)
    requires Valid(a) && Valid(b)
  {
    exists p: seq<real> :: |p| == MaxDim(a, b) && Inside(p, a) && Inside(p, b)
  }

  ghost predicate HoldsPointsOf(a: Box, b: Box)
    requires Valid(a) && Valid(b)
  {
    forall p: seq<real> | |p| == b.dim && Inside(p, b) :: Inside(p, a)
  }

  ghost predicate SamePoints(a: Box, b: Box)
    requires Valid(a) && Valid(b)
  {
    a.dim == b.dim && forall p: seq<real> | |p| == a.dim :: Inside(p, a) <==> Inside(p, b)
  }

  /** Row semantics: in the dimensions of the box that is to lie in the other. */
  ghost predicate Satisfies(b: Box, q: Box, strategy: Strategy)
    requires Valid(b) && Valid(q)
  {
    match strategy
    case Overlaps => ShareAPoint(b, q)
    case Same => SamePoints(b, q)
    case ContainsQuery => HoldsPointsOf(b, q)
    case ContainedBy => HoldsPointsOf(q, b)
  }

  lemma SameMeansPoints(a: Box, b: Box)
    requires Valid(a) && Valid(b)
    ensures Compare(a, b) == 0 <==> SamePoints(a, b)
  {
    hide Lo, Hi, Compare;
    ZeroIffSame(a, b);
    if SamePoints(a, b) {
      ContainsMeansPoints(a, b);
      ContainsMeansPoints(b, a);
    }
  }

  /** At the leaves the test is the operator. */
  lemma LeafTestIsExact(b: Box, q: Box, strategy: Strategy)
    requires Valid(b) && Valid(q)
    ensures LeafAccepts(b, q, strategy) <==> Satisfies(b, q, strategy)
  {
    hide Lo, Hi, Compare, Contains, Overlap, Inside, SamePoints;
    OverlapMeansCommonPoint(b, q);
    SameMeansPoints(b, q);
    ContainsMeansPoints(b, q);
    ContainsMeansPoints(q, b);
  }

  /** An inner key is descended into exactly when it shares a point with the query, or
      for contains and same when it holds every point of it. */
  lemma InnerTestMeans(key: Box, q: Box, strategy: Strategy)
    requires Valid(key) && Valid(q)
    ensures InternalAccepts(key, q, strategy) <==>
            if strategy == Overlaps || strategy == ContainedBy then ShareAPoint(key, q) else HoldsPointsOf(key, q)
  {
    hide Lo, Hi, Contains, Overlap, Inside;
    OverlapMeansCommonPoint(key, q);
    ContainsMeansPoints(key, q);
  }

  method Consistent(key: Box, q: Box, strategy: Strategy, isLeaf: bool) returns (r: bool)
    requires Valid(key) && Valid(q)
    ensures r <==> if isLeaf then LeafAccepts(key, q, strategy) else InternalAccepts(key, q, strategy)
  {
    match strategy {
      case Overlaps => r := CubeOverlap(key, q);
      case Same =>
        if isLeaf {
          var c := CubeCmp(key, q);
          r := c == 0;
        } else {
          r := CubeContains(key, q);
        }
      case ContainsQuery => r := CubeContains(key, q);
      case ContainedBy => if isLeaf { r := CubeContains(q, key); } else { r := CubeOverlap(key, q); }
    }
  }

  // ---- Keys above keys ----

  /** In every dimension, also beyond those stored. */
  ghost predicate Encloses(outer: Box, inner: Box)
    requires Valid(outer) && Valid(inner)
  {
    outer.dim >= inner.dim && forall i: nat :: Lo(outer, i) <= Lo(inner, i) && Hi(inner, i) <= Hi(outer, i)
  }

  ghost predicate AllValid(boxes: seq<Box>) {
    forall i | 0 <= i < |boxes| :: Valid(boxes[i])
  }

  ghost predicate EnclosesAll(outer: Box, boxes: seq<Box>)
    requires Valid(outer) && AllValid(boxes)
  {
    forall i | 0 <= i < |boxes| :: Encloses(outer, boxes[i])
  }

  lemma UnionEncloses(r: Box, a: Box, b: Box)
    requires Valid(r) && Valid(a) && Valid(b) && IsUnion(r, a, b)
    ensures Encloses(r, a) && Encloses(r, b)
  {
    hide Lo, Hi;
    assert forall i: nat :: Lo(r, i) == Min(Lo(a, i), Lo(b, i));
  }

  lemma EnclosesTransitive(a: Box, b: Box, c: Box)
    requires Valid(a) && Valid(b) && Valid(c) && Encloses(a, b) && Encloses(b, c)
    ensures Encloses(a, c)
  {
    hide Lo, Hi;
    forall i: nat ensures Lo(a, i) <= Lo(c, i) && Hi(c, i) <= Hi(a, i) {
      assert Lo(a, i) <= Lo(b, i) && Lo(b, i) <= Lo(c, i);
    }
  }

  lemma UnionIsLeast(r: Box, a: Box, b: Box, w: Box)
    requires Valid(r) && Valid(a) && Valid(b) && Valid(w) && IsUnion(r, a, b)
    requires Encloses(w, a) && Encloses(w, b)
    ensures Encloses(w, r)
  {
    hide Lo, Hi;
    forall i: nat ensures Lo(w, i) <= Lo(r, i) && Hi(r, i) <= Hi(w, i) {
      assert Lo(r, i) == Min(Lo(a, i), Lo(b, i)) && Hi(r, i) == Max(Hi(a, i), Hi(b, i));
      assert Lo(w, i) <= Lo(a, i) && Lo(w, i) <= Lo(b, i);
    }
  }

  /** out encloses all boxes, and every box that does encloses out. */
  ghost predicate IsHull(out: Box, boxes: seq<Box>)
    requires Valid(out) && AllValid(boxes)
  {
    && EnclosesAll(out, boxes)
    && forall w: Box | Valid(w) && EnclosesAll(w, boxes) :: Encloses(w, out)
  }

  lemma HullGrows(boxes: seq<Box>, was: Box, e: Box, now: Box)
    requires AllValid(boxes) && Valid(was) && Valid(e) && Valid(now)
    requires IsHull(was, boxes) && IsUnion(now, was, e)
    ensures AllValid(boxes + [e]) && IsHull(now, boxes + [e])
  {
    hide Encloses, IsUnion;
    var more := boxes + [e];
    UnionEncloses(now, was, e);
    forall k | 0 <= k < |more| ensures Encloses(now, more[k]) {
      if k < |boxes| {
        assert more[k] == boxes[k];
        EnclosesTransitive(now, was, boxes[k]);
      }
    }
    forall w: Box | Valid(w) && EnclosesAll(w, more) ensures Encloses(w, now) {
      assert forall k | 0 <= k < |boxes| :: more[k] == boxes[k];
      assert EnclosesAll(w, boxes);
      assert Encloses(w, more[|boxes|]);
      UnionIsLeast(now, was, e, w);
    }
  }

  lemma HullOfOne(b: Box)
    requires Valid(b)
    ensures AllValid([b]) && IsHull(b, [b])
  {
    hide Encloses;
    EnclosesItself(b);
    forall w: Box | Valid(w) && EnclosesAll(w, [b]) ensures Encloses(w, b) {
      assert Encloses(w, [b][0]);
    }
  }

  /** The hull depends only on which boxes there are. */
  lemma HullOfSame(out: Box, a: seq<Box>, b: seq<Box>)
    requires Valid(out) && AllValid(a) && AllValid(b) && IsHull(out, a) && forall x :: x in a <==> x in b
    ensures IsHull(out, b)
  {
    hide Encloses;
    EnclosesSame(out, a, b);
    forall w: Box | Valid(w) && EnclosesAll(w, b) ensures Encloses(w, out) {
      EnclosesSame(w, b, a);
    }
  }

  lemma EnclosesSame(w: Box, a: seq<Box>, b: seq<Box>)
    requires Valid(w) && AllValid(a) && AllValid(b) && EnclosesAll(w, a) && forall x | x in b :: x in a
    ensures EnclosesAll(w, b)
  {
    hide Encloses;
    forall i | 0 <= i < |b| ensures Encloses(w, b[i]) {
      assert b[i] in a;
      var k :| 0 <= k < |a| && a[k] == b[i];
    }
  }

  /** g_cube_union: with fewer than two entries no box is produced. */
  method UnionEntries(entries: seq<Box>) returns (out: Option<Box>)
    requires entries != [] && AllValid(entries)
    ensures out.Some? <==> |entries| >= 2
    ensures out.Some? ==> Valid(out.value) && IsHull(out.value, entries)
  {
    hide Valid, IsHull, IsUnion;
    var tmp := entries[0];
    out := None;
    HullOfOne(tmp);
    assert entries[..1] == [tmp];
    for i := 1 to |entries|
      invariant Valid(tmp) && AllValid(entries[..i]) && IsHull(tmp, entries[..i])
      invariant i >= 2 <==> out.Some?
      invariant out.Some? ==> out.value == tmp
    {
      var u := CubeUnion(tmp, entries[i]);
      HullGrows(entries[..i], tmp, entries[i], u);
      assert entries[..i + 1] == entries[..i] + [entries[i]];
      out := Some(u);
      tmp := u;
    }
    assert entries[..|entries|] == entries;
  }

  lemma EnclosesItself(b: Box)
    requires Valid(b)
    ensures Encloses(b, b)
  {
  }

  // ---- What enclosing keys accept ----

  lemma OverlapGrows(outer: Box, inner: Box, q: Box)
    requires Valid(outer) && Valid(inner) && Valid(q) && Encloses(outer, inner)
    requires forall i: nat :: Meet(inner, q, i)
    ensures Overlap(outer, q)
  {
    hide Lo, Hi;
    forall i: nat | i < MaxDim(outer, q) ensures Meet(outer, q, i) {
      assert Meet(inner, q, i);
      assert Lo(outer, i) <= Lo(inner, i) && Hi(inner, i) <= Hi(outer, i);
    }
  }

  lemma OverlapEverywhere(a: Box, b: Box)
    requires Valid(a) && Valid(b) && Overlap(a, b)
    ensures forall i: nat :: Meet(a, b, i)
  {
    forall i: nat ensures Meet(a, b, i) {
      if i >= MaxDim(a, b) { assert Lo(a, i) == 0.0 == Hi(b, i); }
    }
  }

  lemma ContainsGrows(outer: Box, inner: Box, q: Box)
    requires Valid(outer) && Valid(inner) && Valid(q) && Encloses(outer, inner) && Contains(inner, q)
    ensures Contains(outer, q)
  {
    forall i: nat | i < MinDim(outer, q) ensures Lo(outer, i) <= Lo(q, i) && Hi(q, i) <= Hi(outer, i) {
      assert Lo(outer, i) <= Lo(inner, i) && Hi(inner, i) <= Hi(outer, i);
      if i >= inner.dim { assert Lo(q, i) == 0.0 == Hi(q, i); }
    }
  }

  lemma SameIsContained(a: Box, b: Box)
    requires Valid(a) && Valid(b) && Compare(a, b) == 0
    ensures Contains(a, b)
  {
    hide Lo, Hi, Compare;
    ZeroIffSame(a, b);
  }

  // ---- Contained-by with extra dimensions ----

  /** In the dimensions the box lacks, the query reaches zero. */
  ghost predicate ReachesZero(q: Box, dim: nat)
    requires Valid(q)
  {
    forall i: nat | dim <= i < q.dim :: Lo(q, i) <= 0.0 <= Hi(q, i)
  }

  lemma ContainedMeets(b: Box, q: Box)
    requires Valid(b) && Valid(q) && Contains(q, b) && ReachesZero(q, b.dim)
    ensures forall i: nat :: Meet(b, q, i)
  {
    forall i: nat ensures Meet(b, q, i) {
      LoBelowHi(b, i);
      if i < q.dim && i < b.dim {
        assert Lo(q, i) <= Lo(b, i) && Hi(b, i) <= Hi(q, i);
      } else if i < b.dim {
        assert Lo(b, i) == 0.0 == Hi(b, i);
      } else if i < q.dim {
        assert Lo(q, i) <= 0.0 <= Hi(q, i);
      }
    }
  }

  /** A box the contained-by operator finds is found under every enclosing key
      exactly when the query reaches zero in the dimensions the box lacks. */
  lemma ContainedByFoundIff(b: Box, q: Box)
    requires Valid(b) && Valid(q) && LeafAccepts(b, q, ContainedBy)
    ensures (forall key: Box | Valid(key) && Encloses(key, b) :: InternalAccepts(key, q, ContainedBy))
            <==> ReachesZero(q, b.dim)
  {
    hide Encloses;
    if ReachesZero(q, b.dim) {
      ContainedMeets(b, q);
      forall key: Box | Valid(key) && Encloses(key, b) ensures Overlap(key, q) {
        OverlapGrows(key, b, q);
      }
    }
    if forall key: Box | Valid(key) && Encloses(key, b) :: InternalAccepts(key, q, ContainedBy) {
      EnclosesItself(b);
      assert Overlap(b, q);
      forall i: nat | b.dim <= i < q.dim ensures Lo(q, i) <= 0.0 <= Hi(q, i) {
        assert Meet(b, q, i);
      }
    }
  }
}
