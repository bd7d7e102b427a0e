/** g_cube_picksplit of contrib/cube/cube.cpp: Guttman's quadratic split. */
module CubeSplit {
  import opened Cube
  import opened CubeIndex
  import opened Entries

  function Abs(r: real): real {
    if r < 0.0 then -r else r
  }

  // ---- Size ----

  /** Product of the first n extents of the stored corners. */
  ghost function SizeTo(b: Box, n: nat): real
    requires Valid(b) && n <= b.dim
  {
    if n == 0 then 1.0 else Product(SizeTo(b, n - 1), Abs(b.x[n - 1 + b.dim] - b.x[n - 1]))
  }

  ghost function Size(b: Box): real
    requires Valid(b)
  {
    SizeTo(b, b.dim)
  }

  method RtCubeSize(b: Box) returns (size: real)
    requires Valid(b)
    ensures size == Size(b)
  {
    hide Product;
    size := 1.0;
    for i := 0 to b.dim
      invariant size == SizeTo(b, i)
    {
      size := Product(size, Abs(b.x[i + b.dim] - b.x[i]));
    }
  }

  /** Extents of the smallest box around a and b, and of their intersection. */
  ghost function UnionSizeTo(a: Box, b: Box, n: nat): real
    requires Valid(a) && Valid(b)
  {
    if n == 0 then 1.0
    else Product(UnionSizeTo(a, b, n - 1),
                 Max(Hi(a, n - 1), Hi(b, n - 1)) - Min(Lo(a, n - 1), Lo(b, n - 1)))
  }

  ghost function InterSizeTo(a: Box, b: Box, n: nat): real
    requires Valid(a) && Valid(b)
  {
    if n == 0 then 1.0
    else Product(InterSizeTo(a, b, n - 1),
                 Abs(Min(Hi(a, n - 1), Hi(b, n - 1)) - Max(Lo(a, n - 1), Lo(b, n - 1))))
  }

  ghost function UnionSize(a: Box, b: Box): real
    requires Valid(a) && Valid(b)
  {
    UnionSizeTo(a, b, MaxDim(a, b))
  }

  /** The space wasted by putting a and b together. */
  ghost function Waste(a: Box, b: Box): real
    requires Valid(a) && Valid(b)
  {
    UnionSize(a, b) - InterSizeTo(a, b, MaxDim(a, b))
  }

  lemma {:induction false} SizeIsExtents(r: Box, a: Box, b: Box, n: nat)
    requires Valid(r) && Valid(a) && Valid(b) && IsUnion(r, a, b) && n <= r.dim
    ensures SizeTo(r, n) == UnionSizeTo(a, b, n)
  {
    hide Product, Lo, Hi;
    if n > 0 {
      SizeIsExtents(r, a, b, n - 1);
      ExtentIs(r, n - 1);
      assert Lo(r, n - 1) == Min(Lo(a, n - 1), Lo(b, n - 1));
    }
  }

  lemma ExtentIs(b: Box, i: nat)
    requires Valid(b) && i < b.dim
    ensures |b.x| == 2 * b.dim && Abs(b.x[i + b.dim] - b.x[i]) == Hi(b, i) - Lo(b, i)
  {
  }

  lemma {:induction false} SizeOfInter(r: Box, a: Box, b: Box, n: nat)
    requires Valid(r) && Valid(a) && Valid(b) && n <= r.dim
    requires forall i | 0 <= i < r.dim ::
               r.x[i] == Max(Lo(a, i), Lo(b, i)) && r.x[i + r.dim] == Min(Hi(a, i), Hi(b, i))
    ensures SizeTo(r, n) == InterSizeTo(a, b, n)
  {
    hide Product, Lo, Hi;
    if n > 0 {
      SizeOfInter(r, a, b, n - 1);
      assert r.x[n - 1 + r.dim] == Min(Hi(a, n - 1), Hi(b, n - 1));
    }
  }

  method UnionWithSize(a: Box, b: Box) returns (u: Box, size: real)
    requires Valid(a) && Valid(b)
    ensures Valid(u) && IsUnion(u, a, b) && size == UnionSize(a, b) == Size(u)
  {
    hide Lo, Hi, SizeTo, UnionSizeTo;
    u := CubeUnion(a, b);
    SizeIsExtents(u, a, b, u.dim);
    size := RtCubeSize(u);
  }

  method WasteOf(a: Box, b: Box) returns (w: real)
    requires Valid(a) && Valid(b)
    ensures w == Waste(a, b)
  {
    hide Lo, Hi, SizeTo, UnionSizeTo, InterSizeTo;
    var u, sizeUnion := UnionWithSize(a, b);
    var inter := CubeInter(a, b);
    SizeOfInter(inter, a, b, inter.dim);
    var sizeInter := RtCubeSize(inter);
    w := sizeUnion - sizeInter;
  }

  // ---- Enlargement ----

  lemma {:induction false} SizeToNonNegative(b: Box, n: nat)
    requires Valid(b) && n <= b.dim
    ensures SizeTo(b, n) >= 0.0
  {
    if n > 0 {
      SizeToNonNegative(b, n - 1);
      ProductMonotone(0.0, SizeTo(b, n - 1), Abs(b.x[n - 1 + b.dim] - b.x[n - 1]));
    }
  }

  lemma {:induction false} EnlargedTo(a: Box, b: Box, n: nat)
    requires Valid(a) && Valid(b) && n <= a.dim
    ensures SizeTo(a, n) <= UnionSizeTo(a, b, n)
  {
    hide Product;
    if n > 0 {
      EnlargedTo(a, b, n - 1);
      SizeToNonNegative(a, n - 1);
      var s, u := SizeTo(a, n - 1), UnionSizeTo(a, b, n - 1);
      var e := Abs(a.x[n - 1 + a.dim] - a.x[n - 1]);
      var f := Max(Hi(a, n - 1), Hi(b, n - 1)) - Min(Lo(a, n - 1), Lo(b, n - 1));
      assert e <= f;
      ProductMonotone(s, u, f);
      ProductMonotone(e, f, s);
      ProductCommutes(e, s);
      ProductCommutes(f, s);
    }
  }

  /** Adding a box of no more dimensions never shrinks the size. */
  lemma EnlargementNonNegative(a: Box, b: Box)
    requires Valid(a) && Valid(b) && b.dim <= a.dim
    ensures UnionSize(a, b) - Size(a) >= 0.0
  {
    EnlargedTo(a, b, a.dim);
  }

  /** No pair of boxes of dimensions p and q makes the enlargement of the first
      negative exactly when the second has no more dimensions. */
  lemma EnlargementNonNegativeIff(p: nat, q: nat)
    ensures (forall a: Box, b: Box | Valid(a) && Valid(b) && a.dim == p && b.dim == q ::
               UnionSize(a, b) - Size(a) >= 0.0)
            <==> q <= p
  {
    hide UnionSize, Size;
    if q <= p {
      forall a: Box, b: Box | Valid(a) && Valid(b) && a.dim == p && b.dim == q
        ensures UnionSize(a, b) - Size(a) >= 0.0
      {
        EnlargementNonNegative(a, b);
      }
    } else {
      var a := Box(p, seq(2 * p, i requires 0 <= i < 2 * p => if i < p then 0.0 else 1.0));
      var b := Box(q, seq(2 * q, i requires 0 <= i < 2 * q => 0.0));
      UnitSize(a, p);
      FlattenedSize(a, b);
      assert UnionSize(a, b) - Size(a) < 0.0;
    }
  }

  lemma {:induction false} UnitSize(a: Box, n: nat)
    requires Valid(a) && n <= a.dim && forall i | 0 <= i < |a.x| :: a.x[i] == if i < a.dim then 0.0 else 1.0
    ensures SizeTo(a, n) == 1.0 && (n == a.dim ==> Size(a) == 1.0)
  {
    if n > 0 { UnitSize(a, n - 1); }
  }

  /** A last dimension without extent makes the product zero. */
  lemma FlattenedSize(a: Box, b: Box)
    requires Valid(a) && Valid(b) && a.dim < b.dim && forall i | 0 <= i < |b.x| :: b.x[i] == 0.0
    ensures UnionSize(a, b) == 0.0
  {
    var n := b.dim - 1;
    assert Lo(b, n) == 0.0 == Hi(b, n) && Lo(a, n) == 0.0 == Hi(a, n);
    assert UnionSizeTo(a, b, b.dim) == Product(UnionSizeTo(a, b, n), 0.0);
  }

  /** With more dimensions it may: a flat second dimension makes the union's size
      zero. */
  lemma EnlargementCanBeNegative()
    ensures var a, b := Box(1, [0.0, 1.0]), Box(2, [0.0, 0.0, 0.0, 0.0]);
            UnionSize(a, b) - Size(a) < 0.0
  {
    hide UnionSize, Size;
    var a, b := Box(1, [0.0, 1.0]), Box(2, [0.0, 0.0, 0.0, 0.0]);
    UnitSize(a, 1);
    FlattenedSize(a, b);
  }

  // ---- Seeds ----

  ghost predicate AreSeeds(entries: seq<Box>, s1: nat, s2: nat)
    requires AllValid(entries)
  {
    && 1 <= s1 < s2 < |entries|
    && (|entries| > 3 ==> s2 <= |entries| - 2)
    && forall a, b | 1 <= a < b <= |entries| - 2 ::
         Waste(entries[a], entries[b]) <= Waste(entries[s1], entries[s2])
  }

  /** Pairs scanned before (k, j) waste no more than the best one so far. */
  ghost predicate BestSoFar(entries: seq<Box>, first: bool, waste: real, s1: nat, s2: nat, k: nat, j: nat)
    requires AllValid(entries)
  {
    && (first ==> s1 == 1 && s2 == 2 && k <= 1 && j <= k + 1)
    && (!first ==> 1 <= s1 < s2 <= |entries| - 2 && waste == Waste(entries[s1], entries[s2]))
    && (forall a, b | 1 <= a < b <= |entries| - 2 && (a < k || (a == k && b < j)) ::
          !first && Waste(entries[a], entries[b]) <= waste)
  }

  method PickSeeds(entries: seq<Box>) returns (s1: nat, s2: nat)
    requires |entries| >= 3 && AllValid(entries)
    ensures AreSeeds(entries, s1, s2)
  {
    hide Waste, Valid;
    var maxoff := |entries| - 2;
    var firsttime, waste := true, 0.0;
    s1, s2 := 1, 2;
    var k := 1;
    while k < maxoff
      invariant 1 <= k <= maxoff
      invariant BestSoFar(entries, firsttime, waste, s1, s2, k, k + 1)
      invariant k > 1 ==> !firsttime
    {
      var j := k + 1;
      while j <= maxoff
        invariant k + 1 <= j <= maxoff + 1
        invariant BestSoFar(entries, firsttime, waste, s1, s2, k, j)
        invariant k > 1 || j > k + 1 ==> !firsttime
      {
        var w := WasteOf(entries[k], entries[j]);
        if w > waste || firsttime {
          waste, s1, s2, firsttime := w, k, j, false;
        }
        j := j + 1;
      }
      k := k + 1;
    }
  }

  // ---- Dealing out ----

  datatype Split = Split(left: seq<nat>, right: seq<nat>, l: Box, r: Box)

  ghost predicate ValidSplit(s: Split) {
    Valid(s.l) && Valid(s.r)
  }

  /** One turn of the loop: seeds to their side, others where the box grows less. */
  ghost predicate Deals(entries: seq<Box>, s1: nat, s2: nat, was: Split, j: nat, now: Split)
    requires AllValid(entries) && j < |entries| && ValidSplit(was) && ValidSplit(now)
  {
    if j == s1 then now == was.(left := was.left + [j])
    else if j == s2 then now == was.(right := was.right + [j])
    else if UnionSize(was.l, entries[j]) - Size(was.l) < UnionSize(was.r, entries[j]) - Size(was.r) then
      now.left == was.left + [j] && now.right == was.right && now.r == was.r && IsUnion(now.l, was.l, entries[j])
    else
      now.right == was.right + [j] && now.left == was.left && now.l == was.l && IsUnion(now.r, was.r, entries[j])
  }

  method Deal(entries: seq<Box>, s1: nat, s2: nat, was: Split, j: nat, sizeL: real, sizeR: real)
    returns (now: Split, sizeL': real, sizeR': real)
    requires AllValid(entries) && j < |entries| && ValidSplit(was)
    requires sizeL == Size(was.l) && sizeR == Size(was.r)
    ensures ValidSplit(now) && Deals(entries, s1, s2, was, j, now)
    ensures sizeL' == Size(now.l) && sizeR' == Size(now.r)
  {
    hide UnionSize, Size, IsUnion, Valid;
    sizeL', sizeR' := sizeL, sizeR;
    if j == s1 { return was.(left := was.left + [j]), sizeL, sizeR; }
    if j == s2 { return was.(right := was.right + [j]), sizeL, sizeR; }
    var ul, sizeAlpha := UnionWithSize(was.l, entries[j]);
    var ur, sizeBeta := UnionWithSize(was.r, entries[j]);
    if sizeAlpha - sizeL < sizeBeta - sizeR {
      now := Split(was.left + [j], was.right, ul, was.r);
      sizeL' := sizeAlpha;
    } else {
      now := Split(was.left, was.right + [j], was.l, ur);
      sizeR' := sizeBeta;
    }
  }

  /** An entry that is no seed goes to the side whose box grows less, to the right one
      if both grow alike: the other side's box, joined with it, would grow no less. */
  lemma LeastGrowthWins(entries: seq<Box>, s1: nat, s2: nat, was: Split, j: nat, now: Split, l: Box, r: Box)
    requires AllValid(entries) && j < |entries| && ValidSplit(was) && ValidSplit(now)
    requires Deals(entries, s1, s2, was, j, now) && j != s1 && j != s2
    requires Valid(l) && IsUnion(l, was.l, entries[j]) && Valid(r) && IsUnion(r, was.r, entries[j])
    ensures if Size(l) - Size(was.l) < Size(r) - Size(was.r) then now.left == was.left + [j] && now.right == was.right
            else now.right == was.right + [j] && now.left == was.left
  {
    hide IsUnion, Valid, SizeTo, UnionSizeTo;
    HullSize(l, was.l, entries[j]);
    HullSize(r, was.r, entries[j]);
  }

  lemma HullSize(r: Box, a: Box, b: Box)
    requires Valid(r) && Valid(a) && Valid(b) && IsUnion(r, a, b)
    ensures Size(r) == UnionSize(a, b)
  {
    hide SizeTo, UnionSizeTo, Lo, Hi;
    SizeIsExtents(r, a, b, r.dim);
  }

  /** Size is volume: it scales with every extent, and the unit box has size 1. */
  lemma {:induction false} SizeScales(a: Box, b: Box, i: nat, t: real, n: nat)
    requires Valid(a) && Valid(b) && a.dim == b.dim && i < a.dim && n <= a.dim
    requires Hi(a, i) - Lo(a, i) == Product(t, Hi(b, i) - Lo(b, i))
    requires forall j: nat | j < a.dim && j != i :: Hi(a, j) - Lo(a, j) == Hi(b, j) - Lo(b, j)
    ensures SizeTo(a, n) == if n <= i then SizeTo(b, n) else Product(t, SizeTo(b, n))
    ensures n == a.dim ==> Size(a) == Product(t, Size(b))
  {
    hide Product, Lo, Hi;
    if n > 0 {
      SizeScales(a, b, i, t, n - 1);
      ExtentIs(a, n - 1);
      ExtentIs(b, n - 1);
      var x, e := SizeTo(b, n - 1), Hi(b, n - 1) - Lo(b, n - 1);
      if n - 1 == i {
        ProductAssociates(x, t, e);
        ProductCommutes(x, t);
        ProductAssociates(t, x, e);
      } else if n - 1 > i {
        ProductAssociates(t, x, e);
      }
    }
  }

  lemma ProductAssociates(x: real, y: real, z: real)
    ensures Product(Product(x, y), z) == Product(x, Product(y, z))
  {
  }

  /** The starting box of a side, as joining a seed with itself leaves it. */
  ghost predicate SameExtent(a: Box, b: Box)
    requires Valid(a) && Valid(b)
  {
    IsUnion(a, b, b)
  }

  /** A run of the loop: states[k] is the split after positions 1..k. */
  ghost predicate IsRun(entries: seq<Box>, s1: nat, s2: nat, states: seq<Split>)
    requires AllValid(entries)
  {
    && s1 < |entries| && s2 < |entries| && 0 < |states| <= |entries|
    && (forall k | 0 <= k < |states| :: ValidSplit(states[k]))
    && states[0].left == [] == states[0].right
    && SameExtent(states[0].l, entries[s1]) && SameExtent(states[0].r, entries[s2])
    && (forall k | 0 <= k < |states| - 1 :: Deals(entries, s1, s2, states[k], k + 1, states[k + 1]))
  }

  ghost predicate Increasing(s: seq<nat>) {
    forall i, j | 0 <= i < j < |s| :: s[i] < s[j]
  }

  /** After k positions: both lists increasing, together exactly 1..k. */
  ghost predicate Partitions(left: seq<nat>, right: seq<nat>, k: nat) {
    && Increasing(left) && Increasing(right)
    && (forall p: nat :: p in left ==> 1 <= p <= k && p !in right)
    && (forall p: nat :: p in right ==> 1 <= p <= k && p !in left)
    && (forall p: nat | 1 <= p <= k :: p in left || p in right)
  }

  lemma PartitionsNext(left: seq<nat>, right: seq<nat>, k: nat, left': seq<nat>, right': seq<nat>)
    requires Partitions(left, right, k)
    requires (left' == left + [k + 1] && right' == right) || (right' == right + [k + 1] && left' == left)
    ensures Partitions(left', right', k + 1)
  {
    if left' == left + [k + 1] && right' == right {
      AppendLarger(left, k);
      assert forall p: nat :: p in left' <==> p in left || p == k + 1;
    } else {
      AppendLarger(right, k);
      assert forall p: nat :: p in right' <==> p in right || p == k + 1;
    }
  }

  lemma AppendLarger(s: seq<nat>, k: nat)
    requires Increasing(s) && forall p: nat :: p in s ==> p <= k
    ensures Increasing(s + [k + 1])
  {
    assert forall i | 0 <= i < |s| :: s[i] in s;
  }

  lemma {:induction false} RunPartitions(entries: seq<Box>, s1: nat, s2: nat, states: seq<Split>, k: nat)
    requires AllValid(entries) && IsRun(entries, s1, s2, states) && k < |states|
    ensures Partitions(states[k].left, states[k].right, k)
  {
    hide IsUnion, UnionSize, Size, Valid, Partitions;
    if k == 0 {
      NothingPartitioned();
    } else {
      RunPartitions(entries, s1, s2, states, k - 1);
      assert Deals(entries, s1, s2, states[k - 1], k - 1 + 1, states[k - 1 + 1]);
      PartitionsNext(states[k - 1].left, states[k - 1].right, k - 1, states[k].left, states[k].right);
    }
  }

  lemma NothingPartitioned()
    ensures Partitions([], [], 0)
  {
  }

  /** box is the smallest around the entries at the given positions. */
  ghost predicate HullOfSide(box: Box, entries: seq<Box>, side: seq<nat>)
    requires AllValid(entries)
  {
    Valid(box) && InRange(side, entries) && IsHull(box, At(entries, side))
  }

  lemma SameSide(box: Box, entries: seq<Box>, a: seq<nat>, b: seq<nat>)
    requires AllValid(entries) && HullOfSide(box, entries, a) && forall p: nat :: p in a <==> p in b
    ensures HullOfSide(box, entries, b)
  {
    hide IsHull, Valid;
    assert forall k | 0 <= k < |b| :: b[k] in a;
    assert InRange(b, entries);
    var x, y := At(entries, a), At(entries, b);
    forall e ensures e in x <==> e in y {
      if e in x {
        var k :| 0 <= k < |x| && x[k] == e;
        assert a[k] in b;
        var l :| 0 <= l < |b| && b[l] == a[k];
        assert y[l] == e;
      }
      if e in y {
        var k :| 0 <= k < |y| && y[k] == e;
        assert b[k] in a;
        var l :| 0 <= l < |a| && a[l] == b[k];
        assert x[l] == e;
      }
    }
    HullOfSame(box, x, y);
  }

  lemma SideGrows(box: Box, entries: seq<Box>, side: seq<nat>, j: nat, now: Box)
    requires AllValid(entries) && HullOfSide(box, entries, side) && j < |entries|
    requires Valid(now) && IsUnion(now, box, entries[j])
    ensures HullOfSide(now, entries, side + [j])
  {
    hide IsHull, Valid, IsUnion;
    HullGrows(At(entries, side), box, entries[j], now);
    assert At(entries, side + [j]) == At(entries, side) + [entries[j]];
  }

  /** Each box is the hull of its seed and the entries dealt to its side. */
  ghost predicate SidesAreHulls(entries: seq<Box>, s1: nat, s2: nat, s: Split)
    requires AllValid(entries)
  {
    HullOfSide(s.l, entries, [s1] + s.left) && HullOfSide(s.r, entries, [s2] + s.right)
  }

  lemma DealKeepsHulls(entries: seq<Box>, s1: nat, s2: nat, was: Split, j: nat, now: Split)
    requires AllValid(entries) && j < |entries| && ValidSplit(was) && ValidSplit(now)
    requires Deals(entries, s1, s2, was, j, now) && SidesAreHulls(entries, s1, s2, was)
    ensures SidesAreHulls(entries, s1, s2, now)
  {
    hide IsUnion, UnionSize, Size, Valid, HullOfSide;
    assert [s1] + (was.left + [j]) == ([s1] + was.left) + [j];
    assert [s2] + (was.right + [j]) == ([s2] + was.right) + [j];
    if j == s1 {
      SameSide(was.l, entries, [s1] + was.left, [s1] + now.left);
    } else if j == s2 {
      SameSide(was.r, entries, [s2] + was.right, [s2] + now.right);
    } else if now.left != was.left {
      SideGrows(was.l, entries, [s1] + was.left, j, now.l);
    } else {
      SideGrows(was.r, entries, [s2] + was.right, j, now.r);
    }
  }

  lemma HullOfSeed(box: Box, entries: seq<Box>, s: nat)
    requires AllValid(entries) && s < |entries| && Valid(box) && SameExtent(box, entries[s])
    ensures HullOfSide(box, entries, [s] + [])
  {
    hide IsHull, Valid, IsUnion;
    var e := entries[s];
    HullOfOne(e);
    HullGrows([e], e, e, box);
    HullOfSame(box, [e] + [e], [e]);
    assert At(entries, [s] + []) == [e];
  }

  /** At every point of a run each side's box is the smallest around its seed and its
      members. */
  lemma {:induction false} RunOfHulls(entries: seq<Box>, s1: nat, s2: nat, states: seq<Split>, k: nat)
    requires AllValid(entries) && IsRun(entries, s1, s2, states) && k < |states|
    ensures SidesAreHulls(entries, s1, s2, states[k])
  {
    hide Deals, Valid, HullOfSide, SameExtent;
    if k == 0 {
      HullOfSeed(states[0].l, entries, s1);
      HullOfSeed(states[0].r, entries, s2);
    } else {
      RunOfHulls(entries, s1, s2, states, k - 1);
      DealKeepsHulls(entries, s1, s2, states[k - 1], k, states[k]);
    }
  }

  lemma {:induction false} SeedsDealt(entries: seq<Box>, s1: nat, s2: nat, states: seq<Split>, k: nat)
    requires AllValid(entries) && IsRun(entries, s1, s2, states) && k < |states| && s1 != s2
    ensures 1 <= s1 <= k ==> s1 in states[k].left
    ensures 1 <= s2 <= k ==> s2 in states[k].right
  {
    hide IsUnion, UnionSize, Size, Valid;
    if k > 0 {
      SeedsDealt(entries, s1, s2, states, k - 1);
      assert Deals(entries, s1, s2, states[k - 1], k - 1 + 1, states[k - 1 + 1]);
    }
  }

  /** When all boxes have one dimension, so have both sides throughout, and no
      enlargement is ever negative. */
  lemma {:induction false} RunNeverShrinks(entries: seq<Box>, s1: nat, s2: nat, states: seq<Split>, k: nat, d: nat)
    requires AllValid(entries) && IsRun(entries, s1, s2, states) && k < |states|
    requires forall i | 0 <= i < |entries| :: entries[i].dim == d
    ensures states[k].l.dim == d == states[k].r.dim
    ensures forall p: nat | p < |entries| ::
              && UnionSize(states[k].l, entries[p]) - Size(states[k].l) >= 0.0
              && UnionSize(states[k].r, entries[p]) - Size(states[k].r) >= 0.0
  {
    hide UnionSize, Size, Valid, Lo, Hi;
    if k > 0 {
      RunNeverShrinks(entries, s1, s2, states, k - 1, d);
      assert Deals(entries, s1, s2, states[k - 1], k - 1 + 1, states[k - 1 + 1]);
    }
    forall p: nat | p < |entries|
      ensures UnionSize(states[k].l, entries[p]) - Size(states[k].l) >= 0.0
      ensures UnionSize(states[k].r, entries[p]) - Size(states[k].r) >= 0.0
    {
      EnlargementNonNegative(states[k].l, entries[p]);
      EnlargementNonNegative(states[k].r, entries[p]);
    }
  }

  /** g_cube_picksplit over positions 1..; position 0 is unused. */
  method PickSplit(entries: seq<Box>) returns (left: seq<nat>, right: seq<nat>, ldatum: Box, rdatum: Box,
                                               s1: nat, s2: nat, ghost states: seq<Split>)
    requires |entries| >= 3 && AllValid(entries)
    ensures AreSeeds(entries, s1, s2) && s1 in left && s2 in right
    ensures Partitions(left, right, |entries| - 1)
    ensures HullOfSide(ldatum, entries, left) && HullOfSide(rdatum, entries, right)
    ensures IsRun(entries, s1, s2, states) && |states| == |entries|
    ensures states[|entries| - 1] == Split(left, right, ldatum, rdatum)
  {
    hide Deals, IsUnion, UnionSize, Size, Valid, HullOfSide, Partitions, AreSeeds;
    s1, s2 := PickSeeds(entries);
    SeedsInRange(entries, s1, s2);
    var l, sizeL := UnionWithSize(entries[s1], entries[s1]);
    var r, sizeR := UnionWithSize(entries[s2], entries[s2]);
    var split := Split([], [], l, r);
    states := [split];
    for i := 1 to |entries|
      invariant IsRun(entries, s1, s2, states)
      invariant |states| == i && states[i - 1] == split && ValidSplit(split)
      invariant sizeL == Size(split.l) && sizeR == Size(split.r)
    {
      ghost var was := split;
      split, sizeL, sizeR := Deal(entries, s1, s2, split, i, sizeL, sizeR);
      RunExtends(entries, s1, s2, states, split);
      states := states + [split];
    }
    left, right, ldatum, rdatum := split.left, split.right, split.l, split.r;
    RunPartitions(entries, s1, s2, states, |entries| - 1);
    RunOfHulls(entries, s1, s2, states, |entries| - 1);
    SeedsDealt(entries, s1, s2, states, |entries| - 1);
    SameSide(ldatum, entries, [s1] + left, left);
    SameSide(rdatum, entries, [s2] + right, right);
  }

  lemma SeedsInRange(entries: seq<Box>, s1: nat, s2: nat)
    requires AllValid(entries) && AreSeeds(entries, s1, s2)
    ensures 1 <= s1 < s2 < |entries|
  {
  }

  lemma RunExtends(entries: seq<Box>, s1: nat, s2: nat, states: seq<Split>, next: Split)
    requires AllValid(entries) && IsRun(entries, s1, s2, states) && |states| < |entries| && ValidSplit(next)
    requires ValidSplit(states[|states| - 1])
    requires Deals(entries, s1, s2, states[|states| - 1], |states|, next)
    ensures IsRun(entries, s1, s2, states + [next])
  {
    hide Deals, IsUnion, Valid;
    var more := states + [next];
    forall k | 0 <= k < |more| ensures ValidSplit(more[k]) {
      if k < |states| { assert more[k] == states[k]; }
    }
    forall k | 0 <= k < |more| - 1 ensures Deals(entries, s1, s2, more[k], k + 1, more[k + 1]) {
      assert more[k] == states[k];
      if k < |states| - 1 { assert more[k + 1] == states[k + 1]; }
    }
  }
}
