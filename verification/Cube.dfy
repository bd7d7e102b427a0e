/** n-dimensional boxes of contrib/cube/cube.cpp. A box stores two opposite corners
    in either order; dimensions it lacks count as zero. */
module Cube {

  datatype Box = Box(dim: nat, x: seq<real>)

  ghost predicate Valid(b: Box) {
    |b.x| == 2 * b.dim
  }

  function Min(a: real, b: real): real {
    if a < b then a else b
  }

  function Max(a: real, b: real): real {
    if a > b then a else b
  }

  /** Lower and upper bound in dimension i, zero where the box has none. */
  function Lo(b: Box, i: nat): real
    requires Valid(b)
  {
    if i < b.dim then Min(b.x[i], b.x[i + b.dim]) else 0.0
  }

  function Hi(b: Box, i: nat): real
    requires Valid(b)
  {
    if i < b.dim then Max(b.x[i], b.x[i + b.dim]) else 0.0
  }

  function MaxDim(a: Box, b: Box): nat {
    if a.dim >= b.dim then a.dim else b.dim
  }

  function MinDim(a: Box, b: Box): nat {
    if a.dim < b.dim then a.dim else b.dim
  }

  // ---- Points ----

  /** p, given on the first |p| dimensions, lies in the zero-padded box. */
  ghost predicate Inside(p: seq<real>, b: Box)
    requires Valid(b)
  {
    forall i | 0 <= i < |p| :: Lo(b, i) <= p[i] <= Hi(b, i)
  }

  // ---- Union and intersection ----

  lemma Corners(b: Box, i: nat)
    requires Valid(b) && i < b.dim
    ensures Lo(b, i) == Min(b.x[i], b.x[i + b.dim]) && Hi(b, i) == Max(b.x[i], b.x[i + b.dim])
  {
  }

  /** The loops that fill result->x for the larger box a and the smaller box b. */
  method UnionInto(a: Box, b: Box) returns (r: Box)
    requires Valid(a) && Valid(b) && a.dim >= b.dim
    ensures Valid(r) && r.dim == a.dim
    ensures forall i | 0 <= i < r.dim ::
              r.x[i] == Min(Lo(a, i), Lo(b, i)) && r.x[i + r.dim] == Max(Hi(a, i), Hi(b, i))
  {
    hide Lo, Hi, Min, Max;
    var x := new real[2 * a.dim];
    PadSmaller(x, a.dim, b);
    for i := 0 to a.dim
      invariant forall k | 0 <= k < i ::
                  x[k] == Min(Lo(a, k), Lo(b, k)) && x[k + a.dim] == Max(Hi(a, k), Hi(b, k))
      invariant forall k | i <= k < a.dim :: x[k] == Lo(b, k) && x[k + a.dim] == Hi(b, k)
    {
      Corners(a, i);
      x[i] := Min(Min(a.x[i], a.x[i + a.dim]), x[i]);
      x[i + a.dim] := Max(Max(a.x[i], a.x[i + a.dim]), x[i + a.dim]);
    }
    r := Box(a.dim, x[..]);
  }

  /** Copies the smaller box, padding absent dimensions with zeroes. */
  method PadSmaller(x: array<real>, dim: nat, b: Box)
    requires Valid(b) && b.dim <= dim && x.Length == 2 * dim
    modifies x
    ensures forall k | 0 <= k < dim :: x[k] == Lo(b, k) && x[k + dim] == Hi(b, k)
  {
    for i := 0 to b.dim
      invariant forall k | 0 <= k < i :: x[k] == Lo(b, k) && x[k + dim] == Hi(b, k)
    {
      x[i] := Min(b.x[i], b.x[i + b.dim]);
      x[i + dim] := Max(b.x[i], b.x[i + b.dim]);
    }
    for i := b.dim to dim
      invariant forall k | 0 <= k < i :: x[k] == Lo(b, k) && x[k + dim] == Hi(b, k)
    {
      x[i] := 0.0;
      x[i + dim] := 0.0;
    }
  }

  /** r is the smallest box around both, in every dimension. */
  ghost predicate IsUnion(r: Box, a: Box, b: Box)
    requires Valid(r) && Valid(a) && Valid(b)
  {
    && r.dim == MaxDim(a, b)
    && forall i: nat :: Lo(r, i) == Min(Lo(a, i), Lo(b, i)) && Hi(r, i) == Max(Hi(a, i), Hi(b, i))
  }

  lemma LoBelowHi(b: Box, i: nat)
    requires Valid(b)
    ensures Lo(b, i) <= Hi(b, i)
  {
  }

  method CubeUnion(a: Box, b: Box) returns (r: Box)
    requires Valid(a) && Valid(b)
    ensures Valid(r) && IsUnion(r, a, b)
    ensures forall i | 0 <= i < r.dim :: r.x[i] == Lo(r, i) && r.x[i + r.dim] == Hi(r, i)
  {
    hide Lo, Hi;
    if a.dim >= b.dim { r := UnionInto(a, b); } else { r := UnionInto(b, a); }
    FilledIsUnion(r, a, b);
  }

  lemma FilledIsUnion(r: Box, a: Box, b: Box)
    requires Valid(r) && Valid(a) && Valid(b) && r.dim == MaxDim(a, b)
    requires forall i | 0 <= i < r.dim ::
               r.x[i] == Min(Lo(a, i), Lo(b, i)) && r.x[i + r.dim] == Max(Hi(a, i), Hi(b, i))
    ensures IsUnion(r, a, b)
    ensures forall i | 0 <= i < r.dim :: r.x[i] == Lo(r, i) && r.x[i + r.dim] == Hi(r, i)
  {
    forall i: nat
      ensures Lo(r, i) == Min(Lo(a, i), Lo(b, i)) && Hi(r, i) == Max(Hi(a, i), Hi(b, i))
      ensures i < r.dim ==> r.x[i] == Lo(r, i) && r.x[i + r.dim] == Hi(r, i)
    {
      LoBelowHi(a, i);
      LoBelowHi(b, i);
    }
  }

  /** cube_inter: bounds may cross when the boxes are apart. */
  method CubeInter(a0: Box, b0: Box) returns (r: Box)
    requires Valid(a0) && Valid(b0)
    ensures Valid(r) && r.dim == MaxDim(a0, b0)
    ensures forall i | 0 <= i < r.dim ::
              r.x[i] == Max(Lo(a0, i), Lo(b0, i)) && r.x[i + r.dim] == Min(Hi(a0, i), Hi(b0, i))
  {
    var a, b := a0, b0;
    if a.dim < b.dim { a, b := b, a; }
    r := InterInto(a, b);
  }

  method InterInto(a: Box, b: Box) returns (r: Box)
    requires Valid(a) && Valid(b) && a.dim >= b.dim
    ensures Valid(r) && r.dim == a.dim
    ensures forall i | 0 <= i < r.dim ::
              r.x[i] == Max(Lo(a, i), Lo(b, i)) && r.x[i + r.dim] == Min(Hi(a, i), Hi(b, i))
  {
    hide Lo, Hi, Min, Max;
    var x := new real[2 * a.dim];
    PadSmaller(x, a.dim, b);
    for i := 0 to a.dim
      invariant forall k | 0 <= k < i ::
                  x[k] == Max(Lo(a, k), Lo(b, k)) && x[k + a.dim] == Min(Hi(a, k), Hi(b, k))
      invariant forall k | i <= k < a.dim :: x[k] == Lo(b, k) && x[k + a.dim] == Hi(b, k)
    {
      Corners(a, i);
      x[i] := Max(Min(a.x[i], a.x[i + a.dim]), x[i]);
      x[i + a.dim] := Min(Max(a.x[i], a.x[i + a.dim]), x[i + a.dim]);
    }
    r := Box(a.dim, x[..]);
  }

  /** For boxes that meet, the intersection holds exactly the points of both. */
  lemma InterHoldsCommonPoints(r: Box, a: Box, b: Box, p: seq<real>)
    requires Valid(r) && Valid(a) && Valid(b) && r.dim == MaxDim(a, b) == |p| && Overlap(a, b)
    requires forall i | 0 <= i < r.dim ::
               r.x[i] == Max(Lo(a, i), Lo(b, i)) && r.x[i + r.dim] == Min(Hi(a, i), Hi(b, i))
    ensures Inside(p, r) <==> Inside(p, a) && Inside(p, b)
  {
    forall i | 0 <= i < |p|
      ensures Lo(r, i) <= p[i] <= Hi(r, i) <==> Lo(a, i) <= p[i] <= Hi(a, i) && Lo(b, i) <= p[i] <= Hi(b, i)
    {
      assert Meet(a, b, i);
      InterCorners(r, a, b, i);
    }
  }

  lemma InterCorners(r: Box, a: Box, b: Box, i: nat)
    requires Valid(r) && Valid(a) && Valid(b) && i < r.dim && Meet(a, b, i)
    requires r.x[i] == Max(Lo(a, i), Lo(b, i)) && r.x[i + r.dim] == Min(Hi(a, i), Hi(b, i))
    ensures Lo(r, i) == Max(Lo(a, i), Lo(b, i)) && Hi(r, i) == Min(Hi(a, i), Hi(b, i))
  {
    LoBelowHi(a, i);
    LoBelowHi(b, i);
  }

  // ---- Containment and overlap ----

  /** cube_contains_v0: dimensions that only b has must be zero, those that only
      a has are ignored. */
  ghost predicate Contains(a: Box, b: Box)
    requires Valid(a) && Valid(b)
  {
    && (forall i: nat | a.dim <= i < b.dim :: Lo(b, i) == 0.0 == Hi(b, i))
    && (forall i: nat | i < MinDim(a, b) :: Lo(a, i) <= Lo(b, i) && Hi(b, i) <= Hi(a, i))
  }

  /** The corner of lower, or of upper bounds, in the first n dimensions. */
  function Corner(b: Box, n: nat, upper: bool): (p: seq<real>)
    requires Valid(b)
    ensures |p| == n && forall i | 0 <= i < n :: p[i] == if upper then Hi(b, i) else Lo(b, i)
  {
    seq(n, i requires 0 <= i < n => if upper then Hi(b, i) else Lo(b, i))
  }

  lemma CornerInside(b: Box, n: nat, upper: bool)
    requires Valid(b)
    ensures Inside(Corner(b, n, upper), b)
  {
    hide Lo, Hi;
    forall i | 0 <= i < n ensures Lo(b, i) <= Hi(b, i) { LoBelowHi(b, i); }
  }

  /** In the dimensions of b, every point of b lies in the zero-padded a. */
  lemma ContainsMeansPoints(a: Box, b: Box)
    requires Valid(a) && Valid(b)
    ensures Contains(a, b) <==> forall p: seq<real> | |p| == b.dim && Inside(p, b) :: Inside(p, a)
  {
    if Contains(a, b) {
      forall p: seq<real> | |p| == b.dim && Inside(p, b) ensures Inside(p, a) {
        forall i | 0 <= i < |p| ensures Lo(a, i) <= p[i] <= Hi(a, i) {
          assert Lo(b, i) <= p[i] <= Hi(b, i);
        }
      }
    }
    if forall p: seq<real> | |p| == b.dim && Inside(p, b) :: Inside(p, a) {
      var low, high := Corner(b, b.dim, false), Corner(b, b.dim, true);
      CornerInside(b, b.dim, false);
      CornerInside(b, b.dim, true);
      hide Lo, Hi;
      forall i: nat | i < b.dim ensures Lo(a, i) <= Lo(b, i) && Hi(b, i) <= Hi(a, i) {
        assert Lo(a, i) <= low[i] && high[i] <= Hi(a, i);
        LoBelowHi(b, i);
      }
      forall i: nat | a.dim <= i < b.dim ensures Lo(b, i) == 0.0 == Hi(b, i) {
        BeyondIsZero(a, i);
        LoBelowHi(b, i);
      }
    }
  }

  lemma BeyondIsZero(a: Box, i: nat)
    requires Valid(a) && a.dim <= i
    ensures Lo(a, i) == 0.0 == Hi(a, i)
  {
  }

  method CubeContains(a: Box, b: Box) returns (r: bool)
    requires Valid(a) && Valid(b)
    ensures r <==> Contains(a, b)
  {
    if a.dim < b.dim {
      for i := a.dim to b.dim
        invariant forall k: nat | a.dim <= k < i :: Lo(b, k) == 0.0 == Hi(b, k)
      {
        if b.x[i] != 0.0 || b.x[i + b.dim] != 0.0 {
          assert !(Lo(b, i) == 0.0 == Hi(b, i));
          return false;
        }
      }
    }
    for i := 0 to MinDim(a, b)
      invariant forall k: nat | k < i :: Lo(a, k) <= Lo(b, k) && Hi(b, k) <= Hi(a, k)
    {
      if Min(a.x[i], a.x[i + a.dim]) > Min(b.x[i], b.x[i + b.dim]) {
        assert Lo(a, i) > Lo(b, i);
        return false;
      }
      if Max(a.x[i], a.x[i + a.dim]) < Max(b.x[i], b.x[i + b.dim]) {
        assert Hi(b, i) > Hi(a, i);
        return false;
      }
    }
    return true;
  }

  /** cube_overlap_v0 in zero-padded terms. */
  ghost predicate Overlap(a: Box, b: Box)
    requires Valid(a) && Valid(b)
  {
    forall i: nat | i < MaxDim(a, b) :: Meet(a, b, i)
  }

  ghost predicate Meet(a: Box, b: Box, i: nat)
    requires Valid(a) && Valid(b)
  {
    Lo(a, i) <= Hi(b, i) && Lo(b, i) <= Hi(a, i)
  }

  method CubeOverlap(a0: Box, b0: Box) returns (r: bool)
    requires Valid(a0) && Valid(b0)
    ensures r <==> Overlap(a0, b0)
  {
    var a, b := a0, b0;
    if a.dim < b.dim { a, b := b, a; }
    for i := 0 to b.dim
      invariant forall k: nat | k < i :: Meet(a0, b0, k)
    {
      if Min(a.x[i], a.x[i + a.dim]) > Max(b.x[i], b.x[i + b.dim])
         || Max(a.x[i], a.x[i + a.dim]) < Min(b.x[i], b.x[i + b.dim]) {
        assert !Meet(a0, b0, i);
        return false;
      }
    }
    for i := b.dim to a.dim
      invariant forall k: nat | k < i :: Meet(a0, b0, k)
    {
      if Min(a.x[i], a.x[i + a.dim]) > 0.0 || Max(a.x[i], a.x[i + a.dim]) < 0.0 {
        assert !Meet(a0, b0, i);
        return false;
      }
    }
    return true;
  }

  /** Boxes overlap exactly when some point lies in both. */
  lemma OverlapMeansCommonPoint(a: Box, b: Box)
    requires Valid(a) && Valid(b)
    ensures Overlap(a, b) <==> exists p: seq<real> :: |p| == MaxDim(a, b) && Inside(p, a) && Inside(p, b)
  {
    if Overlap(a, b) {
      var p := seq(MaxDim(a, b), i requires 0 <= i < MaxDim(a, b) => Max(Lo(a, i), Lo(b, i)));
      forall i | 0 <= i < |p| ensures Lo(a, i) <= p[i] <= Hi(a, i) && Lo(b, i) <= p[i] <= Hi(b, i) {
        assert Meet(a, b, i);
        LoBelowHi(a, i);
        LoBelowHi(b, i);
      }
      assert Inside(p, a) && Inside(p, b);
    }
    if p: seq<real> :| |p| == MaxDim(a, b) && Inside(p, a) && Inside(p, b) {
      forall i: nat | i < MaxDim(a, b) ensures Meet(a, b, i) {
        assert Lo(a, i) <= p[i] <= Hi(a, i);
      }
    }
  }

  // ---- Distance ----

  /** distance_1D. */
  function Distance1D(a1: real, a2: real, b1: real, b2: real): real {
    if a1 <= b1 && a2 <= b1 && a1 <= b2 && a2 <= b2 then Min(b1, b2) - Max(a1, a2)
    else if a1 > b1 && a2 > b1 && a1 > b2 && a2 > b2 then Min(a1, a2) - Max(b1, b2)
    else 0.0
  }

  /** Distance of the projections on dimension i. */
  function Gap(a: Box, b: Box, i: nat): (g: real)
    requires Valid(a) && Valid(b)
    ensures g >= 0.0
    ensures g == 0.0 <==> Lo(a, i) <= Hi(b, i) && Lo(b, i) <= Hi(a, i)
  {
    if Hi(a, i) <= Lo(b, i) then Lo(b, i) - Hi(a, i)
    else if Hi(b, i) <= Lo(a, i) then Lo(a, i) - Hi(b, i)
    else 0.0
  }

  function Product(a: real, b: real): (p: real)
    ensures (a > 0.0 && b > 0.0) || (a < 0.0 && b < 0.0) ==> p > 0.0
    ensures a == 0.0 || b == 0.0 ==> p == 0.0
  {
    a * b
  }

  function Square(r: real): (s: real)
    ensures s >= 0.0 && (s == 0.0 <==> r == 0.0)
  {
    Product(r, r)
  }

  ghost function SquaredGaps(a: Box, b: Box, n: nat): real
    requires Valid(a) && Valid(b)
  {
    if n == 0 then 0.0 else SquaredGaps(a, b, n - 1) + Square(Gap(a, b, n - 1))
  }

  /** Square of cube_distance. */
  ghost function SquaredDistance(a: Box, b: Box): real
    requires Valid(a) && Valid(b)
  {
    SquaredGaps(a, b, MaxDim(a, b))
  }

  lemma Distance1DIsGap(a1: real, a2: real, b1: real, b2: real)
    ensures var (la, ha, lb, hb) := (Min(a1, a2), Max(a1, a2), Min(b1, b2), Max(b1, b2));
            Distance1D(a1, a2, b1, b2) ==
            (if ha <= lb then lb - ha else if hb <= la then la - hb else 0.0)
  {
  }

  /** cube_distance before the square root. */
  method CubeDistance(a0: Box, b0: Box) returns (distance: real)
    requires Valid(a0) && Valid(b0)
    ensures distance == SquaredDistance(a0, b0)
  {
    hide *;
    var a, b := a0, b0;
    if a.dim < b.dim { a, b := b, a; }
    distance := 0.0;
    NoGaps(a, b);
    for i := 0 to b.dim
      invariant distance == SquaredGaps(a, b, i)
    {
      GapWithin(a, b, i);
      var d := Distance1D(a.x[i], a.x[i + a.dim], b.x[i], b.x[i + b.dim]);
      distance := distance + Square(d);
    }
    for i := b.dim to a.dim
      invariant distance == SquaredGaps(a, b, i)
    {
      GapToZero(a, b, i);
      var d := Distance1D(a.x[i], a.x[i + a.dim], 0.0, 0.0);
      distance := distance + Square(d);
    }
    GapsSymmetric(a, b, a.dim);
    SquaredDistanceIs(a, b);
    SquaredDistanceIs(b, a);
  }

  lemma {:induction false} NoGaps(a: Box, b: Box)
    requires Valid(a) && Valid(b)
    ensures SquaredGaps(a, b, 0) == 0.0
  {
  }

  lemma {:induction false} SquaredDistanceIs(a: Box, b: Box)
    requires Valid(a) && Valid(b)
    ensures SquaredDistance(a, b) == SquaredGaps(a, b, if a.dim >= b.dim then a.dim else b.dim)
  {
  }

  lemma GapWithin(a: Box, b: Box, i: nat)
    requires Valid(a) && Valid(b) && i < a.dim && i < b.dim
    ensures |a.x| == 2 * a.dim && |b.x| == 2 * b.dim
    ensures var d := Distance1D(a.x[i], a.x[i + a.dim], b.x[i], b.x[i + b.dim]);
            SquaredGaps(a, b, i + 1) == SquaredGaps(a, b, i) + Square(d)
  {
    hide Square, Distance1D;
    Distance1DIsGap(a.x[i], a.x[i + a.dim], b.x[i], b.x[i + b.dim]);
  }

  lemma GapToZero(a: Box, b: Box, i: nat)
    requires Valid(a) && Valid(b) && b.dim <= i < a.dim
    ensures |a.x| == 2 * a.dim
    ensures var d := Distance1D(a.x[i], a.x[i + a.dim], 0.0, 0.0);
            SquaredGaps(a, b, i + 1) == SquaredGaps(a, b, i) + Square(d)
  {
    hide Square, Distance1D;
    Distance1DIsGap(a.x[i], a.x[i + a.dim], 0.0, 0.0);
  }

  lemma {:induction false} GapsSymmetric(a: Box, b: Box, n: nat)
    requires Valid(a) && Valid(b)
    ensures SquaredGaps(a, b, n) == SquaredGaps(b, a, n)
  {
    hide Square;
    if n > 0 {
      GapsSymmetric(a, b, n - 1);
      LoBelowHi(a, n - 1);
      LoBelowHi(b, n - 1);
    }
  }

  /** Squared Euclidean distance of two points on their first n coordinates. */
  ghost function PointDistance(p: seq<real>, q: seq<real>, n: nat): real
    requires n <= |p| && n <= |q|
  {
    if n == 0 then 0.0 else PointDistance(p, q, n - 1) + Square(p[n - 1] - q[n - 1])
  }

  lemma SquareMonotone(g: real, d: real)
    requires 0.0 <= g && (g <= d || g <= -d)
    ensures Square(g) <= Square(d)
  {
    var e := if g <= d then d else -d;
    SquareOfEither(d, e);
    ProductMonotone(g, e, g);
    ProductMonotone(g, e, e);
    ProductCommutes(g, e);
    hide Product;
  }

  lemma ProductMonotone(a: real, b: real, c: real)
    requires a <= b && c >= 0.0
    ensures Product(a, c) <= Product(b, c)
  {
  }

  lemma ProductCommutes(a: real, b: real)
    ensures Product(a, b) == Product(b, a)
  {
  }

  lemma {:induction false} GapsBelowPoints(a: Box, b: Box, p: seq<real>, q: seq<real>, n: nat)
    requires Valid(a) && Valid(b) && n <= |p| && n <= |q| && Inside(p, a) && Inside(q, b)
    ensures SquaredGaps(a, b, n) <= PointDistance(p, q, n)
  {
    hide Square;
    if n > 0 {
      GapsBelowPoints(a, b, p, q, n - 1);
      SquareMonotone(Gap(a, b, n - 1), p[n - 1] - q[n - 1]);
    }
  }

  /** In every dimension some pair of coordinates attains the gap. */
  function NearestIn(a: Box, b: Box, i: nat): (pq: (real, real))
    requires Valid(a) && Valid(b)
    ensures Lo(a, i) <= pq.0 <= Hi(a, i) && Lo(b, i) <= pq.1 <= Hi(b, i)
    ensures pq.0 - pq.1 == Gap(a, b, i) || pq.1 - pq.0 == Gap(a, b, i)
  {
    LoBelowHi(a, i);
    LoBelowHi(b, i);
    if Hi(a, i) <= Lo(b, i) then (Hi(a, i), Lo(b, i))
    else if Hi(b, i) <= Lo(a, i) then (Lo(a, i), Hi(b, i))
    else (Max(Lo(a, i), Lo(b, i)), Max(Lo(a, i), Lo(b, i)))
  }

  lemma {:induction false} NearestAttains(a: Box, b: Box, p: seq<real>, q: seq<real>, n: nat)
    requires Valid(a) && Valid(b) && n <= |p| && n <= |q|
    requires forall i: nat | i < n :: p[i] == NearestIn(a, b, i).0 && q[i] == NearestIn(a, b, i).1
    ensures PointDistance(p, q, n) == SquaredGaps(a, b, n)
  {
    hide Square, NearestIn, Gap;
    if n > 0 {
      NearestAttains(a, b, p, q, n - 1);
      SquareOfEither(p[n - 1] - q[n - 1], Gap(a, b, n - 1));
    }
  }

  lemma SquareOfEither(d: real, g: real)
    requires d == g || -d == g
    ensures Square(d) == Square(g)
  {
  }

  /** cube_distance is the least distance between a point of one box and a point
      of the other. */
  lemma DistanceIsMinimum(a: Box, b: Box)
    requires Valid(a) && Valid(b)
    ensures forall p: seq<real>, q: seq<real> | |p| == |q| == MaxDim(a, b) && Inside(p, a) && Inside(q, b) ::
              SquaredDistance(a, b) <= PointDistance(p, q, MaxDim(a, b))
    ensures exists p: seq<real>, q: seq<real> ::
              && |p| == |q| == MaxDim(a, b) && Inside(p, a) && Inside(q, b)
              && PointDistance(p, q, MaxDim(a, b)) == SquaredDistance(a, b)
  {
    hide Square, NearestIn;
    var n := MaxDim(a, b);
    forall p: seq<real>, q: seq<real> | |p| == |q| == n && Inside(p, a) && Inside(q, b)
      ensures SquaredDistance(a, b) <= PointDistance(p, q, n)
    {
      GapsBelowPoints(a, b, p, q, n);
    }
    var p := seq(n, i requires 0 <= i < n => NearestIn(a, b, i).0);
    var q := seq(n, i requires 0 <= i < n => NearestIn(a, b, i).1);
    NearestAttains(a, b, p, q, n);
    assert Inside(p, a) && Inside(q, b);
  }

  lemma DistanceSymmetric(a: Box, b: Box)
    requires Valid(a) && Valid(b)
    ensures SquaredDistance(a, b) == SquaredDistance(b, a)
  {
    GapsSymmetric(a, b, MaxDim(a, b));
  }

  lemma {:induction false} GapsZeroIff(a: Box, b: Box, n: nat)
    requires Valid(a) && Valid(b)
    ensures SquaredGaps(a, b, n) >= 0.0
    ensures SquaredGaps(a, b, n) == 0.0 <==> forall i: nat | i < n :: Meet(a, b, i)
  {
    hide Square, Lo, Hi;
    if n > 0 {
      GapsZeroIff(a, b, n - 1);
      assert Meet(a, b, n - 1) <==> Gap(a, b, n - 1) == 0.0;
    }
  }

  /** The distance vanishes exactly when cube_overlap_v0 holds. */
  lemma DistanceZeroIffOverlap(a: Box, b: Box)
    requires Valid(a) && Valid(b)
    ensures SquaredDistance(a, b) == 0.0 <==> Overlap(a, b)
  {
    GapsZeroIff(a, b, MaxDim(a, b));
  }
}
