/** cube_cmp_v0 of contrib/cube/cube.cpp. */
module CubeCompare {
  import opened Cube

  /** Lexicographic sign from position k on. */
  ghost function LexFrom(p: seq<real>, q: seq<real>, k: nat): int
    requires |p| == |q| && k <= |p|
    decreases |p| - k
  {
    if k == |p| then 0
    else if p[k] > q[k] then 1
    else if p[k] < q[k] then -1
    else LexFrom(p, q, k + 1)
  }

  function Sign(d: int): int {
    if d > 0 then 1 else if d < 0 then -1 else 0
  }

  /** The numbers of a box in the order they are compared with those of another
      box: lower and upper bounds of the m common dimensions, then lower and upper
      bounds of the rest up to n. */
  ghost function Listed(b: Box, m: nat, n: nat): (r: seq<real>)
    requires Valid(b) && m <= n
    ensures |r| == 2 * n
  {
    seq(2 * n, i requires 0 <= i < 2 * n =>
      if i < m then Lo(b, i) else if i < 2 * m then Hi(b, i - m)
      else if i < m + n then Lo(b, i - m) else Hi(b, i - n))
  }

  ghost function Compare(a: Box, b: Box): int
    requires Valid(a) && Valid(b)
  {
    var m, n := MinDim(a, b), MaxDim(a, b);
    var c := LexFrom(Listed(a, m, n), Listed(b, m, n), 0);
    if c != 0 then c else Sign(a.dim - b.dim)
  }

  lemma LexStep(p: seq<real>, q: seq<real>, k: nat)
    requires |p| == |q| && k < |p|
    ensures LexFrom(p, q, k) == if p[k] > q[k] then 1 else if p[k] < q[k] then -1 else LexFrom(p, q, k + 1)
  {
  }

  lemma ListedAt(b: Box, m: nat, n: nat, from: nat, to: nat, i: nat)
    requires Valid(b) && m <= n && ((from == 0 && to == m) || (from == m && to == n)) && from <= i < to
    ensures Listed(b, m, n)[from + i] == Lo(b, i) && Listed(b, m, n)[to + i] == Hi(b, i)
  {
    hide Lo, Hi;
  }

  /** The comparison of the lower bounds, then of the upper bounds, in one range
      of dimensions; 0 when all agree. */
  method CompareRange(a: Box, b: Box, from: nat, to: nat, ghost m: nat, ghost n: nat) returns (c: int)
    requires Valid(a) && Valid(b) && m == MinDim(a, b) && n == MaxDim(a, b)
    requires (from == 0 && to == m) || (from == m && to == n)
    ensures var p, q := Listed(a, m, n), Listed(b, m, n);
            LexFrom(p, q, 2 * from) == if c != 0 then c else LexFrom(p, q, 2 * to)
  {
    hide Lo, Hi, LexFrom, Listed;
    ghost var p, q := Listed(a, m, n), Listed(b, m, n);
    for i := from to to
      invariant LexFrom(p, q, 2 * from) == LexFrom(p, q, from + i)
    {
      ListedAt(a, m, n, from, to, i);
      ListedAt(b, m, n, from, to, i);
      LexStep(p, q, from + i);
      if Lo(a, i) > Lo(b, i) { return 1; }
      if Lo(a, i) < Lo(b, i) { return -1; }
    }
    for i := from to to
      invariant LexFrom(p, q, 2 * from) == LexFrom(p, q, to + i)
    {
      ListedAt(a, m, n, from, to, i);
      ListedAt(b, m, n, from, to, i);
      LexStep(p, q, to + i);
      if Hi(a, i) > Hi(b, i) { return 1; }
      if Hi(a, i) < Hi(b, i) { return -1; }
    }
    return 0;
  }

  /** cube_cmp_v0. Comparing the dimensions one box lacks with zero is comparing
      with its padding. */
  method CubeCmp(a: Box, b: Box) returns (c: int)
    requires Valid(a) && Valid(b)
    ensures c == Compare(a, b)
  {
    hide Lo, Hi, LexFrom, Listed;
    var m, n := MinDim(a, b), MaxDim(a, b);
    NothingLeft(Listed(a, m, n), Listed(b, m, n));
    c := CompareRange(a, b, 0, m, m, n);
    if c != 0 { return c; }
    c := CompareRange(a, b, m, n, m, n);
    if c != 0 { return c; }
    if a.dim > b.dim { return 1; }
    if a.dim < b.dim { return -1; }
    return 0;
  }

  lemma {:induction false} NothingLeft(p: seq<real>, q: seq<real>)
    requires |p| == |q|
    ensures LexFrom(p, q, |p|) == 0
  {
  }

  // ---- Order properties ----

  lemma {:induction false} LexAntisymmetric(p: seq<real>, q: seq<real>, k: nat)
    requires |p| == |q| && k <= |p|
    ensures LexFrom(p, q, k) == -LexFrom(q, p, k)
    ensures LexFrom(p, q, k) == 0 <==> forall i | k <= i < |p| :: p[i] == q[i]
    decreases |p| - k
  {
    if k < |p| { LexAntisymmetric(p, q, k + 1); }
  }

  lemma {:induction false} LexTransitive(p: seq<real>, q: seq<real>, r: seq<real>, k: nat)
    requires |p| == |q| == |r| && k <= |p|
    requires LexFrom(p, q, k) <= 0 && LexFrom(q, r, k) <= 0
    ensures LexFrom(p, r, k) <= 0
    decreases |p| - k
  {
    if k < |p| && p[k] == q[k] == r[k] { LexTransitive(p, q, r, k + 1); }
  }

  lemma SignAntisymmetric(a: Box, b: Box)
    requires Valid(a) && Valid(b)
    ensures Compare(a, b) == -Compare(b, a)
  {
    hide LexFrom, Listed;
    var m, n := MinDim(a, b), MaxDim(a, b);
    assert m == MinDim(b, a) && n == MaxDim(b, a);
    LexAntisymmetric(Listed(a, m, n), Listed(b, m, n), 0);
  }

  /** Equal bounds in all dimensions from..to. */
  ghost predicate SameBounds(a: Box, b: Box, from: nat, to: nat)
    requires Valid(a) && Valid(b)
  {
    forall i: nat | from <= i < to :: Lo(a, i) == Lo(b, i) && Hi(a, i) == Hi(b, i)
  }

  /** The first difference decides, and the lesser number makes the lesser box: the
      common dimensions come before those that one box lacks, and within either block
      all lower bounds come before the upper ones. */
  lemma FirstDifferenceDecides(a: Box, b: Box, from: nat, to: nat, i: nat, upper: bool)
    requires Valid(a) && Valid(b)
    requires (from == 0 && to == MinDim(a, b)) || (from == MinDim(a, b) && to == MaxDim(a, b))
    requires from <= i < to && SameBounds(a, b, 0, from)
    requires forall j: nat | from <= j < (if upper then to else i) :: Lo(a, j) == Lo(b, j)
    requires upper ==> forall j: nat | from <= j < i :: Hi(a, j) == Hi(b, j)
    requires if upper then Hi(a, i) < Hi(b, i) else Lo(a, i) < Lo(b, i)
    ensures Compare(a, b) == -1
  {
    hide Lo, Hi, LexFrom, Listed;
    var m, n := MinDim(a, b), MaxDim(a, b);
    var p, q := Listed(a, m, n), Listed(b, m, n);
    var at := if upper then to + i else from + i;
    ListedAt(a, m, n, from, to, i);
    ListedAt(b, m, n, from, to, i);
    forall k | 0 <= k < at ensures p[k] == q[k] {
      ListedBefore(a, b, from, to, i, upper, k);
    }
    FirstDifference(p, q, 0, at);
  }

  lemma ListedBefore(a: Box, b: Box, from: nat, to: nat, i: nat, upper: bool, k: nat)
    requires Valid(a) && Valid(b)
    requires (from == 0 && to == MinDim(a, b)) || (from == MinDim(a, b) && to == MaxDim(a, b))
    requires from <= i < to && SameBounds(a, b, 0, from)
    requires forall j: nat | from <= j < (if upper then to else i) :: Lo(a, j) == Lo(b, j)
    requires upper ==> forall j: nat | from <= j < i :: Hi(a, j) == Hi(b, j)
    requires k < (if upper then to + i else from + i)
    ensures var m, n := MinDim(a, b), MaxDim(a, b); Listed(a, m, n)[k] == Listed(b, m, n)[k]
  {
    hide Lo, Hi, Listed;
    var m, n := MinDim(a, b), MaxDim(a, b);
    var f, t := if k < 2 * from then 0 else from, if k < 2 * from then from else to;
    var j := if k < f + t then k - f else k - t;
    ListedAt(a, m, n, f, t, j);
    ListedAt(b, m, n, f, t, j);
  }

  /** Of boxes that agree in every dimension, the one with fewer is the lesser. */
  lemma FewerDimensionsFirst(a: Box, b: Box)
    requires Valid(a) && Valid(b) && a.dim < b.dim && SameBounds(a, b, 0, b.dim)
    ensures Compare(a, b) == -1
  {
    hide Lo, Hi, LexFrom, Listed;
    var m, n := MinDim(a, b), MaxDim(a, b);
    var p, q := Listed(a, m, n), Listed(b, m, n);
    LexAntisymmetric(p, q, 0);
    forall k | 0 <= k < |p| ensures p[k] == q[k] {
      var f, t := if k < 2 * m then 0 else m, if k < 2 * m then m else n;
      var j := if k < f + t then k - f else k - t;
      ListedAt(a, m, n, f, t, j);
      ListedAt(b, m, n, f, t, j);
    }
  }

  /** Zero exactly for boxes of equal dimension with equal normalised corners. */
  lemma ZeroIffSame(a: Box, b: Box)
    requires Valid(a) && Valid(b)
    ensures Compare(a, b) == 0 <==>
            a.dim == b.dim && forall i: nat | i < a.dim :: Lo(a, i) == Lo(b, i) && Hi(a, i) == Hi(b, i)
  {
    hide Lo, Hi, LexFrom;
    var m, n := MinDim(a, b), MaxDim(a, b);
    var p, q := Listed(a, m, n), Listed(b, m, n);
    LexAntisymmetric(p, q, 0);
    if a.dim == b.dim {
      if forall i: nat | i < a.dim :: Lo(a, i) == Lo(b, i) && Hi(a, i) == Hi(b, i) {
        forall k | 0 <= k < |p| ensures p[k] == q[k] {
          var i := if k < m then k else k - m;
          ListedAt(a, m, n, 0, m, i);
          ListedAt(b, m, n, 0, m, i);
        }
      }
      if forall k | 0 <= k < |p| :: p[k] == q[k] {
        forall i: nat | i < a.dim ensures Lo(a, i) == Lo(b, i) && Hi(a, i) == Hi(b, i) {
          ListedAt(a, m, n, 0, m, i);
          ListedAt(b, m, n, 0, m, i);
          assert p[i] == q[i] && p[m + i] == q[m + i];
        }
      }
    }
  }

  // ---- Transitivity ----

  /** A valid box of one of the given dimensions. */
  ghost predicate Among(b: Box, dims: iset<nat>) {
    Valid(b) && b.dim in dims
  }

  ghost predicate TransitiveOn(dims: iset<nat>) {
    forall a: Box, b: Box, c: Box |
      && Among(a, dims) && Among(b, dims) && Among(c, dims)
      && Compare(a, b) <= 0 && Compare(b, c) <= 0 :: Compare(a, c) <= 0
  }

  /** The comparison orders the boxes of a class transitively exactly when the class
      knows one dimension only, not counting the boxes without any. */
  lemma TransitiveIff(dims: iset<nat>)
    ensures TransitiveOn(dims) <==> forall p, q | p in dims && q in dims && p > 0 && q > 0 :: p == q
  {
    hide Compare;
    if p, q :| p in dims && q in dims && 0 < p < q {
      CycleAcross(p, q);
      assert Among(Sample(q, p, 4.0, 0.0), dims) && Among(Sample(q, p, 2.0, 1.0), dims);
      assert Among(Flat(p, 3.0), dims);
    } else {
      forall a: Box, b: Box, c: Box |
        && Among(a, dims) && Among(b, dims) && Among(c, dims)
        && Compare(a, b) <= 0 && Compare(b, c) <= 0
        ensures Compare(a, c) <= 0
      {
        TransitiveAtOneDimension(a, b, c, Largest(a.dim, b.dim, c.dim));
      }
    }
  }

  function Largest(i: nat, j: nat, k: nat): nat {
    if i >= j && i >= k then i else if j >= k then j else k
  }

  /** Within one dimension, and the boxes without any, the comparison is transitive. */
  lemma TransitiveAtOneDimension(a: Box, b: Box, c: Box, d: nat)
    requires Valid(a) && Valid(b) && Valid(c) && forall x | x in [a, b, c] :: x.dim == d || x.dim == 0
    requires Compare(a, b) <= 0 && Compare(b, c) <= 0
    ensures Compare(a, c) <= 0
  {
    hide Compare, LexFrom, Listed;
    assert a in [a, b, c] && b in [a, b, c] && c in [a, b, c];
    OneList(a, b, d);
    OneList(b, c, d);
    OneList(a, c, d);
    var p, q, r := Listed(a, d, d), Listed(b, d, d), Listed(c, d, d);
    LexTransitive(p, q, r, 0);
    if LexFrom(p, r, 0) == 0 {
      LexAntisymmetric(p, r, 0);
      assert p == r;
      LexAntisymmetric(p, q, 0);
    }
  }

  /** Up to boxes without dimensions, one list serves for every comparison. */
  lemma OneList(a: Box, b: Box, d: nat)
    requires Valid(a) && Valid(b) && (a.dim == d || a.dim == 0) && (b.dim == d || b.dim == 0)
    ensures var c := LexFrom(Listed(a, d, d), Listed(b, d, d), 0);
            Compare(a, b) == if c != 0 then c else Sign(a.dim - b.dim)
  {
    hide LexFrom;
    var m, n := MinDim(a, b), MaxDim(a, b);
    if n == d {
      assert Listed(a, m, n) == Listed(a, d, d) && Listed(b, m, n) == Listed(b, d, d);
    } else {
      LexAntisymmetric(Listed(a, 0, 0), Listed(b, 0, 0), 0);
      LexAntisymmetric(Listed(a, d, d), Listed(b, d, d), 0);
    }
  }

  /** Zero but for an upper bound h in the first dimension and bounds l in dimension p. */
  ghost function Sample(d: nat, p: nat, h: real, l: real): Box {
    Box(d, seq(2 * d, i requires 0 <= i < 2 * d => if i == d then h else if i == p || i == d + p then l else 0.0))
  }

  ghost function Flat(d: nat, h: real): Box {
    Box(d, seq(2 * d, i requires 0 <= i < 2 * d => if i == d then h else 0.0))
  }

  /** For any two dimensions there is a cycle: the upper bound of the first dimension
      counts before the lower bound of dimension p in one comparison and after it in
      the other. */
  lemma CycleAcross(p: nat, q: nat)
    requires 0 < p < q
    ensures var a, b, c := Sample(q, p, 2.0, 1.0), Flat(p, 3.0), Sample(q, p, 4.0, 0.0);
            Compare(a, b) < 0 && Compare(b, c) < 0 && Compare(a, c) > 0
  {
    hide LexFrom, Listed;
    var a, b, c := Sample(q, p, 2.0, 1.0), Flat(p, 3.0), Sample(q, p, 4.0, 0.0);
    forall k | 0 <= k <= p
      ensures Listed(a, p, q)[k] == (if k < p then 0.0 else 2.0) && Listed(b, p, q)[k] == (if k < p then 0.0 else 3.0)
      ensures Listed(c, p, q)[k] == (if k < p then 0.0 else 4.0)
      ensures Listed(a, q, q)[k] == (if k < p then 0.0 else 1.0) && Listed(c, q, q)[k] == 0.0
    {
      if k < p {
        ListedAt(a, p, q, 0, p, k);
        ListedAt(b, p, q, 0, p, k);
        ListedAt(c, p, q, 0, p, k);
      }
      ListedAt(a, p, q, 0, p, 0);
      ListedAt(b, p, q, 0, p, 0);
      ListedAt(c, p, q, 0, p, 0);
      ListedAt(a, q, q, 0, q, k);
      ListedAt(c, q, q, 0, q, k);
    }
    FirstDifference(Listed(a, p, q), Listed(b, p, q), 0, p);
    FirstDifference(Listed(b, p, q), Listed(c, p, q), 0, p);
    FirstDifference(Listed(a, q, q), Listed(c, q, q), 0, p);
  }

  lemma {:induction false} FirstDifference(x: seq<real>, y: seq<real>, from: nat, k: nat)
    requires |x| == |y| && from <= k < |x| && x[k] != y[k] && forall i | from <= i < k :: x[i] == y[i]
    ensures LexFrom(x, y, from) == if x[k] > y[k] then 1 else -1
    decreases k - from
  {
    if from < k { FirstDifference(x, y, from + 1, k); }
  }

  /** Such a cycle in one and two dimensions. */
  lemma NotTransitiveAcrossDimensions()
    ensures var a := Box(2, [0.0, 1.0, 2.0, 1.0]);
            var b := Box(1, [0.0, 3.0]);
            var c := Box(2, [0.0, 0.0, 4.0, 0.0]);
            Compare(a, b) < 0 && Compare(b, c) < 0 && Compare(a, c) > 0
  {
    hide Compare;
    CycleAcross(1, 2);
    assert Sample(2, 1, 2.0, 1.0) == Box(2, [0.0, 1.0, 2.0, 1.0]);
    assert Flat(1, 3.0) == Box(1, [0.0, 3.0]);
    assert Sample(2, 1, 4.0, 0.0) == Box(2, [0.0, 0.0, 4.0, 0.0]);
  }
}
