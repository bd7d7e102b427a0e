/** Splits of pages of internal entries: both sides are cut at one length, which may
    be too long for the side with the shorter common prefix. */
module VarKeyLoss {
  import opened ByteString
  import opened VarKey
  import opened VarKeyTree
  import opened Entries

  // ---- What a cut does to the values near a key ----

  /** The bytes of the upper bound kept beyond the two that separate the bounds
      are all 0xFF, so nothing near the key sorts after them. */
  ghost predicate KeepsOnlyMaximalBytes(r: Range, cpfLength: nat) {
    forall p | Shared(r) + 2 <= p < |r.upper| && p <= cpfLength :: r.upper[p] == 255
  }

  /** Exactly when truncating a joined key at a length taken from its sibling
      keeps every value that may lie near it. */
  lemma SharedTruncationLosesNothingIff(r: Range, cpfLength: nat)
    requires Ordered(r) && cpfLength >= Shared(r) + 1
    ensures (forall v | Near(r, v) :: Found(NodeTruncate(r, cpfLength), v))
            <==> IsPrefix(r.lower, r.upper) || KeepsOnlyMaximalBytes(r, cpfLength)
  {
    hide CommonPrefix;
    if IsPrefix(r.lower, r.upper) || KeepsOnlyMaximalBytes(r, cpfLength) {
      forall v | Near(r, v) ensures Found(NodeTruncate(r, cpfLength), v) {
        forall q, strategy | Satisfies(v, q, strategy)
          ensures Consistent(NodeTruncate(r, cpfLength), q, strategy, false)
        {
          SharedTruncationKeeps(r, cpfLength, v, q, strategy);
        }
      }
    } else {
      var p :| Shared(r) + 2 <= p < |r.upper| && p <= cpfLength && r.upper[p] != 255;
      CutRejects(r, cpfLength, p, r.upper[..p] + [255]);
    }
  }

  lemma SharedTruncationKeeps(r: Range, cpfLength: nat, v: Bytes, q: Bytes, strategy: Strategy)
    requires Ordered(r) && cpfLength >= Shared(r) + 1 && Near(r, v) && Satisfies(v, q, strategy)
    requires IsPrefix(r.lower, r.upper) || KeepsOnlyMaximalBytes(r, cpfLength)
    ensures Consistent(NodeTruncate(r, cpfLength), q, strategy, false)
  {
    hide CommonPrefix;
    if Leq(v, r.upper) {
      LongTruncationCovers(r, v, cpfLength);
      CoveredStep(NodeTruncate(r, cpfLength), v, q, strategy);
    } else if KeepsOnlyMaximalBytes(r, cpfLength) {
      MaximalTailIsCommon(r, cpfLength, v);
      CutToPrefixCovers(r, cpfLength, v);
      CoveredStep(NodeTruncate(r, cpfLength), v, q, strategy);
    } else {
      PrefixLowerMatches(r, cpfLength, v, q, strategy);
    }
  }

  lemma {:induction false} MaximalTailIsCommon(r: Range, cpfLength: nat, v: Bytes)
    requires Near(r, v) && !Leq(v, r.upper) && KeepsOnlyMaximalBytes(r, cpfLength)
    ensures CommonPrefix(r.upper, v) >= |Truncate(r.upper, cpfLength + 1)|
  {
    hide CommonPrefix;
    CommonPrefixSymmetric(v, r.upper);
  }

  /** An upper bound cut to a prefix of v covers it. */
  lemma {:induction false} CutToPrefixCovers(r: Range, cpfLength: nat, v: Bytes)
    requires Ordered(r) && cpfLength >= Shared(r) + 1 && Near(r, v) && !Leq(v, r.upper)
    requires CommonPrefix(r.upper, v) >= |Truncate(r.upper, cpfLength + 1)|
    ensures Ordered(NodeTruncate(r, cpfLength)) && Covers(NodeTruncate(r, cpfLength), v)
  {
    hide CommonPrefix, Compare;
    var u := Truncate(r.upper, cpfLength + 1);
    TruncateBoth(r.lower, r.upper, cpfLength + 1);
    TruncateFacts(r.lower, cpfLength + 1);
    Between(Truncate(r.lower, cpfLength + 1), r.lower, v);
    assert v[..|u|] == u;
  }

  /** When the lower bound is a prefix of the upper one, it is a prefix of every
      value near the key, and the prefix test answers yes. */
  lemma PrefixLowerMatches(r: Range, cpfLength: nat, v: Bytes, q: Bytes, strategy: Strategy)
    requires Ordered(r) && cpfLength >= Shared(r) + 1 && Near(r, v) && !Leq(v, r.upper)
    requires IsPrefix(r.lower, r.upper) && Satisfies(v, q, strategy)
    ensures Consistent(NodeTruncate(r, cpfLength), q, strategy, false)
  {
    hide CommonPrefix;
    var key := NodeTruncate(r, cpfLength);
    PrefixFacts(r.lower, r.upper);
    assert key.lower == r.lower;
    assert |key.upper| > |key.lower|;
    TruncateFacts(r.upper, cpfLength + 1);
    CompareIsOrder(q, key.lower);
    CompareIsOrder(q, key.upper);
    CompareIsOrder(q, v);
    assert IsPrefix(r.lower, v);
    match strategy
    case Less | LessEqual => Between(r.lower, v, q);
    case Equal =>
    case Greater | GreaterEqual =>
      if !Leq(q, key.upper) {
        PrefixFacts(r.lower, key.upper);
        PrefixFacts(r.lower, v);
        Between(r.lower, key.upper, q);
        Between(r.lower, q, v);
        PrefixFromCommon(r.lower, q);
      }
    case NotEqual =>
  }

  lemma NotPrefixAt(p: Bytes, b: Bytes, k: nat)
    requires k < |p| && k < |b| && p[k] != b[k]
    ensures !IsPrefix(p, b)
  {
    if |p| <= |b| { assert b[..|p|][k] == b[k]; }
  }

  /** A value that leaves the upper bound within the cut is not found. */
  lemma CutRejects(r: Range, cpfLength: nat, p: nat, v: Bytes)
    requires Ordered(r) && !IsPrefix(r.lower, r.upper)
    requires Shared(r) + 2 <= p < |r.upper| && p <= cpfLength && r.upper[p] != 255
    requires v == r.upper[..p] + [255]
    ensures Near(r, v) && !Found(NodeTruncate(r, cpfLength), v)
  {
    hide CommonPrefix;
    var key := NodeTruncate(r, cpfLength);
    CommonPrefixIs(r.upper, v, p);
    Between(r.lower, r.upper, v);
    assert Near(r, v);
    var k := Shared(r);
    if k == |r.lower| { PrefixFromCommon(r.lower, r.upper); }
    assert k < |r.lower| && r.lower[k] != r.upper[k] == v[k];
    NotPrefixAt(key.lower, v, k);
    NotPrefixAt(key.upper, v, p);
    CommonPrefixIs(v, key.upper, p);
    assert !Consistent(key, v, Equal, false);
    assert Satisfies(v, v, Equal);
  }

  // ---- Which splits can lose a stored value ----

  /** At byte p the cut upper bound can be exceeded by a value below. Right after the
      two bytes that separate the bounds, that needs room between them for the key
      the value lies under. */
  ghost predicate HarmsAt(r: Range, cpfLength: nat, p: nat) {
    var k := Shared(r);
    && k < |r.lower| && k + 2 <= p < |r.upper| && p <= cpfLength && r.upper[p] != 255
    && (p >= k + 3 || |r.lower| <= k + 2 || r.lower[k + 1] < 255 || r.upper[k] as int > r.lower[k] as int + 1)
  }

  /** The bounds and the length that make a split side lose nothing. */
  ghost predicate CutIsSafe(r: Range, cpfLength: nat) {
    IsPrefix(r.lower, r.upper) || !exists p :: HarmsAt(r, cpfLength, p)
  }

  /** A key that finds every value below it: any but the side of an internal split
      with an unsafe cut. */
  ghost predicate Keeps(h: History)
    requires Proper(h)
  {
    IsInternalSplit(h) ==> CutIsSafe(Joined(h), h.cpfLength)
  }

  // ---- Safe cuts lose nothing ----

  /** v exceeds l in byte k by one, and l goes on with 255 and another byte: no string
      cut to k + 2 bytes lies between them without agreeing with v up to byte k. */
  ghost predicate Tight(l: Bytes, v: Bytes, k: nat) {
    && k + 2 < |l| && k + 2 < |v| && l[..k] == v[..k]
    && v[k] as int == l[k] as int + 1 && l[k + 1] == 255
  }

  /** The key reaches above the first k + 3 bytes of v, or below l. */
  ghost predicate Escapes(key: Range, l: Bytes, v: Bytes, k: nat)
    requires k + 3 <= |v|
  {
    Leq(v[..k + 3], key.upper) || !Leq(l, key.lower)
  }

  lemma CutAbove(w: Bytes, b: Bytes, m: nat)
    requires Leq(w, b) && |w| <= m
    ensures Leq(w, Truncate(b, m))
  {
    hide CommonPrefix, Compare;
    TruncateBoth(w, b, m);
  }

  lemma AgreesUpTo(l: Bytes, lo: Bytes, v: Bytes, k: nat)
    requires Tight(l, v, k) && |lo| <= k + 2 && Leq(l, lo) && Leq(lo, v)
    ensures k + 1 <= |lo| && lo[..k + 1] == v[..k + 1]
  {
    hide CommonPrefix;
    var i := CommonPrefix(l, lo);
    assert i < |lo| && l[i] < lo[i];
    assert forall j | 0 <= j < k :: l[j] == l[..k][j] == v[..k][j] == v[j];
    NotAbove(lo, v, i);
  }

  lemma NotAbove(a: Bytes, b: Bytes, i: nat)
    requires Leq(a, b) && i < |a| && i < |b| && forall j | 0 <= j < i :: a[j] == b[j]
    ensures a[i] <= b[i]
  {
    hide CommonPrefix;
    if a[i] != b[i] { CommonPrefixIs(a, b, i); }
  }

  /** Bounds that part inside the first k + 1 bytes of v keep the upper one above it. */
  lemma {:induction false} PartsBelow(lo: Bytes, up: Bytes, v: Bytes, k: nat, m: nat)
    requires Leq(lo, up) && k + 2 < |v| && k + 1 <= |lo| && lo[..k + 1] == v[..k + 1]
    requires CommonPrefix(lo, up) <= k && CommonPrefix(lo, up) < m
    ensures Leq(v[..k + 3], Truncate(up, m))
  {
    hide CommonPrefix;
    var s := CommonPrefix(lo, up);
    var w, u := v[..k + 3], Truncate(up, m);
    assert s < |up| && lo[s] < up[s];
    assert forall j | 0 <= j <= k :: lo[j] == lo[..k + 1][j] == v[..k + 1][j] == w[j];
    assert forall j | 0 <= j < s :: u[j] == up[j] == w[j];
    CommonPrefixIs(w, u, s);
  }

  lemma CutKeepsEscape(r: Range, n: nat, l: Bytes, v: Bytes, k: nat)
    requires Ordered(r) && Near(r, v) && n >= Shared(r) + 1 && Tight(l, v, k)
    requires Escapes(r, l, v, k)
    ensures Escapes(NodeTruncate(r, n), l, v, k)
  {
    hide Leq, Truncate, Tight;
    var lo := Truncate(r.lower, n + 1);
    TruncateFacts(r.lower, n + 1);
    TightIsLong(l, v, k);
    if Leq(l, lo) {
      Between(l, lo, r.lower);
      if n + 1 >= k + 3 {
        CutAbove(v[..k + 3], r.upper, n + 1);
      } else {
        ShortCutStaysAbove(r, n + 1, l, v, k);
      }
    }
  }

  lemma ShortCutStaysAbove(r: Range, m: nat, l: Bytes, v: Bytes, k: nat)
    requires Ordered(r) && Leq(r.lower, v) && Shared(r) + 2 <= m <= k + 2
    requires Tight(l, v, k) && Leq(l, Truncate(r.lower, m))
    ensures k + 3 <= |v| && Leq(v[..k + 3], Truncate(r.upper, m))
  {
    hide CommonPrefix, Leq;
    var lo := Truncate(r.lower, m);
    TruncateFacts(r.lower, m);
    Between(lo, r.lower, v);
    AgreesUpTo(l, lo, v, k);
    assert r.lower[..k + 1] == lo[..k + 1];
    PartsBelow(r.lower, r.upper, v, k, m);
  }

  lemma {:induction false} JoinKeepsEscape(ks: seq<Range>, i: nat, l: Bytes, v: Bytes, k: nat)
    requires i < |ks| && k + 3 <= |v| && Escapes(ks[i], l, v, k)
    ensures Escapes(JoinAll(ks), l, v, k)
  {
    hide Compare, CommonPrefix, JoinAll;
    var r := JoinAll(ks);
    JoinAllBounds(ks, i);
    if Leq(v[..k + 3], ks[i].upper) {
      Between(v[..k + 3], ks[i].upper, r.upper);
    } else if Leq(l, r.lower) {
      Between(l, r.lower, ks[i].lower);
    }
  }

  /** Through any history, keys above v escape. */
  lemma {:induction false} KeyEscapes(h: History, l: Bytes, v: Bytes, k: nat)
    requires Proper(h) && Below(v, h) && Tight(l, v, k)
    ensures Escapes(KeyOf(h), l, v, k)
    ensures !h.Leaf? ==> Escapes(Joined(h), l, v, k)
  {
    hide JoinAll, Near, Ordered, Escapes, Tight;
    if h.Leaf? {
      LeafEscapes(l, v, k);
    } else {
      var i :| 0 <= i < |h.parts| && Below(v, h.parts[i]);
      KeyEscapes(h.parts[i], l, v, k);
      KeysOfAt(h.parts, i);
      TightIsLong(l, v, k);
      JoinKeepsEscape(KeysOf(h.parts), i, l, v, k);
      JoinedOrdered(h);
      KeyIsNear(h, v);
      CutKeepsEscape(Joined(h), if h.Union? then Shared(Joined(h)) + 1 else h.cpfLength, l, v, k);
    }
  }

  lemma TightIsLong(l: Bytes, v: Bytes, k: nat)
    requires Tight(l, v, k)
    ensures k + 3 <= |v|
  {
  }

  lemma LeafEscapes(l: Bytes, v: Bytes, k: nat)
    requires Tight(l, v, k)
    ensures k + 3 <= |v| && Escapes(Range(v, v), l, v, k)
  {
    hide CommonPrefix, Compare;
    assert v[..k + 3] == Truncate(v, k + 3);
    TruncateFacts(v, k + 3);
  }

  /** So no value below leaves the joined upper bound in byte k + 2. */
  lemma {:induction false} TightHoldsNone(h: History, v: Bytes, k: nat)
    requires Proper(h) && !h.Leaf? && Below(v, h) && !Leq(v, Joined(h).upper)
    requires CommonPrefix(Joined(h).upper, v) == k + 2 < |Joined(h).upper|
    ensures !Tight(Joined(h).lower, v, k)
  {
    hide CommonPrefix, JoinAll, Leq;
    if Tight(Joined(h).lower, v, k) {
      KeyEscapes(h, Joined(h).lower, v, k);
      LeqItself(Joined(h).lower);
      LeavesAbove(Joined(h).upper, v, k + 2);
    }
  }

  lemma LeqItself(b: Bytes)
    ensures Leq(b, b)
  {
    CompareIsOrder(b, b);
  }

  lemma {:induction false} LeavesAbove(u: Bytes, v: Bytes, p: nat)
    requires CommonPrefix(u, v) == p < |u| && p < |v| && !Leq(v, u)
    ensures !Leq(v[..p + 1], u)
  {
    hide CommonPrefix;
    CommonPrefixSymmetric(u, v);
    CommonPrefixIs(v[..p + 1], u, p);
  }

  /** Where a value beyond the upper bound leaves it, a safe cut is a tight one. */
  lemma {:induction false} SafeCutIsTight(r: Range, cpfLength: nat, v: Bytes)
    requires Ordered(r) && Near(r, v) && !Leq(v, r.upper)
    requires !IsPrefix(r.lower, r.upper) && CutIsSafe(r, cpfLength)
    requires CommonPrefix(r.upper, v) < |r.upper| && CommonPrefix(r.upper, v) <= cpfLength
    ensures CommonPrefix(r.upper, v) == Shared(r) + 2 && Tight(r.lower, v, Shared(r))
  {
    hide CommonPrefix;
    var k, p := Shared(r), CommonPrefix(r.upper, v);
    CommonPrefixSymmetric(r.upper, v);
    if k == |r.lower| { PrefixFromCommon(r.lower, r.upper); }
    assert p < |v| && r.upper[p] < v[p];
    assert r.lower[k] < r.upper[k];
    assert !HarmsAt(r, cpfLength, p);
    assert forall j | 0 <= j < k :: r.lower[j] == r.upper[j] == v[j];
  }

  /** The side of an internal split with a safe cut finds every value below it. */
  lemma {:induction false} SafeCutFinds(h: History, v: Bytes, q: Bytes, strategy: Strategy)
    requires Proper(h) && h.SplitSide? && Below(v, h) && CutIsSafe(Joined(h), h.cpfLength)
    requires Satisfies(v, q, strategy)
    ensures Consistent(KeyOf(h), q, strategy, false)
  {
    hide CommonPrefix, JoinAll, Satisfies, Consistent, CutIsSafe, Tight, Near, Covers;
    var r, n := Joined(h), h.cpfLength;
    JoinedOrdered(h);
    KeyIsNear(h, v);
    if Leq(v, r.upper) {
      NearIsAbove(r, v);
      LongTruncationCovers(r, v, n);
      CoveredStep(KeyOf(h), v, q, strategy);
    } else if IsPrefix(r.lower, r.upper) {
      PrefixLowerMatches(r, n, v, q, strategy);
    } else {
      if CommonPrefix(r.upper, v) < |Truncate(r.upper, n + 1)| {
        SafeCutIsTight(r, n, v);
        TightHoldsNone(h, v, Shared(r));
      }
      CutToPrefixCovers(r, n, v);
      CoveredStep(KeyOf(h), v, q, strategy);
    }
  }

  lemma NearIsAbove(r: Range, v: Bytes)
    requires Near(r, v)
    ensures Leq(r.lower, v)
  {
  }

  /** No row is lost: whatever a value satisfies, every key above it that keeps
      accepts, whatever splits came before. */
  lemma {:induction false} NoRowLost(h: History, v: Bytes, q: Bytes, strategy: Strategy)
    requires Proper(h) && Below(v, h) && Keeps(h) && Satisfies(v, q, strategy)
    ensures Consistent(KeyOf(h), q, strategy, false)
  {
    hide JoinAll, CutIsSafe, Covers, Ordered, Satisfies, Consistent;
    if IsInternalSplit(h) {
      SafeCutFinds(h, v, q, strategy);
    } else {
      KeyOrdered(h);
      KeyCovers(h, v);
      CoveredStep(KeyOf(h), v, q, strategy);
    }
  }

  // ---- Pages and their halves ----

  ghost predicate NoLeaves(hs: seq<History>) {
    forall i | 0 <= i < |hs| :: !hs[i].Leaf?
  }

  /** l and s are the halves of a page of internal entries in sort order, cut at the
      length the split takes from both. */
  ghost predicate IsPageSplit(l: History, s: History) {
    && Proper(l) && Proper(s) && l.SplitSide? && s.SplitSide?
    && NoLeaves(l.parts + s.parts) && |l.parts| == |l.parts + s.parts| / 2
    && AllInOrder(KeysOf(l.parts + s.parts), SortsBefore)
    && l.cpfLength == s.cpfLength == Max(Shared(Joined(l)), Shared(Joined(s))) + 1
  }

  /** h is one half of such a page, with the joined bounds r and the length n. */
  ghost predicate IsSideOf(h: History, r: Range, n: nat) {
    && Proper(h) && h.SplitSide? && Joined(h) == r && h.cpfLength == n
    && exists s :: IsPageSplit(h, s) || IsPageSplit(s, h)
  }

  /** Of the two halves only the one with the shorter common prefix can lose a value. */
  lemma OneSideKeeps(l: History, s: History)
    requires IsPageSplit(l, s)
    ensures Shared(Joined(l)) >= Shared(Joined(s)) ==> Keeps(l)
    ensures Shared(Joined(s)) >= Shared(Joined(l)) ==> Keeps(s)
  {
    hide CommonPrefix, JoinAll;
  }

  // ---- Unsafe cuts lose a value ----

  /** A page of one leaf, as a split may leave it. */
  lemma SingleLeaf(b: Bytes) returns (h: History)
    ensures h == SplitSide([Leaf(b)], |b| + 1) && Proper(h) && KeyOf(h) == Range(b, b)
  {
    hide CommonPrefix;
    h := SplitSide([Leaf(b)], |b| + 1);
    KeysOfAt([Leaf(b)], 0);
    assert KeysOf([Leaf(b)]) == [Range(b, b)];
    CommonPrefixIs(b, b, |b|);
    assert AllProper([Leaf(b)]);
  }

  /** A page of two leaves, cut by a split beyond their ends. */
  lemma WholePair(a: Bytes, b: Bytes) returns (h: History)
    requires Leq(a, b)
    ensures h.SplitSide? && Proper(h) && KeyOf(h) == Range(a, b)
  {
    hide Compare;
    var parts := [Leaf(a), Leaf(b)];
    h := SplitSide(parts, |a| + |b| + 1);
    KeysOfAt(parts, 0);
    KeysOfAt(parts, 1);
    assert KeysOf(parts) == [Range(a, a), Range(b, b)];
    JoinInOrder(Range(a, a), Range(b, b));
    assert AllProper(parts);
  }

  /** A page of two leaves and its key from a union. */
  lemma PairUnion(a: Bytes, b: Bytes) returns (h: History)
    requires Leq(a, b)
    ensures h == Union([Leaf(a), Leaf(b)]) && Proper(h) && Below(b, h)
    ensures var n := CommonPrefix(a, b) + 2; KeyOf(h) == Range(Truncate(a, n), Truncate(b, n))
  {
    hide CommonPrefix, Compare;
    var parts := [Leaf(a), Leaf(b)];
    h := Union(parts);
    KeysOfAt(parts, 0);
    KeysOfAt(parts, 1);
    assert KeysOf(parts) == [Range(a, a), Range(b, b)];
    JoinInOrder(Range(a, a), Range(b, b));
    assert AllProper(parts);
    assert Below(b, parts[1]);
  }

  lemma JoinInOrder(a: Range, b: Range)
    requires Leq(a.lower, b.lower) && Leq(a.upper, b.upper)
    ensures JoinAll([a, b]) == Range(a.lower, b.upper)
  {
    hide CommonPrefix;
    CompareIsOrder(a.lower, b.lower);
    CompareIsOrder(a.upper, b.upper);
    assert [a, b][..1] == [a];
  }

  lemma JoinOfThree(a: Range, b: Range, c: Range)
    requires Leq(a.lower, b.lower) && Leq(b.lower, c.lower)
    requires Leq(a.upper, b.upper) && Leq(b.upper, c.upper)
    ensures JoinAll([a, b, c]) == Range(a.lower, c.upper)
  {
    hide CommonPrefix, Compare, Leq, Least, Greatest;
    var ks := [a, b, c];
    assert ks[..2] == [a, b];
    JoinInOrder(a, b);
    Between(a.lower, b.lower, c.lower);
    var two := [Range(a.lower, b.upper), c];
    JoinInOrder(two[0], two[1]);
    assert two[..1] == [two[0]];
    assert JoinAll(ks) == Join(JoinAll(ks[..2]), ks[2]);
    assert JoinAll(two) == Join(JoinAll(two[..1]), two[1]);
  }

  /** Where the leaf beside v parts from it: below the upper bound in byte k, or as the
      first k + 1 bytes of it. */
  ghost predicate PartsAt(y: Bytes, u: Bytes, k: nat, c: nat, p: nat) {
    && k < |u| && k < |y| && c <= p && y[..k] == u[..k]
    && if c == k + 2 then y[k] < u[k] else c == k + 3 && y == u[..k + 1]
  }

  /** A leaf to pair with v so that the key of both stays within the bounds. */
  lemma Companion(r: Range, cpfLength: nat, p: nat, v: Bytes) returns (y: Bytes)
    requires Ordered(r) && HarmsAt(r, cpfLength, p) && v == r.upper[..p] + [255]
    ensures Leq(y, v) && PartsAt(y, r.upper, Shared(r), CommonPrefix(y, v) + 2, p)
    ensures Leq(r.lower, Truncate(y, CommonPrefix(y, v) + 2))
  {
    hide CommonPrefix;
    var l, k := r.lower, Shared(r);
    assert l[k] < r.upper[k] == v[k];
    assert forall j | 0 <= j < k :: l[j] == r.upper[j] == v[j];
    if p >= k + 3 {
      y := v[..k + 1];
      CommonPrefixIs(y, v, k + 1);
      CommonPrefixIs(l, y, k);
    } else if |l| <= k + 2 {
      y := l;
      CommonPrefixIs(y, v, k);
      CompareIsOrder(l, l);
    } else if l[k + 1] < 255 {
      y := l[..k + 1] + [l[k + 1] + 1];
      CommonPrefixIs(y, v, k);
      CommonPrefixIs(l, y, k + 1);
    } else {
      y := l[..k] + [l[k] + 1];
      CommonPrefixIs(y, v, k);
      CommonPrefixIs(l, y, k);
    }
  }

  lemma {:induction false} InPart(v: Bytes, h: History, i: nat)
    requires !h.Leaf? && i < |h.parts| && Below(v, h.parts[i])
    ensures Below(v, h)
  {
  }

  lemma HarmIsCut(r: Range, n: nat, p: nat)
    requires HarmsAt(r, n, p)
    ensures Shared(r) + 2 <= p < |r.upper| && p <= n && r.upper[p] != 255 && Shared(r) < |r.lower|
  {
    hide CommonPrefix;
  }

  /** The key of the pair stays below the upper bound. */
  lemma CutOfPair(u: Bytes, v: Bytes, y: Bytes, p: nat, k: nat)
    requires p < |u| && v == u[..p] + [255] && Leq(y, v) && PartsAt(y, u, k, CommonPrefix(y, v) + 2, p)
    ensures var c := CommonPrefix(y, v) + 2;
            Leq(Truncate(v, c), u) && Leq(Truncate(y, c), Truncate(v, c))
  {
    hide CommonPrefix, Compare;
    var c := CommonPrefix(y, v) + 2;
    assert Truncate(v, c) == Truncate(u, c);
    TruncateFacts(u, c);
    TruncateBoth(y, v, c);
  }

  /** A string of the given length that begins like u, filled up with zeros. */
  function Filled(u: Bytes, n: nat): (b: Bytes)
    ensures |b| == n && forall i | 0 <= i < n && i < |u| :: b[i] == u[i]
  {
    if n <= |u| then u[..n] else u + seq(n - |u|, _ => 0)
  }

  /** The sibling's key comes after both bounds of the pair's place. */
  lemma FilledIsBeyond(r: Range, y: Bytes, c: nat, p: nat, n: nat)
    requires Ordered(r) && Shared(r) < |r.lower| && !IsPrefix(r.lower, r.upper)
    requires PartsAt(y, r.upper, Shared(r), c, p) && p <= n && Shared(r) + 2 <= p
    ensures Compare(r.lower, Filled(r.upper, n - 1)) < 0
    ensures Compare(Truncate(y, c), Filled(r.upper, n - 1)) < 0
  {
    hide CommonPrefix;
    var u, k, b, t := r.upper, Shared(r), Filled(r.upper, n - 1), Truncate(y, c);
    assert r.lower[k] < u[k] == b[k];
    CommonPrefixIs(r.lower, b, k);
    assert forall j | 0 <= j < k :: t[j] == y[..k][j] == u[..k][j] == b[j];
    if c == k + 2 {
      CommonPrefixIs(t, b, k);
    } else {
      assert t == u[..k + 1];
      CommonPrefixIs(t, b, k + 1);
    }
  }

  lemma InOrder(a: Range, b: Range)
    requires Leq(a.lower, b.lower) && Leq(a.upper, b.upper)
    ensures SortsBefore(a, b)
  {
    hide CommonPrefix;
    CompareIsOrder(a.lower, b.lower);
    CompareIsOrder(a.upper, b.upper);
  }

  lemma FirstInOrder(a: Range, b: Range)
    requires Compare(a.lower, b.lower) < 0
    ensures SortsBefore(a, b)
  {
  }

  lemma SixInOrder(a: Range, b: Range, c: Range, d: Range)
    requires SortsBefore(a, b) && SortsBefore(a, c) && SortsBefore(b, c)
    requires SortsBefore(a, d) && SortsBefore(b, d) && SortsBefore(c, d) && SortsBefore(d, d)
    ensures AllInOrder([a, b, c, d, d, d], SortsBefore)
  {
    hide SortsBefore;
    var ks := [a, b, c, d, d, d];
    forall i, j | 0 <= i < j < |ks| ensures SortsBefore(ks[i], ks[j]) {
      if j >= 3 { assert ks[j] == d; }
    }
  }

  lemma {:induction false} SixKeys(a: History, b: History, c: History, d: History)
    ensures KeysOf([a, b, c] + [d, d, d]) == [KeyOf(a), KeyOf(b), KeyOf(c), KeyOf(d), KeyOf(d), KeyOf(d)]
  {
    hide KeyOf;
    var hs := [a, b, c] + [d, d, d];
    forall i | 0 <= i < 6 ensures KeysOf(hs)[i] == KeyOf(hs[i]) {
      KeysOfAt(hs, i);
    }
  }

  /** Three keys with growing bounds make a side with the outer ones. */
  lemma {:induction false} SideOfThree(a: History, b: History, c: History, n: nat) returns (h: History)
    requires Proper(a) && Proper(b) && Proper(c)
    requires Leq(KeyOf(a).lower, KeyOf(b).lower) && Leq(KeyOf(b).lower, KeyOf(c).lower)
    requires Leq(KeyOf(a).upper, KeyOf(b).upper) && Leq(KeyOf(b).upper, KeyOf(c).upper)
    requires n >= Shared(Range(KeyOf(a).lower, KeyOf(c).upper)) + 1
    ensures h == SplitSide([a, b, c], n) && Proper(h)
    ensures Joined(h) == Range(KeyOf(a).lower, KeyOf(c).upper) && KeyOf(h) == NodeTruncate(Joined(h), n)
  {
    hide Leq, JoinAll, Shared, NodeTruncate;
    var parts := [a, b, c];
    KeysOfAt(parts, 0);
    KeysOfAt(parts, 1);
    KeysOfAt(parts, 2);
    assert KeysOf(parts) == [KeyOf(a), KeyOf(b), KeyOf(c)];
    JoinOfThree(KeyOf(a), KeyOf(b), KeyOf(c));
    h := SplitSide(parts, n);
  }

  /** The half with the longer common prefix: one leaf three times. */
  lemma Sibling(b: Bytes) returns (d: History, s: History)
    ensures Proper(d) && d.SplitSide? && KeyOf(d) == Range(b, b)
    ensures s == SplitSide([d, d, d], |b| + 1) && Proper(s) && Shared(Joined(s)) == |b|
  {
    hide CommonPrefix, Leq;
    d := SingleLeaf(b);
    LeqItself(b);
    CommonPrefixIs(b, b, |b|);
    s := SideOfThree(d, d, d, |b| + 1);
  }

  /** A page whose left half, with these bounds and this length, loses a value stored
      below it. */
  lemma UnsafeCutLoses(r: Range, n: nat, p: nat) returns (l: History, s: History, v: Bytes)
    requires Ordered(r) && n >= Shared(r) + 1 && !IsPrefix(r.lower, r.upper) && HarmsAt(r, n, p)
    ensures IsPageSplit(l, s) && Joined(l) == r && l.cpfLength == n
    ensures Below(v, l) && !Found(KeyOf(l), v)
  {
    hide *;
    HarmIsCut(r, n, p);
    v := r.upper[..p] + [255];
    CutRejects(r, n, p, v);
    var y := Companion(r, n, p, v);
    var c := CommonPrefix(y, v) + 2;
    CutOfPair(r.upper, v, y, p, Shared(r));
    FilledIsBeyond(r, y, c, p, n);
    var pair := PairUnion(y, v);
    l, s := PageAround(r, pair, Filled(r.upper, n - 1));
    InPart(v, l, 1);
  }

  /** A page whose left half has the bounds r, with the given key inside, and whose
      right half holds the value b only. */
  lemma PageAround(r: Range, pair: History, b: Bytes) returns (l: History, s: History)
    requires Proper(pair) && !pair.Leaf? && Shared(r) <= |b|
    requires Leq(r.lower, KeyOf(pair).lower) && Leq(KeyOf(pair).lower, KeyOf(pair).upper)
    requires Leq(KeyOf(pair).upper, r.upper)
    requires Compare(r.lower, b) < 0 && Compare(KeyOf(pair).lower, b) < 0
    ensures IsPageSplit(l, s) && l.SplitSide? && |l.parts| == 3 && l.parts[1] == pair
    ensures Joined(l) == r && l.cpfLength == |b| + 1 && KeyOf(l) == NodeTruncate(r, |b| + 1)
  {
    hide Leq, Compare, JoinAll, KeyOf, Proper, SortsBefore, AllInOrder, Shared, NodeTruncate, KeysOf, IsPageSplit;
    var t, w := KeyOf(pair).lower, KeyOf(pair).upper;
    Between(t, w, r.upper);
    Between(r.lower, t, w);
    LeqItself(t);
    var low := SingleLeaf(r.lower);
    var wide := WholePair(t, r.upper);
    l := SideOfThree(low, pair, wide, |b| + 1);
    var d;
    d, s := Sibling(b);
    PageInOrder(r, t, w, b);
    SixKeys(low, pair, wide, d);
    HalvesOfSix(low, pair, wide, d, l, s);
  }

  lemma {:induction false} HalvesOfSix(a: History, b: History, c: History, d: History, l: History, s: History)
    requires !a.Leaf? && !b.Leaf? && !c.Leaf? && !d.Leaf? && Proper(l) && Proper(s)
    requires l.SplitSide? && l.parts == [a, b, c] && s.SplitSide? && s.parts == [d, d, d]
    requires l.cpfLength == s.cpfLength == Shared(Joined(s)) + 1 && Shared(Joined(l)) <= Shared(Joined(s))
    requires AllInOrder(KeysOf([a, b, c] + [d, d, d]), SortsBefore)
    ensures IsPageSplit(l, s)
  {
    hide Proper, KeysOf, AllInOrder, Shared, JoinAll, SortsBefore;
    var hs := l.parts + s.parts;
    forall i | 0 <= i < |hs| ensures !hs[i].Leaf? {
    }
  }

  lemma PageInOrder(r: Range, t: Bytes, w: Bytes, b: Bytes)
    requires Leq(r.lower, t) && Leq(r.lower, w) && Leq(w, r.upper)
    requires Compare(r.lower, b) < 0 && Compare(t, b) < 0
    ensures AllInOrder([Range(r.lower, r.lower), Range(t, w), Range(t, r.upper),
                        Range(b, b), Range(b, b), Range(b, b)], SortsBefore)
  {
    hide Leq, Compare, SortsBefore;
    Between(r.lower, w, r.upper);
    LeqItself(t);
    LeqItself(b);
    InOrder(Range(r.lower, r.lower), Range(t, w));
    InOrder(Range(r.lower, r.lower), Range(t, r.upper));
    InOrder(Range(t, w), Range(t, r.upper));
    InOrder(Range(b, b), Range(b, b));
    FirstInOrder(Range(r.lower, r.lower), Range(b, b));
    FirstInOrder(Range(t, w), Range(b, b));
    FirstInOrder(Range(t, r.upper), Range(b, b));
    SixInOrder(Range(r.lower, r.lower), Range(t, w), Range(t, r.upper), Range(b, b));
  }

  /** Of all halves of pages of internal entries with given joined bounds and length,
      none loses a value stored below it exactly when the cut is safe. */
  lemma KeyLosesNothingIff(r: Range, n: nat)
    requires Ordered(r) && n >= Shared(r) + 1
    ensures (forall h, v | IsSideOf(h, r, n) && Below(v, h) :: Found(KeyOf(h), v)) <==> CutIsSafe(r, n)
  {
    hide CommonPrefix, Compare, JoinAll, Satisfies, Consistent, HarmsAt, IsPageSplit;
    if CutIsSafe(r, n) {
      forall h, v | IsSideOf(h, r, n) && Below(v, h) ensures Found(KeyOf(h), v) {
        forall q, strategy | Satisfies(v, q, strategy) ensures Consistent(KeyOf(h), q, strategy, false) {
          SafeCutFinds(h, v, q, strategy);
        }
      }
    } else {
      var p :| HarmsAt(r, n, p);
      var l, s, v := UnsafeCutLoses(r, n, p);
      PageIsProper(l, s);
      assert IsSideOf(l, r, n);
    }
  }

  lemma {:induction false} PageIsProper(l: History, s: History)
    requires IsPageSplit(l, s)
    ensures Proper(l) && Proper(s) && l.SplitSide? && s.SplitSide?
  {
  }

  // ---- A page with both sides ----

  /** Such pages exist: of four unions of leaves in sort order, the left half loses
      the value 01 01 09 of the first. */
  lemma InternalSplitLosesRow() returns (l: History, r: History)
    ensures l == SplitSide([Union([Leaf([0]), Leaf([1, 1, 9])]), Union([Leaf([1, 1, 2]), Leaf([1, 1, 3])])], 5)
    ensures r == SplitSide([Union([Leaf([2, 2, 2, 2, 5]), Leaf([2, 2, 2, 2, 6])]),
                            Union([Leaf([2, 2, 2, 2, 7]), Leaf([2, 2, 2, 2, 8])])], 5)
    ensures IsPageSplit(l, r)
    ensures Below([1, 1, 9], l) && !Consistent(KeyOf(l), [1, 1, 9], Equal, false)
  {
    hide *;
    PairsOfExample();
    var h := PairUnion([0], [1, 1, 9]);
    var g := PairUnion([1, 1, 2], [1, 1, 3]);
    var f := PairUnion([2, 2, 2, 2, 5], [2, 2, 2, 2, 6]);
    var e := PairUnion([2, 2, 2, 2, 7], [2, 2, 2, 2, 8]);
    TruncatedPairs();
    LeftOfExample();
    RightOfExample();
    l := SideOfTwo(h, g, 5);
    r := SideOfTwo(f, e, 5);
    InPart([1, 1, 9], l, 0);
    FourInOrder(h, g, f, e);
    HalvesOfExample(h, g, f, e, l, r);
  }

  lemma {:induction false} HalvesOfExample(h: History, g: History, f: History, e: History, l: History, r: History)
    requires !h.Leaf? && !g.Leaf? && !f.Leaf? && !e.Leaf?
    requires l == SplitSide([h, g], 5) && r == SplitSide([f, e], 5) && Proper(l) && Proper(r)
    requires Shared(Joined(l)) == 0 && Shared(Joined(r)) == 4
    requires AllInOrder(KeysOf([h, g] + [f, e]), SortsBefore)
    ensures IsPageSplit(l, r)
  {
    hide Proper, KeysOf, AllInOrder;
  }

  lemma PairsOfExample()
    ensures Leq([0], [1, 1, 9]) && CommonPrefix([0], [1, 1, 9]) == 0
    ensures Leq([1, 1, 2], [1, 1, 3]) && CommonPrefix([1, 1, 2], [1, 1, 3]) == 2
    ensures Leq([2, 2, 2, 2, 5], [2, 2, 2, 2, 6]) && CommonPrefix([2, 2, 2, 2, 5], [2, 2, 2, 2, 6]) == 4
    ensures Leq([2, 2, 2, 2, 7], [2, 2, 2, 2, 8]) && CommonPrefix([2, 2, 2, 2, 7], [2, 2, 2, 2, 8]) == 4
  {
    hide CommonPrefix;
    CommonPrefixIs([0], [1, 1, 9], 0);
    CommonPrefixIs([1, 1, 2], [1, 1, 3], 2);
    CommonPrefixIs([2, 2, 2, 2, 5], [2, 2, 2, 2, 6], 4);
    CommonPrefixIs([2, 2, 2, 2, 7], [2, 2, 2, 2, 8], 4);
  }

  lemma TruncatedPairs()
    ensures Truncate([0], 2) == [0] && Truncate([1, 1, 9], 2) == [1, 1]
    ensures Truncate([1, 1, 2], 4) == [1, 1, 2] && Truncate([1, 1, 3], 4) == [1, 1, 3]
    ensures Truncate([2, 2, 2, 2, 5], 6) == [2, 2, 2, 2, 5] && Truncate([2, 2, 2, 2, 6], 6) == [2, 2, 2, 2, 6]
    ensures Truncate([2, 2, 2, 2, 7], 6) == [2, 2, 2, 2, 7] && Truncate([2, 2, 2, 2, 8], 6) == [2, 2, 2, 2, 8]
  {
  }

  lemma {:induction false} FourInOrder(h: History, g: History, f: History, e: History)
    requires Compare(KeyOf(h).lower, KeyOf(g).lower) < 0 && Compare(KeyOf(g).lower, KeyOf(f).lower) < 0
    requires Compare(KeyOf(f).lower, KeyOf(e).lower) < 0
    ensures AllInOrder(KeysOf([h, g] + [f, e]), SortsBefore)
  {
    hide CommonPrefix, KeyOf;
    var hs := [h, g] + [f, e];
    forall i | 0 <= i < 4 ensures KeysOf(hs)[i] == KeyOf(hs[i]) {
      KeysOfAt(hs, i);
    }
    var ks := KeysOf(hs);
    assert ks == [KeyOf(h), KeyOf(g), KeyOf(f), KeyOf(e)];
    Chain(ks[0].lower, ks[1].lower, ks[2].lower);
    Chain(ks[0].lower, ks[2].lower, ks[3].lower);
    Chain(ks[1].lower, ks[2].lower, ks[3].lower);
  }

  lemma Chain(a: Bytes, b: Bytes, c: Bytes)
    requires Compare(a, b) < 0 && Compare(b, c) < 0
    ensures Compare(a, c) < 0
  {
    hide CommonPrefix;
    Between(a, b, c);
    CompareIsOrder(a, b);
    CompareIsOrder(a, c);
    CompareIsOrder(b, c);
    if a == c { CompareIsOrder(c, b); }
  }

  lemma SideOfTwo(h: History, g: History, n: nat) returns (side: History)
    requires Proper(h) && Proper(g) && n >= Shared(JoinAll([KeyOf(h), KeyOf(g)])) + 1
    ensures side == SplitSide([h, g], n) && Proper(side) && Joined(side) == JoinAll([KeyOf(h), KeyOf(g)])
    ensures KeyOf(side) == NodeTruncate(Joined(side), n)
  {
    hide JoinAll;
    side := SplitSide([h, g], n);
    KeysOfAt([h, g], 0);
    KeysOfAt([h, g], 1);
    assert KeysOf([h, g]) == [KeyOf(h), KeyOf(g)];
  }

  lemma LeftOfExample()
    ensures Compare([0], [1, 1, 2]) < 0 && Compare([1, 1, 2], [2, 2, 2, 2, 5]) < 0
    ensures JoinAll([Range([0], [1, 1]), Range([1, 1, 2], [1, 1, 3])]) == Range([0], [1, 1, 3])
    ensures Shared(Range([0], [1, 1, 3])) == 0
    ensures NodeTruncate(Range([0], [1, 1, 3]), 5) == Range([0], [1, 1, 3])
    ensures !Consistent(Range([0], [1, 1, 3]), [1, 1, 9], Equal, false)
  {
    hide CommonPrefix, JoinAll;
    CommonPrefixIs([0], [1, 1, 2], 0);
    CommonPrefixIs([1, 1, 2], [2, 2, 2, 2, 5], 0);
    CommonPrefixIs([1, 1], [1, 1, 3], 2);
    CommonPrefixIs([0], [1, 1, 3], 0);
    CommonPrefixIs([1, 1, 9], [1, 1, 3], 2);
    NotPrefixAt([0], [1, 1, 9], 0);
    NotPrefixAt([1, 1, 3], [1, 1, 9], 2);
    JoinInOrder(Range([0], [1, 1]), Range([1, 1, 2], [1, 1, 3]));
  }

  lemma RightOfExample()
    ensures var c, d := Range([2, 2, 2, 2, 5], [2, 2, 2, 2, 6]), Range([2, 2, 2, 2, 7], [2, 2, 2, 2, 8]);
            Compare(c.lower, d.lower) < 0 && Shared(JoinAll([c, d])) == 4
  {
    hide CommonPrefix, JoinAll;
    CommonPrefixIs([2, 2, 2, 2, 5], [2, 2, 2, 2, 7], 4);
    CommonPrefixIs([2, 2, 2, 2, 6], [2, 2, 2, 2, 8], 4);
    CommonPrefixIs([2, 2, 2, 2, 5], [2, 2, 2, 2, 8], 4);
    JoinInOrder(Range([2, 2, 2, 2, 5], [2, 2, 2, 2, 6]), Range([2, 2, 2, 2, 7], [2, 2, 2, 2, 8]));
  }
}
