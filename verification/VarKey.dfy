/** Key algebra of variable-length btree_gist keys for bytea
    (contrib/btree_gist/btree_utils_var.cpp with trnc set and no leaf
    conversion): bounds are joined, then truncated to two bytes past their common
    prefix, and a search must still reach every value below. */
module VarKey {
  import opened ByteString

  /** A key as gbt_var_key_readable presents it. */
  datatype Range = Range(lower: Bytes, upper: Bytes)

  datatype Strategy = Less | LessEqual | Equal | GreaterEqual | Greater | NotEqual

  ghost predicate Ordered(r: Range) {
    Leq(r.lower, r.upper)
  }

  function Shared(r: Range): nat {
    CommonPrefix(r.lower, r.upper)
  }

  function Join(r: Range, e: Range): Range {
    Range(Least(r.lower, e.lower), Greatest(r.upper, e.upper))
  }

  function JoinAll(ks: seq<Range>): Range
    requires ks != []
  {
    if |ks| == 1 then ks[0] else Join(JoinAll(ks[..|ks| - 1]), ks[|ks| - 1])
  }

  /** gbt_var_node_truncate: keeps cpfLength + 1 bytes of either bound. */
  function NodeTruncate(r: Range, cpfLength: nat): Range {
    Range(Truncate(r.lower, cpfLength + 1), Truncate(r.upper, cpfLength + 1))
  }

  function UnionKey(ks: seq<Range>): Range
    requires ks != []
  {
    var all := JoinAll(ks);
    NodeTruncate(all, Shared(all) + 1)
  }

  predicate PrefixMatch(key: Range, q: Bytes) {
    IsPrefix(key.lower, q) || IsPrefix(key.upper, q)
  }

  /** gbt_var_consistent. */
  predicate Consistent(key: Range, q: Bytes, strategy: Strategy, isLeaf: bool) {
    match strategy
    case LessEqual =>
      if isLeaf then Compare(q, key.lower) >= 0 else Compare(q, key.lower) >= 0 || PrefixMatch(key, q)
    case Less =>
      if isLeaf then Compare(q, key.lower) > 0 else Compare(q, key.lower) >= 0 || PrefixMatch(key, q)
    case Equal =>
      if isLeaf then Compare(q, key.lower) == 0
      else (Compare(key.lower, q) <= 0 && Compare(q, key.upper) <= 0) || PrefixMatch(key, q)
    case Greater =>
      if isLeaf then Compare(q, key.upper) < 0 else Compare(q, key.upper) <= 0 || PrefixMatch(key, q)
    case GreaterEqual =>
      if isLeaf then Compare(q, key.upper) <= 0 else Compare(q, key.upper) <= 0 || PrefixMatch(key, q)
    case NotEqual =>
      !(Compare(q, key.lower) == 0 && Compare(q, key.upper) == 0)
  }

  /** Row semantics of the six operators, independent of any key. */
  ghost predicate Satisfies(v: Bytes, q: Bytes, strategy: Strategy) {
    match strategy
    case LessEqual => Leq(v, q)
    case Less => Leq(v, q) && v != q
    case Equal => v == q
    case Greater => Leq(q, v) && v != q
    case GreaterEqual => Leq(q, v)
    case NotEqual => v != q
  }

  lemma LeafTestIsExact(v: Bytes, q: Bytes, strategy: Strategy)
    ensures Consistent(Range(v, v), q, strategy, true) <==> Satisfies(v, q, strategy)
  {
    CompareIsOrder(v, q);
  }

  /** Inner keys do not tell the strict comparisons from the others. */
  function Relaxed(strategy: Strategy): Strategy {
    match strategy
    case Less => LessEqual
    case Greater => GreaterEqual
    case _ => strategy
  }

  /** What the tests allow below an inner key: a value between the bounds, or beyond
      them as a continuation of either; between them for the inequality. */
  ghost predicate MayLieUnder(key: Range, v: Bytes, strategy: Strategy) {
    && Leq(key.lower, v)
    && (Leq(v, key.upper) || (strategy != NotEqual && (IsPrefix(key.lower, v) || IsPrefix(key.upper, v))))
  }

  /** An inner key is descended into exactly when a value that may lie under it would
      satisfy the query, up to equality for the strict comparisons. */
  lemma InnerTestIsExact(key: Range, q: Bytes, strategy: Strategy)
    requires Ordered(key)
    ensures Consistent(key, q, strategy, false)
            <==> exists v :: MayLieUnder(key, v, strategy) && Satisfies(v, q, Relaxed(strategy))
  {
    hide CommonPrefix;
    if Consistent(key, q, strategy, false) {
      var v := InnerWitness(key, q, strategy);
    }
    forall v | MayLieUnder(key, v, strategy) && Satisfies(v, q, Relaxed(strategy))
      ensures Consistent(key, q, strategy, false)
    {
      InnerTestAccepts(key, v, q, strategy);
    }
  }

  lemma InnerWitness(key: Range, q: Bytes, strategy: Strategy) returns (v: Bytes)
    requires Ordered(key) && Consistent(key, q, strategy, false)
    ensures MayLieUnder(key, v, strategy) && Satisfies(v, q, Relaxed(strategy))
  {
    hide CommonPrefix;
    var l, u := key.lower, key.upper;
    CompareIsOrder(l, l);
    CompareIsOrder(u, u);
    CompareIsOrder(q, q);
    CompareIsOrder(q, l);
    CompareIsOrder(q, u);
    if IsPrefix(l, q) { PrefixFacts(l, q); }
    if IsPrefix(u, q) {
      PrefixFacts(u, q);
      Between(l, u, q);
    }
    match strategy
    case Less | LessEqual => v := l;
    case Equal => v := q;
    case Greater | GreaterEqual => v := if Leq(q, u) then u else q;
    case NotEqual => v := if q == l then u else l;
  }

  lemma InnerTestAccepts(key: Range, v: Bytes, q: Bytes, strategy: Strategy)
    requires Ordered(key) && MayLieUnder(key, v, strategy) && Satisfies(v, q, Relaxed(strategy))
    ensures Consistent(key, q, strategy, false)
  {
    hide CommonPrefix;
    var l, u := key.lower, key.upper;
    CompareIsOrder(q, l);
    CompareIsOrder(q, u);
    match strategy
    case Less | LessEqual => Between(l, v, q);
    case Equal =>
    case Greater | GreaterEqual =>
      if Leq(v, u) {
        Between(q, v, u);
      } else if !Leq(q, u) {
        LeqTotal(q, u);
        Between(l, u, q);
        if IsPrefix(l, v) { ContinuesBetween(l, q, v); } else { ContinuesBetween(u, q, v); }
      }
    case NotEqual =>
      if l == u {
        CompareIsOrder(l, v);
        CompareIsOrder(v, l);
      }
  }

  /** What lies between a string and a continuation of it continues it. */
  lemma ContinuesBetween(p: Bytes, q: Bytes, v: Bytes)
    requires IsPrefix(p, v) && Leq(p, q) && Leq(q, v)
    ensures IsPrefix(p, q)
  {
    hide CommonPrefix, Compare;
    PrefixFacts(p, v);
    Between(p, q, v);
    PrefixFromCommon(p, q);
  }

  /** gbt_vsrt_cmp: lower bounds first, then upper bounds. */
  ghost predicate SortsBefore(a: Range, b: Range) {
    Compare(a.lower, b.lower) < 0 || (Compare(a.lower, b.lower) == 0 && Compare(a.upper, b.upper) <= 0)
  }

  function Max(a: nat, b: nat): nat {
    if a < b then b else a
  }

  /** A search never turns away from this key when v satisfies the query. */
  ghost predicate Found(key: Range, v: Bytes) {
    forall q, strategy :: Satisfies(v, q, strategy) ==> Consistent(key, q, strategy, false)
  }

  // ---- Invariants ----

  /** What joining keeps: v may only exceed the upper bound while agreeing with it
      for two bytes more than the bounds agree with each other. */
  ghost predicate Near(r: Range, v: Bytes) {
    Leq(r.lower, v) && (Leq(v, r.upper) || CommonPrefix(r.upper, v) >= Shared(r) + 2)
  }

  /** What truncation establishes: the exceeded upper bound is a prefix of v. */
  ghost predicate Covers(r: Range, v: Bytes) {
    && Leq(r.lower, v)
    && (Leq(v, r.upper) || (IsPrefix(r.upper, v) && |r.upper| >= Shared(r) + 2))
  }

  lemma CoversIsNear(r: Range, v: Bytes)
    requires Covers(r, v)
    ensures Near(r, v)
  {
    if !Leq(v, r.upper) { PrefixFacts(r.upper, v); }
  }

  lemma LeafCovers(v: Bytes)
    ensures Ordered(Range(v, v)) && Covers(Range(v, v), v)
  {
    CompareIsOrder(v, v);
  }

  lemma JoinBounds(r: Range, e: Range)
    ensures Leq(Join(r, e).lower, r.lower) && Leq(Join(r, e).lower, e.lower)
    ensures Leq(r.upper, Join(r, e).upper) && Leq(e.upper, Join(r, e).upper)
  {
    hide CommonPrefix;
    CompareIsOrder(r.lower, e.lower);
    CompareIsOrder(r.upper, e.upper);
    CompareIsOrder(r.lower, r.lower);
    CompareIsOrder(e.lower, e.lower);
    CompareIsOrder(r.upper, r.upper);
    CompareIsOrder(e.upper, e.upper);
  }

  /** Widening a key on either side keeps what is near it near it. */
  lemma WidenKeepsNear(r: Range, w: Range, v: Bytes)
    requires Ordered(r) && Near(r, v) && Leq(w.lower, r.lower) && Leq(r.upper, w.upper)
    ensures Near(w, v) && Ordered(w)
  {
    hide CommonPrefix;
    hide Compare;
    Between(w.lower, r.lower, v);
    Between(w.lower, r.lower, r.upper);
    Between(w.lower, r.upper, w.upper);
    if Leq(v, r.upper) {
      Between(v, r.upper, w.upper);
    } else if !Leq(v, w.upper) {
      LeqTotal(v, w.upper);
      Between(r.upper, w.upper, v);
    }
  }

  lemma LeqTotal(a: Bytes, b: Bytes)
    ensures Leq(a, b) || Leq(b, a)
  {
    CompareIsOrder(a, b);
  }

  lemma {:induction false} JoinAllOrdered(ks: seq<Range>)
    requires ks != [] && forall k | k in ks :: Ordered(k)
    ensures Ordered(JoinAll(ks))
  {
    if |ks| > 1 {
      var init, last := ks[..|ks| - 1], ks[|ks| - 1];
      JoinAllOrdered(init);
      JoinBounds(JoinAll(init), last);
      var r, w := JoinAll(init), JoinAll(ks);
      Between(w.lower, r.lower, r.upper);
      Between(w.lower, r.upper, w.upper);
    }
  }

  lemma {:induction false} JoinAllKeepsNear(ks: seq<Range>, i: nat, v: Bytes)
    requires i < |ks| && (forall k | k in ks :: Ordered(k)) && Near(ks[i], v)
    ensures Near(JoinAll(ks), v)
  {
    if |ks| > 1 {
      var init, last := ks[..|ks| - 1], ks[|ks| - 1];
      JoinBounds(JoinAll(init), last);
      if i < |ks| - 1 {
        assert init[i] == ks[i];
        JoinAllKeepsNear(init, i, v);
        JoinAllOrdered(init);
        WidenKeepsNear(JoinAll(init), JoinAll(ks), v);
      } else {
        WidenKeepsNear(last, JoinAll(ks), v);
      }
    }
  }

  /** Truncating two bytes past the common prefix turns near into covered. */
  lemma TruncationCovers(r: Range, v: Bytes)
    requires Ordered(r) && Near(r, v)
    ensures Ordered(NodeTruncate(r, Shared(r) + 1)) && Covers(NodeTruncate(r, Shared(r) + 1), v)
  {
    hide CommonPrefix;
    hide Compare;
    var n := Shared(r) + 2;
    var u := Truncate(r.upper, n);
    TruncateBoth(r.lower, r.upper, n);
    TruncateFacts(r.lower, n);
    TruncateFacts(r.upper, n);
    Between(Truncate(r.lower, n), r.lower, v);
    if !Leq(v, u) {
      LeqTotal(v, u);
      if Leq(v, r.upper) {
        PrefixFacts(u, r.upper);
        Between(u, v, r.upper);
        PrefixFromCommon(u, v);
        assert |u| == n;
      } else {
        assert forall i | 0 <= i < n :: r.upper[i] == v[i];
        assert v[..n] == u;
      }
    }
  }

  /** Any longer truncation is harmless while v is within the upper bound. */
  lemma LongTruncationCovers(r: Range, v: Bytes, n: nat)
    requires Ordered(r) && Leq(r.lower, v) && Leq(v, r.upper) && n >= Shared(r) + 1
    ensures Ordered(NodeTruncate(r, n)) && Covers(NodeTruncate(r, n), v)
  {
    hide CommonPrefix;
    hide Compare;
    var u := Truncate(r.upper, n + 1);
    TruncateBoth(r.lower, r.upper, n + 1);
    TruncateFacts(r.lower, n + 1);
    TruncateFacts(r.upper, n + 1);
    Between(Truncate(r.lower, n + 1), r.lower, v);
    if !Leq(v, u) {
      LeqTotal(v, u);
      PrefixFacts(u, r.upper);
      Between(u, v, r.upper);
      PrefixFromCommon(u, v);
    }
  }

  /** Any such truncation keeps what is near the key near it. */
  lemma TruncationKeepsNear(r: Range, v: Bytes, n: nat)
    requires Ordered(r) && Near(r, v) && n >= Shared(r) + 1
    ensures Ordered(NodeTruncate(r, n)) && Near(NodeTruncate(r, n), v)
  {
    hide CommonPrefix, Compare;
    var u := Truncate(r.upper, n + 1);
    TruncateBoth(r.lower, r.upper, n + 1);
    if Leq(v, r.upper) {
      LongTruncationCovers(r, v, n);
      CoversIsNear(NodeTruncate(r, n), v);
    } else {
      TruncateFacts(r.lower, n + 1);
      Between(Truncate(r.lower, n + 1), r.lower, v);
      var k := CommonPrefix(r.upper, v);
      CommonPrefixIs(u, v, if k < |u| then k else |u|);
    }
  }

  lemma CoveredStep(r: Range, v: Bytes, q: Bytes, strategy: Strategy)
    requires Ordered(r) && Covers(r, v) && Satisfies(v, q, strategy)
    ensures Consistent(r, q, strategy, false)
  {
    hide CommonPrefix;
    CompareIsOrder(q, r.lower);
    CompareIsOrder(q, r.upper);
    CompareIsOrder(q, v);
    CompareIsOrder(v, r.upper);
    match strategy
    case Less | LessEqual => Between(r.lower, v, q);
    case Equal =>
    case Greater | GreaterEqual => CoveredFromBelow(r, v, q);
    case NotEqual =>
      if r.lower == r.upper {
        CompareIsOrder(r.lower, v);
        CommonPrefixIs(r.lower, r.upper, |r.lower|);
      }
  }

  lemma CoveredFromBelow(r: Range, v: Bytes, q: Bytes)
    requires Covers(r, v) && Leq(q, v)
    ensures Leq(q, r.upper) || IsPrefix(r.upper, q)
  {
    hide CommonPrefix;
    hide Compare;
    if Leq(v, r.upper) {
      Between(q, v, r.upper);
    } else if !Leq(q, r.upper) {
      LeqTotal(q, r.upper);
      PrefixFacts(r.upper, v);
      Between(r.upper, q, v);
      PrefixFromCommon(r.upper, q);
    }
  }
}
