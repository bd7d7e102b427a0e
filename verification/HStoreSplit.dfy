/** ghstore_picksplit of contrib/hstore/hstore_gist.cpp: two seeds as far apart as
    possible, then every other entry to the nearer side, with a cubic term that
    holds the sides in balance. */
module HStoreSplit {
  import opened Signature
  import opened HStoreGist

  /** The running split: positions dealt so far and the two union keys. */
  datatype Split = Split(left: seq<nat>, right: seq<nat>, l: Key, r: Key)

  // ---- Seeds ----

  ghost predicate AreSeeds(entries: seq<Key>, s1: nat, s2: nat) {
    && 1 <= s1 < s2 < |entries|
    && (|entries| > 3 ==> s2 <= |entries| - 2)
    && forall a, b | 1 <= a < b <= |entries| - 2 ::
         Distance(entries[a], entries[b]) <= Distance(entries[s1], entries[s2])
  }

  ghost predicate BestSoFar(entries: seq<Key>, waste: int, s1: nat, s2: nat, k: nat, j: nat) {
    && (waste < 0 ==> s1 == s2 == 0 && k <= 1 && j <= k + 1)
    && (waste >= 0 ==> 1 <= s1 < s2 <= |entries| - 2 && waste == Distance(entries[s1], entries[s2]))
    && (forall a, b | 1 <= a < b <= |entries| - 2 && (a < k || (a == k && b < j)) ::
          Distance(entries[a], entries[b]) <= waste)
  }

  lemma BestNext(entries: seq<Key>, waste: int, s1: nat, s2: nat, k: nat, j: nat)
    requires BestSoFar(entries, waste, s1, s2, k, j) && 1 <= k < j <= |entries| - 2
    ensures var w := Distance(entries[k], entries[j]);
            if w > waste then BestSoFar(entries, w, k, j, k, j + 1) else BestSoFar(entries, waste, s1, s2, k, j + 1)
  {
    hide Distance;
  }

  lemma BestRow(entries: seq<Key>, waste: int, s1: nat, s2: nat, k: nat)
    requires |entries| >= 2 && BestSoFar(entries, waste, s1, s2, k, |entries| - 1) && waste >= 0
    ensures BestSoFar(entries, waste, s1, s2, k + 1, k + 2)
  {
    hide Distance;
  }

  lemma BestOverall(entries: seq<Key>, waste: int, s1: nat, s2: nat)
    requires |entries| >= 3 && BestSoFar(entries, waste, s1, s2, |entries| - 2, |entries| - 1)
    requires |entries| > 3 ==> waste >= 0
    ensures AreSeeds(entries, if s1 == 0 || s2 == 0 then 1 else s1, if s1 == 0 || s2 == 0 then 2 else s2)
  {
    hide Distance;
  }

  lemma BestOfNone(entries: seq<Key>)
    ensures BestSoFar(entries, -1, 0, 0, 1, 2)
  {
    hide Distance;
  }

  method PickSeeds(entries: seq<Key>) returns (s1: nat, s2: nat)
    requires |entries| >= 3
    ensures AreSeeds(entries, s1, s2)
  {
    hide Distance, BestSoFar, AreSeeds;
    BestOfNone(entries);
    var maxoff := |entries| - 2;
    var waste := -1;
    s1, s2 := 0, 0;
    var k := 1;
    while k < maxoff
      invariant 1 <= k <= maxoff
      invariant BestSoFar(entries, waste, s1, s2, k, k + 1)
      invariant k > 1 ==> waste >= 0
    {
      var j := k + 1;
      while j <= maxoff
        invariant k + 1 <= j <= maxoff + 1
        invariant BestSoFar(entries, waste, s1, s2, k, j)
        invariant k > 1 || j > k + 1 ==> waste >= 0
      {
        BestNext(entries, waste, s1, s2, k, j);
        var w := HemDist(entries[k], entries[j]);
        if w > waste {
          waste, s1, s2 := w, k, j;
        }
        j := j + 1;
      }
      BestRow(entries, waste, s1, s2, k);
      k := k + 1;
    }
    BestOverall(entries, waste, s1, s2);
    if s1 == 0 || s2 == 0 {
      s1, s2 := 1, 2;
    }
  }

  // ---- Dealing out ----

  /** Joining an entry to a side, as the code does it: an all-true side stays,
      an all-true entry fills the side's bits. */
  ghost predicate Absorbs(side: Key, e: Key, out: Key) {
    forall i: nat | i < SIGLENBIT :: Reading(out)[i] <==> Reading(side)[i] || Reading(e)[i]
  }

  method Absorb(side: Key, e: Key) returns (out: Key)
    ensures Absorbs(side, e, out)
    ensures out.AllTrue? == side.AllTrue?
  {
    hide ByteBit;
    if side.AllTrue? { return side; }
    if e.AllTrue? {
      var ones: BitVec := seq(SIGLEN, _ => 0xff);
      forall i: nat | i < SIGLENBIT ensures GetBit(ones, i) {
        FullByte(ones[i / 8]);
      }
      return Signed(ones);
    }
    var sign := OrInto(side.sign, e.sign);
    out := Signed(sign);
  }

  function Cube(d: int): int {
    d * d * d
  }

  /** size_alpha < size_beta + WISH_F(nleft, nright, 0.0001), times ten thousand. */
  predicate PrefersLeft(alpha: int, beta: int, nleft: nat, nright: nat) {
    10000 * alpha < 10000 * beta - Cube(nleft - nright)
  }

  /** One turn of the dealing loop. */
  ghost predicate Deals(entries: seq<Key>, s1: nat, s2: nat, was: Split, j: nat, now: Split)
    requires j < |entries|
  {
    if j == s1 then now == was.(left := was.left + [j])
    else if j == s2 then now == was.(right := was.right + [j])
    else if PrefersLeft(Distance(was.l, entries[j]), Distance(was.r, entries[j]), |was.left|, |was.right|) then
      now.left == was.left + [j] && now.right == was.right && now.r == was.r && Absorbs(was.l, entries[j], now.l)
    else
      now.right == was.right + [j] && now.left == was.left && now.l == was.l && Absorbs(was.r, entries[j], now.r)
  }

  lemma CubeSign(d: int)
    ensures d > 0 ==> Cube(d) > 0
    ensures d == 0 ==> Cube(d) == 0
    ensures d < 0 ==> Cube(d) < 0
  {
    if d > 0 { assert d * d > 0; }
    if d < 0 { assert d * d > 0; }
  }

  lemma CubeStep(d: int)
    ensures Cube(d) <= Cube(d + 1)
  {
    assert Cube(d + 1) - Cube(d) == 3 * d * d + 3 * d + 1;
    assert 3 * d * d + 3 * d >= 0 by {
      if d >= 0 { assert d * d >= 0; } else { assert d * d >= -d; }
    }
  }

  /** Between equally long sides the nearer key wins, the right one if they are equally
      near; between equally near ones the shorter side; and a longer left side attracts
      nothing that a shorter one would not. */
  lemma NearerOrShorterWins(entries: seq<Key>, s1: nat, s2: nat, was: Split, j: nat, now: Split)
    requires j < |entries| && Deals(entries, s1, s2, was, j, now) && j != s1 && j != s2
    ensures var alpha, beta := Distance(was.l, entries[j]), Distance(was.r, entries[j]);
            && (|was.left| == |was.right| ==>
                  if alpha < beta then now.left == was.left + [j] else now.right == was.right + [j])
            && (alpha == beta ==>
                  if |was.left| < |was.right| then now.left == was.left + [j] else now.right == was.right + [j])
  {
    hide Distance, Absorbs, Cube;
    CubeSign(|was.left| - |was.right|);
  }

  lemma LongerAttractsLess(alpha: int, beta: int, nleft: nat, nright: nat)
    ensures PrefersLeft(alpha, beta, nleft + 1, nright) ==> PrefersLeft(alpha, beta, nleft, nright)
    ensures PrefersLeft(alpha, beta, nleft, nright) ==> PrefersLeft(alpha, beta, nleft, nright + 1)
  {
    hide Cube;
    CubeStep(nleft - nright);
    CubeStep(nleft - nright - 1);
  }

  method Deal(entries: seq<Key>, s1: nat, s2: nat, was: Split, j: nat) returns (now: Split)
    requires j < |entries|
    ensures Deals(entries, s1, s2, was, j, now)
  {
    hide Distance, Absorbs, Cube;
    if j == s1 { return was.(left := was.left + [j]); }
    if j == s2 { return was.(right := was.right + [j]); }
    var alpha := HemDist(was.l, entries[j]);
    var beta := HemDist(was.r, entries[j]);
    if PrefersLeft(alpha, beta, |was.left|, |was.right|) {
      var l := Absorb(was.l, entries[j]);
      now := Split(was.left + [j], was.right, l, was.r);
    } else {
      var r := Absorb(was.r, entries[j]);
      now := Split(was.left, was.right + [j], was.l, r);
    }
  }

  /** A run of the loop: states[k] is the split after k positions of the order. */
  ghost predicate IsRun(entries: seq<Key>, s1: nat, s2: nat, order: seq<nat>, states: seq<Split>) {
    && s1 < |entries| && s2 < |entries|
    && 0 < |states| <= |order| + 1
    && states[0] == Split([], [], entries[s1], entries[s2])
    && (forall k | 0 <= k < |order| :: order[k] < |entries|)
    && (forall k | 0 <= k < |states| - 1 :: Deals(entries, s1, s2, states[k], order[k], states[k + 1]))
  }

  // ---- Balance ----

  lemma CubeOutweighs(alpha: int, beta: int, d: int)
    requires 0 <= alpha <= SIGLENBIT && 0 <= beta <= SIGLENBIT
    ensures d >= 109 ==> !(10000 * alpha < 10000 * beta - Cube(d))
    ensures d <= -109 ==> 10000 * alpha < 10000 * beta - Cube(d)
  {
    if d >= 109 { CubeGrows(d); }
    if d <= -109 { CubeGrows(-d); assert Cube(d) == -Cube(-d); }
  }

  lemma CubeGrows(d: int)
    requires d >= 109
    ensures Cube(d) >= 1280000
  {
    assert d * d >= 109 * 109;
    assert d * d * d >= 109 * 109 * 109;
  }

  /** While a seed is still to come, its side is allowed one less. */
  ghost predicate Balanced(s: Split, s1: nat, s2: nat) {
    && |s.left| - |s.right| <= (if s1 in s.left then 110 else 109)
    && |s.right| - |s.left| <= (if s2 in s.right then 110 else 109)
  }

  lemma DealKeepsBalance(entries: seq<Key>, s1: nat, s2: nat, was: Split, j: nat, now: Split)
    requires j < |entries| && Deals(entries, s1, s2, was, j, now) && Balanced(was, s1, s2)
    requires j !in was.left && j !in was.right && s1 != s2
    ensures Balanced(now, s1, s2)
  {
    hide Distance, Absorbs, Cube;
    var a, b := Distance(was.l, entries[j]), Distance(was.r, entries[j]);
    CubeOutweighs(a, b, |was.left| - |was.right|);
  }

  ghost predicate Distinct(order: seq<nat>) {
    forall i, j | 0 <= i < j < |order| :: order[i] != order[j]
  }

  lemma {:induction false} RunDeals(entries: seq<Key>, s1: nat, s2: nat, order: seq<nat>, states: seq<Split>, k: nat)
    requires IsRun(entries, s1, s2, order, states) && k < |states|
    ensures multiset(states[k].left) + multiset(states[k].right) == multiset(order[..k])
  {
    hide Deals;
    if k > 0 {
      RunDeals(entries, s1, s2, order, states, k - 1);
      DealAddsOne(entries, s1, s2, states[k - 1], order[k - 1], states[k]);
      assert order[..k] == order[..k - 1] + [order[k - 1]];
    }
  }

  lemma DealAddsOne(entries: seq<Key>, s1: nat, s2: nat, was: Split, j: nat, now: Split)
    requires j < |entries| && Deals(entries, s1, s2, was, j, now)
    ensures multiset(now.left) + multiset(now.right) == multiset(was.left) + multiset(was.right) + multiset{j}
  {
    hide Distance, Absorbs, PrefersLeft;
    assert multiset(was.left + [j]) == multiset(was.left) + multiset{j};
    assert multiset(was.right + [j]) == multiset(was.right) + multiset{j};
  }

  lemma NotYetDealt(entries: seq<Key>, s1: nat, s2: nat, order: seq<nat>, states: seq<Split>, k: nat)
    requires IsRun(entries, s1, s2, order, states) && k < |states| && k < |order| && Distinct(order)
    ensures order[k] !in states[k].left && order[k] !in states[k].right
  {
    hide Deals, IsRun;
    RunDeals(entries, s1, s2, order, states, k);
    assert order[k] !in order[..k];
    assert order[k] !in multiset(order[..k]);
  }

  /** At no point do the sides differ by more than 110, however many entries. */
  lemma {:induction false} BalanceThroughout(entries: seq<Key>, s1: nat, s2: nat, order: seq<nat>,
                                             states: seq<Split>, k: nat)
    requires IsRun(entries, s1, s2, order, states) && k < |states| && Distinct(order) && s1 != s2
    ensures Balanced(states[k], s1, s2)
    ensures -110 <= |states[k].left| - |states[k].right| <= 110
  {
    hide Deals;
    if k > 0 {
      BalanceThroughout(entries, s1, s2, order, states, k - 1);
      NotYetDealt(entries, s1, s2, order, states, k - 1);
      DealKeepsBalance(entries, s1, s2, states[k - 1], order[k - 1], states[k]);
    }
  }

  // ---- Covering ----

  /** The bits of the seed and of the positions dealt to a side. */
  ghost predicate SideHas(entries: seq<Key>, seed: nat, side: seq<nat>, i: nat)
    requires seed < |entries| && i < SIGLENBIT
  {
    Reading(entries[seed])[i] || exists k :: 0 <= k < |side| && side[k] < |entries| && Reading(entries[side[k]])[i]
  }

  lemma SideHasNext(entries: seq<Key>, seed: nat, side: seq<nat>, j: nat, i: nat)
    requires seed < |entries| && j < |entries| && i < SIGLENBIT
    ensures SideHas(entries, seed, side + [j], i) <==> SideHas(entries, seed, side, i) || Reading(entries[j])[i]
  {
    hide Reading;
    var more := side + [j];
    assert more[|side|] == j;
    assert forall k | 0 <= k < |side| :: more[k] == side[k];
  }

  /** Either key stands for exactly the bits of its seed and its members. */
  ghost predicate KeysExact(entries: seq<Key>, s1: nat, s2: nat, s: Split)
    requires s1 < |entries| && s2 < |entries|
  {
    forall i: nat | i < SIGLENBIT ::
      && (Reading(s.l)[i] <==> SideHas(entries, s1, s.left, i))
      && (Reading(s.r)[i] <==> SideHas(entries, s2, s.right, i))
  }

  lemma DealKeepsKeys(entries: seq<Key>, s1: nat, s2: nat, was: Split, j: nat, now: Split)
    requires j < |entries| && s1 < |entries| && s2 < |entries|
    requires Deals(entries, s1, s2, was, j, now) && KeysExact(entries, s1, s2, was)
    ensures KeysExact(entries, s1, s2, now)
  {
    hide Distance, Cube, Reading, SideHas;
    forall i: nat | i < SIGLENBIT
      ensures Reading(now.l)[i] <==> SideHas(entries, s1, now.left, i)
      ensures Reading(now.r)[i] <==> SideHas(entries, s2, now.right, i)
    {
      SideHasNext(entries, s1, was.left, j, i);
      SideHasNext(entries, s2, was.right, j, i);
      SeedHas(entries, s1, was.left, i);
      SeedHas(entries, s2, was.right, i);
    }
  }

  lemma SeedHas(entries: seq<Key>, seed: nat, side: seq<nat>, i: nat)
    requires seed < |entries| && i < SIGLENBIT
    ensures Reading(entries[seed])[i] ==> SideHas(entries, seed, side, i)
  {
  }

  lemma {:induction false} KeysExactThroughout(entries: seq<Key>, s1: nat, s2: nat, order: seq<nat>,
                                               states: seq<Split>, k: nat)
    requires IsRun(entries, s1, s2, order, states) && k < |states|
    ensures KeysExact(entries, s1, s2, states[k])
  {
    hide Deals, Reading;
    if k > 0 {
      KeysExactThroughout(entries, s1, s2, order, states, k - 1);
      DealKeepsKeys(entries, s1, s2, states[k - 1], order[k - 1], states[k]);
    }
  }

  // ---- The whole routine ----

  /** What qsort leaves: every position from 1 on, once. Their order, by cost, is
      not relied upon. */
  ghost predicate Permutes(entries: seq<Key>, order: seq<nat>) {
    && |order| == |entries| - 1 && Distinct(order)
    && (forall k | 0 <= k < |order| :: 1 <= order[k] < |entries|)
    && (forall p | 1 <= p < |entries| :: p in order)
  }

  method PickSplit(entries: seq<Key>, order: seq<nat>)
    returns (left: seq<nat>, right: seq<nat>, ldatum: Key, rdatum: Key, s1: nat, s2: nat, ghost states: seq<Split>)
    requires |entries| >= 3 && Permutes(entries, order)
    ensures left != [] && right != []
    ensures multiset(left) + multiset(right) == multiset(order)
    ensures -110 <= |left| - |right| <= 110
    ensures UnionOfSide(ldatum, entries, left) && UnionOfSide(rdatum, entries, right)
    ensures AreSeeds(entries, s1, s2) && s1 in left && s2 in right
    ensures IsRun(entries, s1, s2, order, states) && |states| == |order| + 1
    ensures states[|order|] == Split(left, right, ldatum, rdatum)
  {
    hide Deals, Distance, Reading, AreSeeds, SideHas;
    s1, s2 := PickSeeds(entries);
    SeedsInRange(entries, s1, s2);
    var split := Split([], [], entries[s1], entries[s2]);
    states := [split];
    for k := 0 to |order|
      invariant IsRun(entries, s1, s2, order, states)
      invariant |states| == k + 1 && states[k] == split
    {
      split := Deal(entries, s1, s2, split, order[k]);
      RunExtends(entries, s1, s2, order, states, split);
      states := states + [split];
    }
    left, right, ldatum, rdatum := split.left, split.right, split.l, split.r;
    RunOutcome(entries, s1, s2, order, states);
  }

  lemma SeedsInRange(entries: seq<Key>, s1: nat, s2: nat)
    requires AreSeeds(entries, s1, s2)
    ensures 1 <= s1 < s2 < |entries|
  {
  }

  lemma RunExtends(entries: seq<Key>, s1: nat, s2: nat, order: seq<nat>, states: seq<Split>, next: Split)
    requires IsRun(entries, s1, s2, order, states) && |states| <= |order|
    requires Deals(entries, s1, s2, states[|states| - 1], order[|states| - 1], next)
    ensures IsRun(entries, s1, s2, order, states + [next])
  {
    hide Deals;
    var more := states + [next];
    forall k | 0 <= k < |more| - 1 ensures Deals(entries, s1, s2, more[k], order[k], more[k + 1]) {
      if k < |states| - 1 { assert more[k] == states[k] && more[k + 1] == states[k + 1]; }
    }
  }

  /** What holds at the end of every run. */
  lemma RunOutcome(entries: seq<Key>, s1: nat, s2: nat, order: seq<nat>, states: seq<Split>)
    requires IsRun(entries, s1, s2, order, states) && |states| == |order| + 1
    requires Permutes(entries, order) && 1 <= s1 < s2 < |entries|
    ensures var s := states[|order|];
            && s1 in s.left && s2 in s.right
            && multiset(s.left) + multiset(s.right) == multiset(order)
            && -110 <= |s.left| - |s.right| <= 110
            && UnionOfSide(s.l, entries, s.left) && UnionOfSide(s.r, entries, s.right)
  {
    hide Deals, Reading, SideHas, UnionOfSide;
    var s := states[|order|];
    RunDeals(entries, s1, s2, order, states, |order|);
    assert order[..|order|] == order;
    BalanceThroughout(entries, s1, s2, order, states, |order|);
    KeysExactThroughout(entries, s1, s2, order, states, |order|);
    SeedsPlaced(entries, s1, s2, order, states);
    SideIsUnion(entries, order, s1, s.left, s.right, s.l);
    SideIsUnion(entries, order, s2, s.right, s.left, s.r);
  }

  /** key stands for exactly the bits of the entries at the given positions. */
  ghost predicate UnionOfSide(key: Key, entries: seq<Key>, side: seq<nat>) {
    && (forall k | 0 <= k < |side| :: side[k] < |entries|)
    && (forall i: nat | i < SIGLENBIT ::
          Reading(key)[i] <==> exists k :: 0 <= k < |side| && Reading(entries[side[k]])[i])
  }

  lemma SideIsUnion(entries: seq<Key>, order: seq<nat>, seed: nat, side: seq<nat>, other: seq<nat>, key: Key)
    requires Permutes(entries, order) && multiset(side) + multiset(other) == multiset(order)
    requires seed < |entries| && seed in side
    requires forall i: nat | i < SIGLENBIT :: Reading(key)[i] <==> SideHas(entries, seed, side, i)
    ensures UnionOfSide(key, entries, side)
  {
    hide Reading;
    forall k | 0 <= k < |side| ensures side[k] < |entries| {
      assert side[k] in multiset(side) + multiset(other);
      assert side[k] in order;
    }
    var s :| 0 <= s < |side| && side[s] == seed;
  }

  /** Each side's key covers its members. */
  lemma SideCovers(key: Key, entries: seq<Key>, side: seq<nat>, k: nat)
    requires UnionOfSide(key, entries, side) && k < |side|
    ensures Covers(key, entries[side[k]])
  {
    hide Reading;
  }

  lemma {:induction false} SeedsStay(entries: seq<Key>, s1: nat, s2: nat, order: seq<nat>, states: seq<Split>,
                                     k: nat, n: nat)
    requires IsRun(entries, s1, s2, order, states) && s1 != s2 && k < n < |states|
    ensures order[k] == s1 ==> s1 in states[n].left
    ensures order[k] == s2 ==> s2 in states[n].right
  {
    hide Distance, Absorbs, Cube;
    assert Deals(entries, s1, s2, states[n - 1], order[n - 1], states[n]);
    if k < n - 1 { SeedsStay(entries, s1, s2, order, states, k, n - 1); }
  }

  lemma SeedsPlaced(entries: seq<Key>, s1: nat, s2: nat, order: seq<nat>, states: seq<Split>)
    requires IsRun(entries, s1, s2, order, states) && |states| == |order| + 1
    requires Permutes(entries, order) && 1 <= s1 < s2 < |entries|
    ensures s1 in states[|order|].left && s2 in states[|order|].right
  {
    hide Deals;
    assert s1 in order && s2 in order;
    var a :| 0 <= a < |order| && order[a] == s1;
    var b :| 0 <= b < |order| && order[b] == s2;
    SeedsStay(entries, s1, s2, order, states, a, |order|);
    SeedsStay(entries, s1, s2, order, states, b, |order|);
  }
}
