/** The routines of contrib/btree_gist/btree_utils_var.cpp over stored keys. */
module VarKeySupport {
  import opened ByteString
  import opened VarKey
  import opened VarKeyTree
  import opened VarKeyLoss
  import opened VarKeyLayout
  import opened Options
  import opened Entries

  ghost predicate IsKey(k: Bytes) {
    Readable(k) && Storable(KeyReadable(k).range)
  }

  ghost function RangeOf(k: Bytes): Range
    requires IsKey(k)
  {
    KeyReadable(k).range
  }

  /** A fresh allocation, contents unspecified. */
  method Palloc(n: nat) returns (junk: Bytes)
    ensures |junk| == n
  {
    junk := seq(n, _ => 0);
  }

  method NodeCpLen(node: Bytes) returns (len: nat)
    requires IsKey(node)
    ensures len == Shared(RangeOf(node))
  {
    var r := KeyReadable(node).range;
    var ml := if |r.lower| < |r.upper| then |r.lower| else |r.upper|;
    var i := 0;
    while i < ml
      invariant 0 <= i <= ml
      invariant forall k | 0 <= k < i :: r.lower[k] == r.upper[k]
    {
      if r.lower[i] != r.upper[i] {
        CommonPrefixIs(r.lower, r.upper, i);
        return i;
      }
      i := i + 1;
    }
    CommonPrefixIs(r.lower, r.upper, ml);
    return ml;
  }

  method TruncateKey(node: Bytes, cpfLength: nat) returns (out: Bytes)
    requires IsKey(node)
    ensures IsKey(out) && RangeOf(out) == NodeTruncate(RangeOf(node), cpfLength)
  {
    var r := NodeTruncate(KeyReadable(node).range, cpfLength);
    var junk := Palloc(Gap(r.lower));
    out := KeyCopy(View(r, false), false, junk);
    CopyReadsBack(View(r, false), false, junk);
  }

  /** gbt_var_bin_union: u is the running union, None before the first entry. */
  method BinUnion(u: Option<Bytes>, e: Bytes) returns (out: Option<Bytes>)
    requires IsKey(e) && (u.Some? ==> IsKey(u.value))
    ensures out.Some? && IsKey(out.value)
    ensures RangeOf(out.value) == if u.None? then RangeOf(e) else Join(RangeOf(u.value), RangeOf(e))
  {
    hide CommonPrefix;
    var eo := KeyReadable(e);
    var nr := eo.range;
    if u.Some? {
      var ro := KeyReadable(u.value).range;
      nr := ro;
      var update := false;
      if Compare(ro.lower, eo.range.lower) > 0 {
        nr := nr.(lower := eo.range.lower);
        update := true;
      }
      if Compare(ro.upper, eo.range.upper) < 0 {
        nr := nr.(upper := eo.range.upper);
        update := true;
      }
      if !update { return u; }
    }
    var junk := Palloc(Gap(nr.lower));
    out := Some(KeyCopy(View(nr, false), true, junk));
    CopyReadsBack(View(nr, false), true, junk);
  }

  ghost predicate AllKeys(entries: seq<Bytes>) {
    forall i | 0 <= i < |entries| :: IsKey(entries[i])
  }

  ghost function RangesOf(entries: seq<Bytes>): (rs: seq<Range>)
    requires AllKeys(entries)
    ensures |rs| == |entries| && forall i | 0 <= i < |rs| :: rs[i] == RangeOf(entries[i])
  {
    seq(|entries|, i requires 0 <= i < |entries| => RangeOf(entries[i]))
  }

  lemma JoinAllNext(ks: seq<Range>, n: nat)
    requires 0 < n < |ks|
    ensures JoinAll(ks[..n + 1]) == Join(JoinAll(ks[..n]), ks[n])
  {
    assert ks[..n + 1][..n] == ks[..n];
  }

  /** gbt_var_union. */
  method UnionEntries(entries: seq<Bytes>) returns (out: Bytes)
    requires entries != [] && AllKeys(entries)
    ensures IsKey(out) && RangeOf(out) == UnionKey(RangesOf(entries))
  {
    hide CommonPrefix;
    hide IsKey;
    hide RangeOf;
    ghost var ks := RangesOf(entries);
    var first := BinUnion(None, entries[0]);
    var u := first.value;
    assert ks[..1] == [ks[0]];
    for i := 1 to |entries|
      invariant IsKey(u) && RangeOf(u) == JoinAll(ks[..i])
    {
      JoinAllNext(ks, i);
      var next := BinUnion(Some(u), entries[i]);
      u := next.value;
    }
    assert ks[..|ks|] == ks;
    var plen := NodeCpLen(u);
    out := TruncateKey(u, plen + 1);
  }

  // ---- Split ----

  ghost function KeysAt(entries: seq<Bytes>, at: seq<nat>): (rs: seq<Range>)
    requires AllKeys(entries) && InRange(at, entries)
    ensures |rs| == |at| && forall i | 0 <= i < |rs| :: rs[i] == RangeOf(entries[at[i]])
  {
    At(RangesOf(entries), at)
  }

  /** The loop that deals sorted positions to the two sides. */
  method DealOut(entries: seq<Bytes>, order: seq<nat>)
    returns (left: seq<nat>, right: seq<nat>, lu: Option<Bytes>, ru: Option<Bytes>)
    requires AllKeys(entries) && InRange(order, entries)
    ensures left + right == order && |left| == |order| / 2
    ensures HoldsJoin(entries, left, lu) && HoldsJoin(entries, right, ru)
  {
    hide *;
    var maxoff := |order|;
    var half := maxoff / 2;
    left, right, lu, ru := [], [], None, None;
    assert HoldsJoin(entries, left, lu) && HoldsJoin(entries, right, ru) by { HoldsNothing(entries); }
    for i := 1 to maxoff + 1
      invariant left + right == order[..i - 1]
      invariant i - 1 <= half ==> right == [] && |left| == i - 1
      invariant i - 1 > half ==> |left| == half
      invariant HoldsJoin(entries, left, lu) && HoldsJoin(entries, right, ru)
    {
      assert order[..i] == order[..i - 1] + [order[i - 1]];
      if i <= half {
        lu := JoinPosition(entries, left, lu, order, i - 1);
        left := left + [order[i - 1]];
      } else {
        ru := JoinPosition(entries, right, ru, order, i - 1);
        right := right + [order[i - 1]];
      }
    }
    assert order[..maxoff] == order;
  }

  lemma HoldsNothing(entries: seq<Bytes>)
    requires AllKeys(entries)
    ensures HoldsJoin(entries, [], None)
  {
  }

  method JoinPosition(entries: seq<Bytes>, side: seq<nat>, u: Option<Bytes>, order: seq<nat>, i: nat)
    returns (out: Option<Bytes>)
    requires AllKeys(entries) && InRange(order, entries) && i < |order|
    requires HoldsJoin(entries, side, u)
    ensures HoldsJoin(entries, side + [order[i]], out)
  {
    hide IsKey;
    hide RangeOf;
    hide CommonPrefix;
    JoinOneMore(entries, side, order[i]);
    out := BinUnion(u, entries[order[i]]);
  }

  lemma SortedInRange(entries: seq<Bytes>, order: seq<nat>)
    requires AllKeys(entries) && Sorted(RangesOf(entries), SortsBefore, order)
    ensures InRange(order, entries) && |order| == |entries| - 1
  {
  }

  lemma HoldsJoinMeans(entries: seq<Bytes>, side: seq<nat>, u: Option<Bytes>)
    requires AllKeys(entries) && HoldsJoin(entries, side, u) && side != []
    ensures InRange(side, entries)
    ensures u.Some? && IsKey(u.value) && RangeOf(u.value) == JoinAll(KeysAt(entries, side))
  {
  }

  lemma KeysInOrder(entries: seq<Bytes>, order: seq<nat>, left: seq<nat>, right: seq<nat>)
    requires AllKeys(entries) && Sorted(RangesOf(entries), SortsBefore, order) && left + right == order
    ensures InRange(left, entries) && InRange(right, entries)
    ensures Separated(KeysAt(entries, left), KeysAt(entries, right), SortsBefore)
  {
    hide IsKey, RangeOf, SortsBefore;
    SidesInOrder(RangesOf(entries), SortsBefore, order, left, right);
  }

  /** gbt_var_picksplit. Position 0 of the entry vector is unused; order is what
      qsort made of the others. */
  method PickSplit(entries: seq<Bytes>, order: seq<nat>)
    returns (left: seq<nat>, right: seq<nat>, ldatum: Bytes, rdatum: Bytes)
    requires |entries| >= 3 && AllKeys(entries)
    requires Sorted(RangesOf(entries), SortsBefore, order)
    ensures left + right == order && |left| == |order| / 2
    ensures left != [] && right != []
    ensures InRange(left, entries) && InRange(right, entries)
    ensures Separated(KeysAt(entries, left), KeysAt(entries, right), SortsBefore)
    ensures IsKey(ldatum) && IsKey(rdatum)
    ensures var l, r := JoinAll(KeysAt(entries, left)), JoinAll(KeysAt(entries, right));
            var n := Max(Shared(l), Shared(r)) + 1;
            RangeOf(ldatum) == NodeTruncate(l, n) && RangeOf(rdatum) == NodeTruncate(r, n)
  {
    hide *;
    var lu, ru;
    SortedInRange(entries, order);
    left, right, lu, ru := DealOut(entries, order);
    KeysInOrder(entries, order, left, right);
    HoldsJoinMeans(entries, left, lu);
    HoldsJoinMeans(entries, right, ru);
    var ll := NodeCpLen(lu.value);
    var lr := NodeCpLen(ru.value);
    var n := Max(ll, lr) + 1;
    ldatum := TruncateKey(lu.value, n);
    rdatum := TruncateKey(ru.value, n);
  }

  ghost predicate HoldsJoin(entries: seq<Bytes>, side: seq<nat>, u: Option<Bytes>)
    requires AllKeys(entries)
  {
    && InRange(side, entries)
    && (side == [] <==> u.None?)
    && (u.Some? ==> IsKey(u.value) && RangeOf(u.value) == JoinAll(KeysAt(entries, side)))
  }

  lemma JoinOneMore(entries: seq<Bytes>, side: seq<nat>, p: nat)
    requires AllKeys(entries)
    requires InRange(side, entries) && p < |entries|
    ensures InRange(side + [p], entries)
    ensures JoinAll(KeysAt(entries, side + [p])) ==
            if side == [] then RangeOf(entries[p])
            else Join(JoinAll(KeysAt(entries, side)), RangeOf(entries[p]))
  {
    var more := KeysAt(entries, side + [p]);
    assert more[..|side|] == KeysAt(entries, side);
  }

  /** Splitting a page of leaf entries: either side's key finds every value of
      that side, for all six operators. */
  lemma LeafSplitLosesNothing(entries: seq<Bytes>, left: seq<nat>, right: seq<nat>, p: nat,
                              q: Bytes, strategy: Strategy)
    requires AllKeys(entries) && forall i | 0 <= i < |entries| :: KeyReadable(entries[i]).isLeaf
    requires InRange(left, entries) && InRange(right, entries)
    requires right != [] && p < |left|
    requires Satisfies(RangeOf(entries[left[p]]).lower, q, strategy)
    ensures var l, r := JoinAll(KeysAt(entries, left)), JoinAll(KeysAt(entries, right));
            Consistent(NodeTruncate(l, Max(Shared(l), Shared(r)) + 1), q, strategy, false)
  {
    hide CommonPrefix, IsKey, KeyReadable, JoinAll, Consistent;
    var ks := KeysAt(entries, left);
    var l, r := JoinAll(ks), JoinAll(KeysAt(entries, right));
    forall i | 0 <= i < |ks| ensures ks[i].lower == ks[i].upper {
      LeafView(entries[left[i]]);
    }
    LeafSideLosesNothing(ks, Max(Shared(l), Shared(r)) + 1, p, q, strategy);
  }

  lemma {:induction false} LeafSideLosesNothing(ks: seq<Range>, n: nat, p: nat, q: Bytes, strategy: Strategy)
    requires (forall i | 0 <= i < |ks| :: ks[i].lower == ks[i].upper) && p < |ks|
    requires n >= Shared(JoinAll(ks)) + 1 && Satisfies(ks[p].lower, q, strategy)
    ensures Consistent(NodeTruncate(JoinAll(ks), n), q, strategy, false)
  {
    hide Satisfies, JoinAll, Consistent, Shared;
    var parts := seq(|ks|, i requires 0 <= i < |ks| => Leaf(ks[i].lower));
    assert AllProper(parts);
    forall i | 0 <= i < |ks| ensures ks[i] == KeysOf(parts)[i] {
      KeysOfAt(parts, i);
    }
    assert ks == KeysOf(parts);
    var h := SplitSide(parts, n);
    assert Proper(h) && !IsInternalSplit(h);
    assert Below(ks[p].lower, parts[p]);
    NoRowLost(h, ks[p].lower, q, strategy);
  }

  lemma LeafView(k: Bytes)
    requires IsKey(k) && KeyReadable(k).isLeaf
    ensures RangeOf(k).lower == RangeOf(k).upper
  {
  }
}
