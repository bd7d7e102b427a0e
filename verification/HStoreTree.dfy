/** Trees of hstore index keys: leaves compressed from rows, unions, and sides of
    splits, as contrib/hstore/hstore_gist.cpp forms them. */
module HStoreTree {
  import opened Signature
  import opened HStoreGist
  import opened HStoreSplit

  /** How a key came about. A page splits by position, and its position 0 is not
      used. */
  datatype History =
    | Leaf(row: HStore, key: Key)
    | UnionOf(parts: seq<History>, key: Key)
    | SplitSide(page: seq<History>, side: seq<nat>, key: Key)

  function Keys(hs: seq<History>): (ks: seq<Key>)
    ensures |ks| == |hs|
  {
    seq(|hs|, i requires 0 <= i < |hs| => hs[i].key)
  }

  /** Each key is what the code leaves, or stands for the same bits after
      compression. */
  ghost predicate Built(h: History) {
    match h
    case Leaf(row, key) => forall i: nat | i < SIGLENBIT :: Reading(key)[i] <==> Hashed(row, i)
    case UnionOf(parts, key) =>
      IsUnion(key, Keys(parts)) && forall k | 0 <= k < |parts| :: Built(parts[k])
    case SplitSide(page, side, key) =>
      && UnionOfSide(key, Keys(page), side)
      && forall k | 0 <= k < |side| :: side[k] < |page| && Built(page[side[k]])
  }

  ghost predicate Below(row: HStore, h: History) {
    match h
    case Leaf(r, _) => r == row
    case UnionOf(parts, _) => exists k :: 0 <= k < |parts| && Below(row, parts[k])
    case SplitSide(page, side, _) =>
      exists k :: 0 <= k < |side| && side[k] < |page| && Below(row, page[side[k]])
  }

  // ---- The code builds such trees ----

  /** Compression of a new row. */
  method StoreRow(row: HStore) returns (h: History)
    ensures Built(h) && h.Leaf? && h.row == row
  {
    hide Hashed;
    var key := CompressLeaf(row);
    h := Leaf(row, key);
  }

  lemma SameUnion(out: Key, key: Key, entries: seq<Key>)
    requires IsUnion(out, entries) && Reading(key) == Reading(out)
    ensures IsUnion(key, entries)
  {
  }

  /** Union of the keys of a page, then compression. */
  method StoreUnion(parts: seq<History>) returns (h: History)
    requires forall k | 0 <= k < |parts| :: Built(parts[k])
    ensures Built(h) && h.UnionOf? && h.parts == parts
  {
    hide Reading, IsUnion;
    var out := Union(Keys(parts));
    var key := CompressInner(out);
    SameUnion(out, key, Keys(parts));
    h := UnionOf(parts, key);
  }

  lemma SameSide(out: Key, key: Key, entries: seq<Key>, side: seq<nat>)
    requires UnionOfSide(out, entries, side) && Reading(key) == Reading(out)
    ensures UnionOfSide(key, entries, side)
  {
  }

  /** Split of a page, then compression of both keys; the order is what sorting by
      cost left. */
  method StoreSplit(page: seq<History>, order: seq<nat>) returns (l: History, r: History)
    requires |page| >= 3 && Permutes(Keys(page), order)
    requires forall k | 1 <= k < |page| :: Built(page[k])
    ensures l.SplitSide? && r.SplitSide? && l.page == page == r.page
    ensures Built(l) && Built(r)
    ensures multiset(l.side) + multiset(r.side) == multiset(order)
  {
    hide Reading, UnionOfSide, AreSeeds;
    var left, right, ldatum, rdatum, s1, s2, states := PickSplit(Keys(page), order);
    var lkey := CompressInner(ldatum);
    var rkey := CompressInner(rdatum);
    SameSide(ldatum, lkey, Keys(page), left);
    SameSide(rdatum, rkey, Keys(page), right);
    SidesWithin(left, right, order);
    l, r := SplitSide(page, left, lkey), SplitSide(page, right, rkey);
  }

  lemma SidesWithin(left: seq<nat>, right: seq<nat>, order: seq<nat>)
    requires multiset(left) + multiset(right) == multiset(order)
    ensures forall k | 0 <= k < |left| :: left[k] in order
    ensures forall k | 0 <= k < |right| :: right[k] in order
  {
    forall k | 0 <= k < |left| ensures left[k] in order {
      assert left[k] in multiset(left) + multiset(right);
    }
    forall k | 0 <= k < |right| ensures right[k] in order {
      assert right[k] in multiset(left) + multiset(right);
    }
  }

  // ---- No row lost ----

  /** Every bit a row hashes to is set in every key above it. */
  lemma {:induction false} HashedBitsReachUp(h: History, row: HStore, i: nat)
    requires Built(h) && Below(row, h) && i < SIGLENBIT && Hashed(row, i)
    ensures Reading(h.key)[i]
  {
    hide Hashed, Reading, IsUnion, UnionOfSide;
    match h
    case Leaf(r, key) =>
    case UnionOf(parts, key) =>
      var k :| 0 <= k < |parts| && Below(row, parts[k]);
      HashedBitsReachUp(parts[k], row, i);
      UnionCovers(key, Keys(parts), k);
    case SplitSide(page, side, key) =>
      var k :| 0 <= k < |side| && side[k] < |page| && Below(row, page[side[k]]);
      HashedBitsReachUp(page[side[k]], row, i);
      SideCovers(key, Keys(page), side, k);
  }

  /** No row is lost: whatever query a row satisfies, every key above accepts it. */
  lemma {:induction false} NoRowLost(h: History, row: HStore, q: Query)
    requires Built(h) && Below(row, h) && Satisfies(row, q)
    ensures Accepts(h.key, q)
  {
    hide BitFor, Reading, Hashed, Built, Below, Satisfies, Accepts;
    forall i: nat | i < SIGLENBIT && Hashed(row, i) ensures Reading(h.key)[i] {
      HashedBitsReachUp(h, row, i);
    }
    UnderAccepts(h.key, row, q);
  }
}
