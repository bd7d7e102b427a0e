/** Recognising and converting values of the old hstore format
    (contrib/hstore/hstore_compat.cpp). Old records occupy the same two words per
    pair: lengths in the first, position and null flag in the second. */
module HStoreCompat {
  import opened ByteString
  import opened HStoreLayout
  import opened Options
  import opened HStoreBuild

  // ---- Old records ----

  function OldKeyLen(d: Bytes, i: nat): (n: int)
    requires 8 * i + 8 <= |d|
    ensures 0 <= n < 65536
  {
    Word(d, 2 * i) % 65536
  }

  function OldValLen(d: Bytes, i: nat): (n: int)
    requires 8 * i + 8 <= |d|
    ensures 0 <= n < 65536
  {
    WordBounds(d, 2 * i);
    Word(d, 2 * i) / 65536
  }

  predicate OldIsNull(d: Bytes, i: nat)
    requires 8 * i + 8 <= |d|
  {
    Word(d, 2 * i + 1) % 2 == 1
  }

  function OldPos(d: Bytes, i: nat): (n: int)
    requires 8 * i + 8 <= |d|
    ensures 0 <= n < 0x8000_0000
  {
    WordBounds(d, 2 * i + 1);
    Word(d, 2 * i + 1) / 2
  }

  lemma WordBounds(d: Bytes, k: nat)
    requires 4 * k + 4 <= |d|
    ensures 0 <= Word(d, k) < 0x1_0000_0000
  {
  }

  /** Length in the string area; a null value has none, whatever its length field. */
  function OldLen(d: Bytes, i: nat): (n: nat)
    requires 8 * i + 8 <= |d|
    ensures n <= 131070
  {
    OldKeyLen(d, i) + if OldIsNull(d, i) then 0 else OldValLen(d, i)
  }

  /** Where record i must begin for the records to be contiguous. */
  function OldStart(d: Bytes, i: nat): nat
    requires 8 * i <= |d|
  {
    if i == 0 then 0 else OldStart(d, i - 1) + OldLen(d, i - 1)
  }

  /** A value as it is handed to the checks: header fields and data area. */
  ghost predicate Sane(varsize: nat, size: nat, d: Bytes) {
    && size < 0x1_0000_0000 && HSHRDSIZE <= varsize < 0x4000_0000
    && |d| == varsize - HSHRDSIZE
  }

  ghost predicate ValidOld(varsize: nat, size: nat, d: Bytes)
    requires Sane(varsize, size, d)
  {
    && size < HS_FLAG_NEWVERSION
    && (size != 0 ==>
          && size <= 0xFFF_FFFF
          && 8 * size <= |d|
          && (forall i | 0 <= i < size - 1 :: OldKeyLen(d, i) <= OldKeyLen(d, i + 1))
          && (forall i | 0 <= i < size :: OldPos(d, i) == OldStart(d, i))
          && 8 * size + OldStart(d, size) <= |d|)
  }

  /** hstoreValidOldFormat: 0 invalid, 1 valid with slop, 2 exactly valid. */
  method ValidOldFormat(varsize: nat, size: nat, d: Bytes) returns (r: nat)
    requires Sane(varsize, size, d)
    ensures r <= 2 && (r != 0 <==> ValidOld(varsize, size, d))
    ensures r != 0 && size != 0 ==> (r == 2 <==> varsize == CalcDataSize(size, OldStart(d, size)))
  {
    hide OldKeyLen, OldPos, OldLen;
    if size >= HS_FLAG_NEWVERSION { return 0; }
    var count := size;
    if count == 0 { return 2; }
    if count > 0xFFF_FFFF { return 0; }
    if CalcDataSize(count, 0) > varsize { return 0; }
    if OldPos(d, 0) != 0 {
      assert OldPos(d, 0) != OldStart(d, 0);
      return 0;
    }
    for i := 1 to count
      invariant forall k | 0 <= k < i - 1 :: OldKeyLen(d, k) <= OldKeyLen(d, k + 1)
    {
      if OldKeyLen(d, i) < OldKeyLen(d, i - 1) {
        assert !(OldKeyLen(d, i - 1) <= OldKeyLen(d, i - 1 + 1));
        return 0;
      }
    }
    var lastpos := 0;
    for i := 0 to count
      invariant lastpos == OldStart(d, i)
      invariant forall k | 0 <= k < i :: OldPos(d, k) == OldStart(d, k)
    {
      if OldPos(d, i) != lastpos { return 0; }
      lastpos := lastpos + OldLen(d, i);
    }
    var vsize := CalcDataSize(count, lastpos);
    if vsize > varsize { return 0; }
    if vsize != varsize { return 1; }
    return 2;
  }

  /** The running position never leaves 32 bits, so the C arithmetic is exact. */
  lemma PositionsFitWord(varsize: nat, size: nat, d: Bytes, i: nat)
    requires Sane(varsize, size, d) && i < size && 8 * size <= |d|
    requires OldPos(d, i) == OldStart(d, i)
    ensures CalcDataSize(size, OldStart(d, i + 1)) < 0x1_0000_0000
  {
  }

  predicate EntryFollows(d: Bytes, i: nat)
    requires 1 <= i && 4 * i + 4 <= |d|
  {
    !EntryIsFirst(Word(d, i)) && EntryEndPos(Word(d, i - 1)) <= EntryEndPos(Word(d, i))
  }

  predicate KeyFollows(d: Bytes, i: nat)
    requires 1 <= i && 8 * i + 8 <= |d|
  {
    EntryLen(d, 2 * (i - 1)) <= EntryLen(d, 2 * i) && !EntryIsNull(Word(d, 2 * i))
  }

  ghost predicate ValidNew(varsize: nat, size: nat, d: Bytes)
    requires Sane(varsize, size, d)
  {
    var count := size % 0x1000_0000;
    size < HS_FLAG_NEWVERSION && count != 0 ==>
      && 8 * count <= |d|
      && EntryIsFirst(Word(d, 0))
      && 8 * count + EntryEndPos(Word(d, 2 * count - 1)) <= |d|
      && (forall i | 1 <= i < 2 * count :: EntryFollows(d, i))
      && (forall i | 1 <= i < count :: KeyFollows(d, i))
  }

  /** Entry k as the source reads it before any check: beyond the value it finds
      whatever stray word lies there. */
  function EntryAt(d: Bytes, k: nat, stray: nat -> int): int {
    if 4 * k + 4 <= |d| then Word(d, k) else stray(k)
  }

  /** hstoreValidNewFormat. The verdict does not depend on memory beyond the value,
      although the source may read it. */
  method ValidNewFormat(varsize: nat, size: nat, d: Bytes, stray: nat -> int) returns (r: nat)
    requires Sane(varsize, size, d)
    ensures r <= 2 && (r != 0 <==> ValidNew(varsize, size, d))
    ensures r != 0 && size < HS_FLAG_NEWVERSION && size % 0x1000_0000 != 0 ==>
              var n := size % 0x1000_0000;
              r == 2 <==> varsize == CalcDataSize(n, EntryEndPos(EntryAt(d, 2 * n - 1, stray)))
  {
    hide Word, EntryIsFirst, EntryIsNull, EntryEndPos, EntryLen;
    var count := size % 0x1000_0000;
    var buflen := if count != 0 then EntryEndPos(EntryAt(d, 2 * count - 1, stray)) else 0;
    var vsize := count * 8 + HSHRDSIZE + buflen;
    if size >= HS_FLAG_NEWVERSION { return 2; }
    if count == 0 { return 2; }
    if !EntryIsFirst(EntryAt(d, 0, stray)) { return 0; }
    if vsize > varsize { return 0; }
    for i := 1 to 2 * count
      invariant forall k | 1 <= k < i :: EntryFollows(d, k)
    {
      if EntryIsFirst(Word(d, i)) || EntryEndPos(Word(d, i)) < EntryEndPos(Word(d, i - 1)) {
        assert !EntryFollows(d, i);
        return 0;
      }
    }
    for i := 1 to count
      invariant forall k | 1 <= k < i :: KeyFollows(d, k)
    {
      if EntryLen(d, 2 * i) < EntryLen(d, 2 * (i - 1)) {
        assert !KeyFollows(d, i);
        return 0;
      }
      if EntryIsNull(Word(d, 2 * i)) {
        assert !KeyFollows(d, i);
        return 0;
      }
    }
    if vsize != varsize { return 1; }
    return 2;
  }

  // ---- What an old value means ----

  /** Pair i as the old records describe it. */
  ghost function OldItem(d: Bytes, count: nat, i: nat): Item
    requires i < count && 8 * count <= |d|
    requires 8 * count + OldPos(d, i) + OldLen(d, i) <= |d|
  {
    var at, k := 8 * count + OldPos(d, i), OldKeyLen(d, i);
    Item(d[at..at + k], if OldIsNull(d, i) then None else Some(d[at + k..at + k + OldValLen(d, i)]))
  }

  lemma {:induction false} OldStartBelow(d: Bytes, i: nat, n: nat)
    requires i < n && 8 * n <= |d|
    ensures OldStart(d, i) + OldLen(d, i) <= OldStart(d, n)
    decreases n
  {
    hide OldLen;
    if i + 1 < n { OldStartBelow(d, i, n - 1); }
  }

  ghost function OldItems(d: Bytes, count: nat): (xs: seq<Item>)
    requires 8 * count <= |d| && 8 * count + OldStart(d, count) <= |d|
    requires forall i | 0 <= i < count :: OldPos(d, i) == OldStart(d, i)
    ensures |xs| == count
    ensures forall i | 0 <= i < count ::
              8 * count + OldPos(d, i) + OldLen(d, i) <= |d| && xs[i] == OldItem(d, count, i)
  {
    OldInBounds(d, count);
    seq(count, i requires 0 <= i < count => OldItem(d, count, i))
  }

  lemma {:induction false} OldInBounds(d: Bytes, count: nat)
    requires 8 * count <= |d| && 8 * count + OldStart(d, count) <= |d|
    requires forall i | 0 <= i < count :: OldPos(d, i) == OldStart(d, i)
    ensures forall i | 0 <= i < count :: 8 * count + OldPos(d, i) + OldLen(d, i) <= |d|
  {
    hide OldLen, OldPos;
    forall i | 0 <= i < count ensures 8 * count + OldPos(d, i) + OldLen(d, i) <= |d| {
      OldStartBelow(d, i, count);
    }
  }

  ghost predicate Contiguous(d: Bytes, count: nat) {
    && 8 * count <= |d| && 8 * count + OldStart(d, count) <= |d| <= HENTRY_POSMASK
    && forall i | 0 <= i < count :: OldPos(d, i) == OldStart(d, i)
  }

  /** Record i describes the pair x. */
  ghost predicate Describes(d: Bytes, count: nat, i: nat, x: Item)
    requires i < count && 8 * count <= |d|
  {
    && |x.key| == OldKeyLen(d, i) && ItemLen(x) == OldLen(d, i) && x.value.None? == OldIsNull(d, i)
    && OldPos(d, i) == OldStart(d, i)
    && 8 * count + OldPos(d, i) + OldLen(d, i) <= |d|
    && var at := 8 * count + OldPos(d, i); d[at..at + OldLen(d, i)] == ItemBytes(x)
  }

  ghost predicate DescribesAll(d: Bytes, xs: seq<Item>) {
    && 8 * |xs| <= |d| && 8 * |xs| + OldStart(d, |xs|) <= |d| <= HENTRY_POSMASK
    && forall i | 0 <= i < |xs| :: Describes(d, |xs|, i, xs[i])
  }

  lemma {:induction false} OldItemDescribed(d: Bytes, count: nat, i: nat)
    requires i < count && 8 * count <= |d| && 8 * count + OldPos(d, i) + OldLen(d, i) <= |d|
    requires OldPos(d, i) == OldStart(d, i)
    ensures Describes(d, count, i, OldItem(d, count, i))
  {
    hide Word, OldStart;
    var at, k, l := 8 * count + OldPos(d, i), OldKeyLen(d, i), OldLen(d, i);
    assert d[at..at + l] == d[at..at + k] + d[at + k..at + l];
  }

  lemma OldItemsDescribed(d: Bytes, count: nat)
    requires Contiguous(d, count)
    ensures DescribesAll(d, OldItems(d, count))
  {
    hide Describes, OldItem, OldStart, OldLen, OldPos;
    OldInBounds(d, count);
    forall i | 0 <= i < count ensures Describes(d, count, i, OldItems(d, count)[i]) {
      OldItemDescribed(d, count, i);
    }
  }

  lemma {:induction false} OldStartIsTotal(d: Bytes, xs: seq<Item>, k: nat)
    requires DescribesAll(d, xs) && k <= |xs|
    ensures TotalLen(xs[..k]) == OldStart(d, k)
  {
    hide OldPos, OldKeyLen, OldLen, Describes, ItemLen;
    if k > 0 {
      OldStartIsTotal(d, xs, k - 1);
      TotalLenPrefix(xs, k - 1);
      assert Describes(d, |xs|, k - 1, xs[k - 1]);
      hide TotalLen;
      DescribedLength(d, |xs|, k - 1, xs[k - 1]);
    }
  }

  lemma DescribedLength(d: Bytes, count: nat, i: nat, x: Item)
    requires i < count && 8 * count <= |d| && Describes(d, count, i, x)
    ensures ItemLen(x) == OldLen(d, i)
  {
    hide OldPos, OldIsNull, ItemBytes;
  }

  /** The two new words of record i. */
  lemma ConvertedEntries(d: Bytes, xs: seq<Item>, i: nat)
    requires DescribesAll(d, xs) && i < |xs|
    ensures var vallen := if OldIsNull(d, i) then 0 else OldValLen(d, i);
            && 0 <= OldPos(d, i) + OldKeyLen(d, i) + vallen <= HENTRY_POSMASK
            && KeyEntry(xs, i) == OldPos(d, i) + OldKeyLen(d, i)
            && ValueEntry(xs, i) == OldPos(d, i) + OldKeyLen(d, i) + vallen
                                    + (if OldIsNull(d, i) then HENTRY_ISNULL else 0)
  {
    hide TotalLen, OldStart, OldPos, OldKeyLen, OldValLen, OldIsNull, ItemBytes, ItemLen;
    OldStartIsTotal(d, xs, i);
    assert Describes(d, |xs|, i, xs[i]);
  }

  ghost predicate Converted(d: Bytes, d': Bytes, xs: seq<Item>, n: nat)
    requires n <= |xs| && |d| == |d'| && 8 * |xs| <= |d|
  {
    && SameBytes(d, d', 8 * n, |d|)
    && forall k | 0 <= k < n :: Word(d', 2 * k) == KeyEntry(xs, k) && Word(d', 2 * k + 1) == ValueEntry(xs, k)
  }

  lemma OldFrame(d: Bytes, d': Bytes, i: nat)
    requires |d| == |d'| && 8 * i + 8 <= |d| && SameBytes(d, d', 8 * i, |d|)
    ensures OldPos(d', i) == OldPos(d, i) && OldKeyLen(d', i) == OldKeyLen(d, i)
    ensures OldValLen(d', i) == OldValLen(d, i) && OldIsNull(d', i) == OldIsNull(d, i)
  {
    WordFrame(d, d', 2 * i);
    WordFrame(d, d', 2 * i + 1);
  }

  lemma ConvertedNext(d: Bytes, d1: Bytes, d2: Bytes, d3: Bytes, xs: seq<Item>, i: nat)
    requires |d| == |d1| == |d2| == |d3| && i < |xs| && 8 * |xs| <= |d| && Converted(d, d1, xs, i)
    requires SameBytes(d1, d2, 0, 8 * i) && SameBytes(d1, d2, 8 * i + 4, |d|) && Word(d2, 2 * i) == KeyEntry(xs, i)
    requires SameBytes(d2, d3, 0, 8 * i + 4) && SameBytes(d2, d3, 8 * i + 8, |d|)
    requires Word(d3, 2 * i + 1) == ValueEntry(xs, i)
    ensures Converted(d, d3, xs, i + 1)
  {
    hide Word, KeyEntry, ValueEntry;
    WordFrame(d2, d3, 2 * i);
    forall k | 0 <= k < i
      ensures Word(d3, 2 * k) == KeyEntry(xs, k) && Word(d3, 2 * k + 1) == ValueEntry(xs, k)
    {
      assert Word(d1, 2 * k) == KeyEntry(xs, k);
      WordFrame(d1, d2, 2 * k);
      WordFrame(d1, d2, 2 * k + 1);
      WordFrame(d2, d3, 2 * k);
      WordFrame(d2, d3, 2 * k + 1);
    }
  }

  /** The loop that overwrites old records with new entries, in place. */
  method ConvertEntries(a: array<byte>, count: nat, ghost xs: seq<Item>)
    requires count == |xs| && DescribesAll(a[..], xs) && 8 * count <= a.Length
    modifies a
    ensures Converted(old(a[..]), a[..], xs, count)
  {
    hide Word, OldPos, OldKeyLen, OldValLen, OldIsNull, KeyEntry, ValueEntry, DescribesAll, Converted;
    ghost var d := a[..];
    NothingConverted(d, xs);
    for i := 0 to count
      invariant Converted(d, a[..], xs, i)
    {
      ghost var d1 := a[..];
      OldFrameConverted(d, d1, xs, i);
      ConvertedEntries(d, xs, i);
      var pos, keylen := OldPos(a[..], i), OldKeyLen(a[..], i);
      var isnull := OldIsNull(a[..], i);
      var vallen := if isnull then 0 else OldValLen(a[..], i);
      PutWord(a, 2 * i, (pos + keylen) % (HENTRY_POSMASK + 1));
      ghost var d2 := a[..];
      PutWord(a, 2 * i + 1,
              (pos + keylen + vallen) % (HENTRY_POSMASK + 1) + if isnull then HENTRY_ISNULL else 0);
      ConvertedNext(d, d1, d2, a[..], xs, i);
    }
  }

  lemma NothingConverted(d: Bytes, xs: seq<Item>)
    requires 8 * |xs| <= |d|
    ensures Converted(d, d, xs, 0)
  {
  }

  lemma OldFrameConverted(d: Bytes, d': Bytes, xs: seq<Item>, i: nat)
    requires |d| == |d'| && i < |xs| && 8 * |xs| <= |d| && Converted(d, d', xs, i)
    ensures OldPos(d', i) == OldPos(d, i) && OldKeyLen(d', i) == OldKeyLen(d, i)
    ensures OldValLen(d', i) == OldValLen(d, i) && OldIsNull(d', i) == OldIsNull(d, i)
  {
    OldFrame(d, d', i);
  }

  lemma ConvertedStores(d: Bytes, d': Bytes, xs: seq<Item>)
    requires DescribesAll(d, xs) && |d| == |d'| && 8 * |xs| <= |d| && Converted(d, d', xs, |xs|)
    ensures Stores(d', 8 * |xs|, xs, false)
  {
    hide Word, KeyEntry, ValueEntry, HoldsItem, TotalLen, OldStart, Describes;
    OldStartIsTotal(d, xs, |xs|);
    assert xs[..|xs|] == xs;
    forall k | 0 <= k < |xs| ensures HoldsItem(d', 8 * |xs|, xs, k) {
      ConvertedHolds(d, d', xs, k);
    }
  }

  lemma ConvertedHolds(d: Bytes, d': Bytes, xs: seq<Item>, k: nat)
    requires DescribesAll(d, xs) && |d| == |d'| && k < |xs| && SameBytes(d, d', 8 * |xs|, |d|)
    ensures HoldsItem(d', 8 * |xs|, xs, k)
  {
    hide TotalLen, OldStart, OldPos, OldKeyLen, OldIsNull, OldLen, ItemBytes, ItemLen, HoldsItem;
    OldStartIsTotal(d, xs, k);
    assert Describes(d, |xs|, k, xs[k]);
    HoldsMeans(d, 8 * |xs|, xs, k, 8 * |xs| + OldPos(d, k), OldLen(d, k));
    HoldsFrame(d, d', 8 * |xs|, xs, k);
  }

  // ---- hstoreUpgrade ----

  /** The test that returns a value untouched. */
  predicate FastPath(varsize: nat, size: nat, d: Bytes, stray: nat -> int) {
    size >= HS_FLAG_NEWVERSION || size == 0 || (varsize < 32768 && EntryIsFirst(EntryAt(d, 0, stray)))
  }

  lemma ValidNewFits(varsize: nat, size: nat, d: Bytes)
    requires Sane(varsize, size, d) && ValidNew(varsize, size, d) && size < HS_FLAG_NEWVERSION
    ensures 8 * (size % 0x1000_0000) <= |d|
  {
  }

  lemma ValidOldIsContiguous(varsize: nat, size: nat, d: Bytes)
    requires Sane(varsize, size, d) && ValidOld(varsize, size, d)
    ensures 8 * size <= |d| && Contiguous(d, size) && size <= 0xFFF_FFFF
  {
    hide OldPos, OldKeyLen;
  }

  /** Overwrites an old value: entries, first flag, count and size. */
  method Convert(hs: HStore, ghost xs: seq<Item>)
    requires hs.size == |xs| && |xs| <= 0xFFF_FFFF
    requires 8 * |xs| <= hs.data.Length && DescribesAll(hs.data[..], xs)
    modifies hs, hs.data
    ensures Stores(hs.data[..], 8 * |xs|, xs, true) && ReadsBack(hs.data[..], xs)
    ensures forall i | 1 <= i < 2 * |xs| :: EntryFollows(hs.data[..], i)
    ensures hs.size == |xs| + HS_FLAG_NEWVERSION && hs.varsize == CalcDataSize(|xs|, TotalLen(xs))
  {
    hide Word, TotalLen, DescribesAll, Converted, Stores, EntryEndPos, EntryFollows;
    var count := hs.size;
    ghost var d := hs.data[..];
    ConvertEntries(hs.data, count, xs);
    ghost var d1 := hs.data[..];
    ConvertedStores(d, d1, xs);
    if count != 0 {
      FlagFirst(hs.data, xs, 8 * count);
    }
    StoresBoundsUnfinished(d1, xs);
    assert hs.data[..][8 * count..8 * count + TotalLen(xs)] == d1[8 * count..8 * count + TotalLen(xs)];
    StoresFinalized(d1, hs.data[..], 8 * count, xs);
    hs.size := count + HS_FLAG_NEWVERSION;
    StoredEnds(hs.data[..], xs);
    var bl := if count != 0 then EntryEndPos(Word(hs.data[..], 2 * count - 1)) else 0;
    hs.varsize := CalcDataSize(count, bl);
    StoresReadsBack(hs.data[..], xs);
  }

  lemma {:induction false} StoresBoundsUnfinished(d: Bytes, xs: seq<Item>)
    requires Stores(d, 8 * |xs|, xs, false)
    ensures 8 * |xs| + TotalLen(xs) <= |d|
  {
  }

  /** End positions of a stored list never decrease, and the last is the total. */
  lemma {:induction false} StoredEnds(d: Bytes, xs: seq<Item>)
    requires Stores(d, 8 * |xs|, xs, true)
    ensures 8 * |xs| <= |d|
    ensures xs != [] ==> EntryEndPos(Word(d, 2 * |xs| - 1)) == TotalLen(xs)
    ensures xs == [] ==> TotalLen(xs) == 0
    ensures forall i | 1 <= i < 2 * |xs| :: EntryFollows(d, i)
  {
    hide *;
    StoresBounds(d, xs);
    if xs != [] {
      StoredEnd(d, xs, |xs| - 1);
      assert xs[..|xs|] == xs;
    } else {
      NothingTotals(xs);
    }
    forall i | 1 <= i < 2 * |xs| ensures EntryFollows(d, i) {
      StoredFollows(d, xs, i);
    }
  }

  lemma StoredFollows(d: Bytes, xs: seq<Item>, i: nat)
    requires Stores(d, 8 * |xs|, xs, true) && 1 <= i < 2 * |xs|
    ensures 4 * i + 4 <= |d| && EntryFollows(d, i)
  {
    hide Word, EntryEndPos, EntryIsFirst, TotalLen, Stores;
    StoresBounds(d, xs);
    var k := i / 2;
    StoredEnd(d, xs, k);
    if i == 2 * k { StoredEnd(d, xs, k - 1); }
  }

  lemma StoredEnd(d: Bytes, xs: seq<Item>, k: nat)
    requires Stores(d, 8 * |xs|, xs, true) && k < |xs|
    ensures EntryEndPos(Word(d, 2 * k)) == TotalLen(xs[..k]) + |xs[k].key|
    ensures EntryEndPos(Word(d, 2 * k + 1)) == TotalLen(xs[..k]) + ItemLen(xs[k]) == TotalLen(xs[..k + 1])
    ensures EntryIsFirst(Word(d, 2 * k)) == (k == 0) && !EntryIsFirst(Word(d, 2 * k + 1))
  {
    hide Word, TotalLen, EntryEndPos, EntryIsFirst, EntryIsNull;
    TotalLenPrefix(xs, k);
    assert Word(d, 2 * k) == KeyEntry(xs, k) + if k == 0 then HENTRY_ISFIRST else 0;
    assert Word(d, 2 * k + 1) == ValueEntry(xs, k);
    FlagFacts(TotalLen(xs[..k]) + |xs[k].key|, k == 0, false);
    FlagFacts(TotalLen(xs[..k]) + ItemLen(xs[k]), false, xs[k].value.None?);
  }

  /** PG_DETOAST_DATUM_COPY. */
  method Copy(hs: HStore) returns (out: HStore)
    ensures fresh(out) && fresh(out.data)
    ensures out.varsize == hs.varsize && out.size == hs.size && out.data[..] == hs.data[..]
  {
    out := new HStore(hs.data.Length);
    out.varsize, out.size := hs.varsize, hs.size;
    CopyIn(out.data, 0, hs.data[..]);
    assert out.data[0..hs.data.Length] == out.data[..];
  }

  ghost predicate IsOld(varsize: nat, size: nat, d: Bytes, stray: nat -> int)
    requires Sane(varsize, size, d)
  {
    !FastPath(varsize, size, d, stray) && ValidOld(varsize, size, d)
  }

  /** hstoreUpgrade, built as contrib/hstore: ambiguous values count as old. */
  method Upgrade(hs: HStore, writable: bool, stray: nat -> int) returns (ok: bool, out: HStore)
    requires Sane(hs.varsize, hs.size, hs.data[..])
    modifies hs, hs.data
    ensures old(FastPath(hs.varsize, hs.size, hs.data[..], stray)) ==>
              ok && out == hs && unchanged(hs) && unchanged(hs.data)
    ensures old(IsOld(hs.varsize, hs.size, hs.data[..], stray)) ==>
              var (d, n) := (old(hs.data[..]), old(hs.size));
              && ok && 8 * n <= |d| && Contiguous(d, n)
              && ReadsBack(out.data[..], OldItems(d, n))
              && (forall i | 1 <= i < 2 * n :: 8 * n <= |out.data[..]| && EntryFollows(out.data[..], i))
              && out.size == n + HS_FLAG_NEWVERSION && out.varsize == CalcDataSize(n, OldStart(d, n))
              && (if writable then out == hs else fresh(out) && unchanged(hs) && unchanged(hs.data))
    ensures !old(FastPath(hs.varsize, hs.size, hs.data[..], stray)) && !old(ValidOld(hs.varsize, hs.size, hs.data[..])) ==>
              && out == hs && unchanged(hs.data)
              && (ok <==> old(ValidNew(hs.varsize, hs.size, hs.data[..])))
              && (ok && writable ==>
                    var n := old(hs.Count());
                    && hs.size == n + HS_FLAG_NEWVERSION
                    && hs.varsize == CalcDataSize(n, if n == 0 then 0 else EntryEndPos(Word(hs.data[..], 2 * n - 1))))
              && (!ok || !writable ==> unchanged(hs))
  {
    hide Word, EntryIsFirst, OldItems, OldStart, EntryEndPos, ValidNew, Contiguous, DescribesAll, ReadsBack;
    out := hs;
    var d := hs.data[..];
    if FastPath(hs.varsize, hs.size, d, stray) { return true, hs; }
    var validNew := ValidNewFormat(hs.varsize, hs.size, d, stray);
    var validOld := ValidOldFormat(hs.varsize, hs.size, d);
    if validOld == 0 || hs.size == 0 {
      if validNew == 0 { return false, hs; }
      ValidNewFits(hs.varsize, hs.size, d);
      if writable {
        var count := hs.Count();
        hs.size := count + HS_FLAG_NEWVERSION;
        var bl := if count != 0 then EntryEndPos(Word(hs.data[..], 2 * count - 1)) else 0;
        hs.varsize := CalcDataSize(count, bl);
      }
      return true, hs;
    }
    ValidOldIsContiguous(hs.varsize, hs.size, d);
    if !writable { out := Copy(hs); }
    UpgradeCopy(out, d);
    ok := true;
  }

  method UpgradeCopy(hs: HStore, d: Bytes)
    requires hs.data[..] == d && hs.size <= 0xFFF_FFFF && 8 * hs.size <= |d| && Contiguous(d, hs.size)
    modifies hs, hs.data
    ensures var n := old(hs.size);
            && Contiguous(d, n) && ReadsBack(hs.data[..], OldItems(d, n))
            && (forall i | 1 <= i < 2 * n :: EntryFollows(hs.data[..], i))
            && hs.size == n + HS_FLAG_NEWVERSION && hs.varsize == CalcDataSize(n, OldStart(d, n))
  {
    hide Word, OldStart, OldPos, OldKeyLen, OldLen, OldIsNull, DescribesAll, TotalLen, ReadsBack, EntryFollows;
    ghost var xs := OldItems(d, hs.size);
    OldItemsDescribed(d, hs.size);
    OldStartIsTotal(d, xs, hs.size);
    assert xs[..hs.size] == xs;
    Convert(hs, xs);
  }

  // ---- The fast path and old values ----

  /** An old value is wrongly taken by the fast path exactly when it is short and
      its first record is a null whose unused length field has its high bit set. */
  lemma FastPathTakesOldIff(varsize: nat, size: nat, d: Bytes, stray: nat -> int)
    requires Sane(varsize, size, d) && ValidOld(varsize, size, d) && size != 0
    ensures 8 <= |d|
    ensures FastPath(varsize, size, d, stray) <==> varsize < 32768 && OldIsNull(d, 0) && OldValLen(d, 0) >= 32768
  {
    ValidOldIsContiguous(varsize, size, d);
    OldStartBelow(d, 0, size);
    WordBounds(d, 0);
    hide Word, OldStart, ValidOld, Contiguous;
  }

  /** Such a value: one pair, key 01, null value with length field 32768. */
  lemma FastPathTakesOldExample(stray: nat -> int)
    ensures var d: Bytes := [1, 0, 0, 128, 1, 0, 0, 0, 1];
            Sane(17, 1, d) && ValidOld(17, 1, d) && FastPath(17, 1, d, stray)
  {
    var d: Bytes := [1, 0, 0, 128, 1, 0, 0, 0, 1];
    assert Word(d, 0) == 0x8000_0001 && Word(d, 1) == 1;
    assert OldStart(d, 0) == 0 && OldStart(d, 1) == 1;
  }
}
