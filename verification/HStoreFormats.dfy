/** What the two formats hold: which lists of pairs lead to a value that the checks of
    contrib/hstore/hstore_compat.cpp accept. */
module HStoreFormats {
  import opened ByteString
  import opened HStoreLayout
  import opened HStoreBuild
  import opened HStoreCompat

  /** The order an hstore keeps its keys in, as far as the checks look at it. */
  ghost predicate KeysByLength(xs: seq<Item>) {
    forall i, j | 0 <= i < j < |xs| :: |xs[i].key| <= |xs[j].key|
  }

  // ---- The old format, byte by byte ----

  /** Two bytes at position at, low one first. */
  ghost predicate HalfAt(d: Bytes, at: nat, v: int) {
    at + 2 <= |d| && v == d[at] as int + 256 * d[at + 1] as int
  }

  /** Record i: key length, recorded value length, position and null bit. */
  ghost predicate RecordAt(d: Bytes, i: nat, pos: int, klen: int, vlen: int, isNull: bool) {
    var w := 2 * pos + if isNull then 1 else 0;
    && HalfAt(d, 8 * i, klen) && HalfAt(d, 8 * i + 2, vlen)
    && 8 * i + 8 <= |d|
    && w == d[8 * i + 4] as int + 256 * d[8 * i + 5] as int + 65536 * d[8 * i + 6] as int + 16777216 * d[8 * i + 7] as int
  }

  /** Record i and its strings hold pair i; the length recorded for a null is free. */
  ghost predicate HoldsOld(d: Bytes, xs: seq<Item>, i: nat)
    requires i < |xs|
  {
    var x, at := xs[i], 8 * |xs| + TotalLen(xs[..i]);
    && (exists vlen :: RecordAt(d, i, TotalLen(xs[..i]), |x.key|, vlen, x.value.None?)
                       && (x.value.Some? ==> vlen == |x.value.value|))
    && at + ItemLen(x) <= |d| && d[at..at + ItemLen(x)] == ItemBytes(x)
  }

  /** d is the old form of xs, possibly with unused bytes at its end. */
  ghost predicate IsOldImage(d: Bytes, xs: seq<Item>) {
    8 * |xs| + TotalLen(xs) <= |d| && forall i | 0 <= i < |xs| :: HoldsOld(d, xs, i)
  }

  lemma WordOfHalves(d: Bytes, k: nat, lo: int, hi: int)
    requires HalfAt(d, 4 * k, lo) && HalfAt(d, 4 * k + 2, hi)
    ensures Word(d, k) == lo + 65536 * hi && 0 <= lo < 65536 && 0 <= hi < 65536
  {
  }

  lemma RecordIs(d: Bytes, i: nat, pos: int, klen: int, vlen: int, isNull: bool)
    requires 8 * i + 8 <= |d|
    ensures RecordAt(d, i, pos, klen, vlen, isNull) <==>
            klen == OldKeyLen(d, i) && vlen == OldValLen(d, i) && pos == OldPos(d, i) && isNull == OldIsNull(d, i)
  {
    hide Word;
    var b: seq<int> := seq(8, j requires 0 <= j < 8 => d[8 * i + j] as int);
    var k, v, lo, hi := b[0] + 256 * b[1], b[2] + 256 * b[3], b[4] + 256 * b[5], b[6] + 256 * b[7];
    assert HalfAt(d, 8 * i, k) && HalfAt(d, 8 * i + 2, v) && HalfAt(d, 8 * i + 4, lo) && HalfAt(d, 8 * i + 6, hi);
    WordOfHalves(d, 2 * i, k, v);
    WordOfHalves(d, 2 * i + 1, lo, hi);
    var w := 2 * pos + if isNull then 1 else 0;
    assert w == lo + 65536 * hi <==> pos == OldPos(d, i) && isNull == OldIsNull(d, i);
  }

  lemma {:induction false} ImageDescribes(d: Bytes, xs: seq<Item>, k: nat)
    requires IsOldImage(d, xs) && k <= |xs|
    ensures OldStart(d, k) == TotalLen(xs[..k])
    decreases k
  {
    hide OldPos, OldKeyLen, OldValLen, OldIsNull, ItemBytes, RecordAt;
    if k > 0 {
      ImageDescribes(d, xs, k - 1);
      TotalLenPrefix(xs, k - 1);
      ImageRecord(d, xs, k - 1);
    } else {
      NothingTotals(xs);
    }
  }

  lemma ImageRecord(d: Bytes, xs: seq<Item>, i: nat)
    requires IsOldImage(d, xs) && i < |xs|
    ensures 8 * |xs| <= |d| && OldPos(d, i) == TotalLen(xs[..i]) && OldKeyLen(d, i) == |xs[i].key|
    ensures OldIsNull(d, i) == xs[i].value.None? && OldLen(d, i) == ItemLen(xs[i])
  {
    hide OldPos, OldKeyLen, OldValLen, OldIsNull, ItemBytes, TotalLen, RecordAt;
    assert HoldsOld(d, xs, i);
    var vlen :| RecordAt(d, i, TotalLen(xs[..i]), |xs[i].key|, vlen, xs[i].value.None?)
                && (xs[i].value.Some? ==> vlen == |xs[i].value.value|);
    RecordIs(d, i, TotalLen(xs[..i]), |xs[i].key|, vlen, xs[i].value.None?);
  }

  /** The records of an old value describe the pairs whose form it is, and conversely. */
  lemma {:induction false} DescribesIffImage(d: Bytes, xs: seq<Item>)
    requires |d| <= HENTRY_POSMASK
    ensures DescribesAll(d, xs) <==> IsOldImage(d, xs)
  {
    hide OldPos, OldKeyLen, OldValLen, OldIsNull, OldLen, ItemBytes, ItemLen, TotalLen, OldStart, RecordAt;
    if IsOldImage(d, xs) {
      ImageDescribes(d, xs, |xs|);
      assert xs[..|xs|] == xs;
      forall i | 0 <= i < |xs| ensures Describes(d, |xs|, i, xs[i]) {
        ImageRecord(d, xs, i);
        ImageDescribes(d, xs, i);
        assert HoldsOld(d, xs, i);
      }
    }
    if DescribesAll(d, xs) {
      OldStartIsTotal(d, xs, |xs|);
      assert xs[..|xs|] == xs;
      forall i | 0 <= i < |xs| ensures HoldsOld(d, xs, i) {
        OldStartIsTotal(d, xs, i);
        assert Describes(d, |xs|, i, xs[i]);
        DescribedIsHeld(d, xs, i);
      }
    }
  }

  lemma {:induction false} DescribedIsHeld(d: Bytes, xs: seq<Item>, i: nat)
    requires i < |xs| && 8 * |xs| <= |d| && Describes(d, |xs|, i, xs[i]) && OldStart(d, i) == TotalLen(xs[..i])
    ensures HoldsOld(d, xs, i)
  {
    hide OldPos, OldKeyLen, OldValLen, OldIsNull, ItemBytes, TotalLen, OldStart, RecordAt;
    RecordIs(d, i, TotalLen(xs[..i]), |xs[i].key|, OldValLen(d, i), xs[i].value.None?);
    assert RecordAt(d, i, TotalLen(xs[..i]), |xs[i].key|, OldValLen(d, i), xs[i].value.None?);
  }

  // ---- Which old values are valid ----

  /** hstoreValidOldFormat accepts exactly the old forms of lists of pairs whose keys
      never get shorter, of any length the count allows. */
  lemma {:induction false} ValidOldIff(varsize: nat, size: nat, d: Bytes)
    requires Sane(varsize, size, d)
    ensures ValidOld(varsize, size, d) <==>
            size <= 0xFFF_FFFF && exists xs :: |xs| == size && KeysByLength(xs) && IsOldImage(d, xs)
  {
    hide OldPos, OldKeyLen, OldLen, OldStart, DescribesAll, IsOldImage, OldItem, Describes;
    if ValidOld(varsize, size, d) {
      ValidOldIsContiguous(varsize, size, d);
      var xs := OldItems(d, size);
      OldItemsDescribed(d, size);
      DescribesIffImage(d, xs);
      OldKeysByLength(d, xs);
    }
    if size <= 0xFFF_FFFF {
      forall xs | |xs| == size && KeysByLength(xs) && IsOldImage(d, xs) ensures ValidOld(varsize, size, d) {
        ImageIsValid(varsize, d, xs);
      }
    }
  }

  lemma {:induction false} OldKeysByLength(d: Bytes, xs: seq<Item>)
    requires DescribesAll(d, xs) && forall i | 0 <= i < |xs| - 1 :: OldKeyLen(d, i) <= OldKeyLen(d, i + 1)
    ensures KeysByLength(xs)
  {
    hide OldKeyLen, OldPos, OldLen, OldIsNull, OldStart, ItemBytes;
    forall i, j | 0 <= i < j < |xs| ensures |xs[i].key| <= |xs[j].key| {
      assert Describes(d, |xs|, i, xs[i]) && Describes(d, |xs|, j, xs[j]);
      LengthsGrow(d, |xs|, i, j);
    }
  }

  lemma {:induction false} LengthsGrow(d: Bytes, n: nat, i: nat, j: nat)
    requires 8 * n <= |d| && i <= j < n && forall k | 0 <= k < n - 1 :: OldKeyLen(d, k) <= OldKeyLen(d, k + 1)
    ensures OldKeyLen(d, i) <= OldKeyLen(d, j)
    decreases j
  {
    hide OldKeyLen;
    if i < j {
      LengthsGrow(d, n, i, j - 1);
      assert OldKeyLen(d, j - 1) <= OldKeyLen(d, j - 1 + 1);
    }
  }

  lemma {:induction false} ImageIsValid(varsize: nat, d: Bytes, xs: seq<Item>)
    requires Sane(varsize, |xs|, d) && |xs| <= 0xFFF_FFFF && KeysByLength(xs) && IsOldImage(d, xs)
    ensures ValidOld(varsize, |xs|, d)
  {
    hide OldPos, OldKeyLen, OldLen, OldIsNull, OldStart, ItemBytes, TotalLen, ItemLen, HoldsOld;
    ImageDescribes(d, xs, |xs|);
    assert xs[..|xs|] == xs;
    forall i | 0 <= i < |xs| ensures OldPos(d, i) == OldStart(d, i) && OldKeyLen(d, i) == |xs[i].key| {
      ImageRecord(d, xs, i);
      ImageDescribes(d, xs, i);
    }
  }

  /** The upgrade of any such value off the fast path succeeds and gives those pairs. */
  method UpgradeImage(hs: HStore, writable: bool, stray: nat -> int, ghost xs: seq<Item>) returns (out: HStore)
    requires Sane(hs.varsize, hs.size, hs.data[..]) && !FastPath(hs.varsize, hs.size, hs.data[..], stray)
    requires hs.size == |xs| <= 0xFFF_FFFF && KeysByLength(xs) && IsOldImage(hs.data[..], xs)
    modifies hs, hs.data
    ensures ReadsBack(out.data[..], xs)
    ensures out.size == |xs| + HS_FLAG_NEWVERSION && out.varsize == CalcDataSize(|xs|, TotalLen(xs))
  {
    hide FastPath, Sane, ReadsBack, TotalLen, OldStart, KeysByLength, IsOldImage, ValidOld, Contiguous, CalcDataSize;
    ghost var d := hs.data[..];
    ImageOnly(hs.varsize, d, xs);
    var ok;
    ok, out := Upgrade(hs, writable, stray);
  }

  /** An image is the form of one list only. */
  lemma {:induction false} ImageOnly(varsize: nat, d: Bytes, xs: seq<Item>)
    requires Sane(varsize, |xs|, d) && |xs| <= 0xFFF_FFFF && KeysByLength(xs) && IsOldImage(d, xs)
    ensures ValidOld(varsize, |xs|, d) && Contiguous(d, |xs|)
    ensures OldItems(d, |xs|) == xs && OldStart(d, |xs|) == TotalLen(xs)
  {
    hide OldPos, OldKeyLen, OldLen, OldIsNull, OldStart, ItemBytes, TotalLen, ItemLen, DescribesAll, Describes, OldItem;
    ImageIsValid(varsize, d, xs);
    ValidOldIsContiguous(varsize, |xs|, d);
    ImageDescribes(d, xs, |xs|);
    assert xs[..|xs|] == xs;
    DescribesIffImage(d, xs);
    var ys := OldItems(d, |xs|);
    OldItemsDescribed(d, |xs|);
    forall i | 0 <= i < |xs| ensures ys[i] == xs[i] {
      DescribedOnce(d, ys, xs, i);
    }
  }

  lemma DescribedOnce(d: Bytes, xs: seq<Item>, ys: seq<Item>, i: nat)
    requires |xs| == |ys| && i < |xs| && DescribesAll(d, xs) && DescribesAll(d, ys)
    ensures xs[i] == ys[i]
  {
    hide OldPos, OldKeyLen, OldIsNull, OldStart, OldLen, ItemBytes;
    assert Describes(d, |xs|, i, xs[i]) && Describes(d, |ys|, i, ys[i]);
    SameBytesSameItem(xs[i], ys[i]);
  }

  lemma SameBytesSameItem(x: Item, y: Item)
    requires ItemBytes(x) == ItemBytes(y) && |x.key| == |y.key| && x.value.None? == y.value.None?
    ensures x == y
  {
    var b, k := ItemBytes(x), |x.key|;
    assert x.key == b[..k] == y.key;
    if x.value.Some? { assert x.value.value == b[k..] == y.value.value; }
  }

  // ---- Which new values are valid ----

  /** A stored list whose keys never get shorter is a valid new value. */
  lemma {:induction false} StoredIsValidNew(varsize: nat, size: nat, d: Bytes, xs: seq<Item>)
    requires Sane(varsize, size, d) && size % 0x1000_0000 == |xs|
    requires Stores(d, 8 * |xs|, xs, true) && KeysByLength(xs)
    ensures ValidNew(varsize, size, d)
  {
    hide Word, TotalLen, Stores, EntryEndPos, EntryIsFirst, EntryIsNull, EntryLen;
    StoresBounds(d, xs);
    StoredEnds(d, xs);
    if xs != [] {
      StoredEnd(d, xs, 0);
      assert 2 * 0 == 0;
      forall i | 1 <= i < |xs| ensures KeyFollows(d, i) {
        EntryPositions(d, xs, i - 1);
        EntryPositions(d, xs, i);
        StoredKeyNotNull(d, xs, i);
      }
    }
  }

  lemma StoredKeyNotNull(d: Bytes, xs: seq<Item>, k: nat)
    requires Stores(d, 8 * |xs|, xs, true) && k < |xs|
    ensures 8 * |xs| <= |d| && !EntryIsNull(Word(d, 2 * k))
  {
    hide Word, TotalLen, EntryEndPos, EntryIsFirst, EntryIsNull, HoldsItem;
    TotalLenPrefix(xs, k);
    assert Word(d, 2 * k) == KeyEntry(xs, k) + if k == 0 then HENTRY_ISFIRST else 0;
    FlagFacts(TotalLen(xs[..k]) + |xs[k].key|, k == 0, false);
  }

  /** Of a valid new value every pair can be read, key and value lie one behind the
      other in order, and the keys never get shorter. */
  lemma {:induction false} ValidNewReads(varsize: nat, size: nat, d: Bytes, i: nat)
    requires Sane(varsize, size, d) && ValidNew(varsize, size, d) && size < HS_FLAG_NEWVERSION
    requires i < size % 0x1000_0000
    ensures Readable(d, size % 0x1000_0000, i)
    ensures EntryOff(d, 2 * i + 1) == EntryOff(d, 2 * i) + EntryLen(d, 2 * i)
    ensures i == 0 ==> EntryOff(d, 0) == 0
    ensures i > 0 ==>
              && EntryOff(d, 2 * i) == EntryOff(d, 2 * i - 1) + EntryLen(d, 2 * i - 1)
              && |ReadItem(d, size % 0x1000_0000, i).key| >= EntryLen(d, 2 * (i - 1))
              && !EntryIsNull(Word(d, 2 * i))
  {
    hide Word, EntryEndPos, EntryIsFirst, EntryIsNull;
    var n := size % 0x1000_0000;
    EndsBelow(d, n, 2 * i + 1);
    assert EntryFollows(d, 2 * i + 1);
    if i > 0 {
      EndsBelow(d, n, 2 * i);
      assert EntryFollows(d, 2 * i);
      assert KeyFollows(d, i);
      if i > 1 { assert EntryFollows(d, 2 * i - 1); }
      assert EntryFollows(d, 2 * i - 1);
    }
  }

  lemma {:induction false} EndsBelow(d: Bytes, n: nat, i: nat)
    requires 8 * n <= |d| && i < 2 * n && forall k | 1 <= k < 2 * n :: EntryFollows(d, k)
    ensures EntryEndPos(Word(d, i)) <= EntryEndPos(Word(d, 2 * n - 1))
    decreases 2 * n - i
  {
    hide Word, EntryEndPos, EntryIsFirst;
    if i + 1 < 2 * n {
      EndsBelow(d, n, i + 1);
      assert EntryFollows(d, i + 1);
    }
  }

  /** A stored list short of the limit is taken for new without further checks. */
  lemma {:induction false} StoredIsTaken(varsize: nat, size: nat, d: Bytes, xs: seq<Item>, stray: nat -> int)
    requires Sane(varsize, size, d) && size % 0x1000_0000 == |xs| && Stores(d, 8 * |xs|, xs, true)
    requires varsize < 32768
    ensures size == 0 || size >= HS_FLAG_NEWVERSION || xs != [] ==> FastPath(varsize, size, d, stray)
  {
    hide Word, TotalLen, Stores, EntryEndPos, EntryIsFirst, EntryIsNull;
    if xs != [] {
      StoresBounds(d, xs);
      StoredEnd(d, xs, 0);
      assert 2 * 0 == 0;
    }
  }
}
