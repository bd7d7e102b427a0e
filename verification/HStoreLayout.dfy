/** The stored form of an hstore (contrib/hstore/hstore.h): two end-position
    words per pair, then all strings back to back. The data area is one array of
    bytes, so that words and strings share memory as they do in the source. */
module HStoreLayout {
  import opened ByteString
  import opened Options

  const HENTRY_ISFIRST := 0x8000_0000
  const HENTRY_ISNULL := 0x4000_0000
  const HENTRY_POSMASK := 0x3FFF_FFFF
  const HS_FLAG_NEWVERSION := 0x8000_0000
  const HSHRDSIZE := 8

  /** One pair of an hstore; a missing value is the SQL null. */
  datatype Item = Item(key: Bytes, value: Option<Bytes>)

  // ---- Words in the byte array ----

  /** The little-endian word k of the area. */
  function Word(d: Bytes, k: nat): int
    requires 4 * k + 4 <= |d|
  {
    var b0: int, b1: int, b2: int, b3: int := d[4 * k], d[4 * k + 1], d[4 * k + 2], d[4 * k + 3];
    b0 + 256 * b1 + 65536 * b2 + 16777216 * b3
  }

  predicate EntryIsFirst(e: int) {
    e / HENTRY_ISFIRST % 2 == 1
  }

  predicate EntryIsNull(e: int) {
    e / HENTRY_ISNULL % 2 == 1
  }

  function EntryEndPos(e: int): (pos: int)
    ensures 0 <= pos <= HENTRY_POSMASK
  {
    e % (HENTRY_POSMASK + 1)
  }

  /** HSE_OFF and HSE_LEN: positions are relative to the previous end. */
  function EntryOff(d: Bytes, i: nat): int
    requires 4 * i + 4 <= |d|
  {
    if EntryIsFirst(Word(d, i)) || i == 0 then 0 else EntryEndPos(Word(d, i - 1))
  }

  function EntryLen(d: Bytes, i: nat): int
    requires 4 * i + 4 <= |d|
  {
    if EntryIsFirst(Word(d, i)) || i == 0 then EntryEndPos(Word(d, i))
    else EntryEndPos(Word(d, i)) - EntryEndPos(Word(d, i - 1))
  }

  // ---- What an area stores ----

  function ValueLen(x: Item): nat {
    if x.value.None? then 0 else |x.value.value|
  }

  function ItemLen(x: Item): nat {
    |x.key| + ValueLen(x)
  }

  function ItemBytes(x: Item): (b: Bytes)
    ensures |b| == ItemLen(x)
  {
    if x.value.None? then x.key else x.key + x.value.value
  }

  function TotalLen(xs: seq<Item>): nat {
    if xs == [] then 0 else TotalLen(xs[..|xs| - 1]) + ItemLen(xs[|xs| - 1])
  }

  ghost function KeyEntry(xs: seq<Item>, k: nat): int
    requires k < |xs|
  {
    TotalLen(xs[..k]) + |xs[k].key|
  }

  ghost function ValueEntry(xs: seq<Item>, k: nat): int
    requires k < |xs|
  {
    TotalLen(xs[..k]) + ItemLen(xs[k]) + if xs[k].value.None? then HENTRY_ISNULL else 0
  }

  /** The bytes of pair k lie at its place in the string area. */
  ghost predicate HoldsItem(d: Bytes, str: nat, xs: seq<Item>, k: nat)
    requires k < |xs|
  {
    var at := str + TotalLen(xs[..k]);
    at + ItemLen(xs[k]) <= |d| && d[at..at + ItemLen(xs[k])] == ItemBytes(xs[k])
  }

  /** The area holds the pairs xs with its strings at offset str; started tells
      whether the first entry already carries its flag. */
  ghost predicate Stores(d: Bytes, str: nat, xs: seq<Item>, started: bool) {
    && 8 * |xs| <= str && str + TotalLen(xs) <= |d|
    && TotalLen(xs) <= HENTRY_POSMASK
    && (forall k | 0 <= k < |xs| ::
          Word(d, 2 * k) == KeyEntry(xs, k) + if started && k == 0 then HENTRY_ISFIRST else 0)
    && (forall k | 0 <= k < |xs| :: Word(d, 2 * k + 1) == ValueEntry(xs, k))
    && (forall k | 0 <= k < |xs| :: HoldsItem(d, str, xs, k))
  }

  // ---- Readers ----

  predicate Readable(d: Bytes, count: nat, i: nat) {
    && i < count && 8 * count <= |d|
    && 0 <= EntryOff(d, 2 * i) && 0 <= EntryLen(d, 2 * i)
    && 8 * count + EntryOff(d, 2 * i) + EntryLen(d, 2 * i) <= |d|
    && 0 <= EntryOff(d, 2 * i + 1) && 0 <= EntryLen(d, 2 * i + 1)
    && 8 * count + EntryOff(d, 2 * i + 1) + EntryLen(d, 2 * i + 1) <= |d|
  }

  /** HS_KEY/HS_KEYLEN and HS_VAL/HS_VALLEN/HS_VALISNULL of pair i. */
  function ReadItem(d: Bytes, count: nat, i: nat): Item
    requires Readable(d, count, i)
  {
    var str := 8 * count;
    var k, kl := EntryOff(d, 2 * i), EntryLen(d, 2 * i);
    var v, vl := EntryOff(d, 2 * i + 1), EntryLen(d, 2 * i + 1);
    Item(d[str + k..str + k + kl],
         if EntryIsNull(Word(d, 2 * i + 1)) then None else Some(d[str + v..str + v + vl]))
  }

  /** Reading every pair of the area yields exactly xs. */
  ghost predicate ReadsBack(d: Bytes, xs: seq<Item>) {
    forall i | 0 <= i < |xs| :: Readable(d, |xs|, i) && ReadItem(d, |xs|, i) == xs[i]
  }

  lemma {:induction false} TotalLenPrefix(xs: seq<Item>, k: nat)
    requires k < |xs|
    ensures TotalLen(xs[..k + 1]) == TotalLen(xs[..k]) + ItemLen(xs[k])
    ensures TotalLen(xs[..k + 1]) <= TotalLen(xs)
    decreases |xs|
  {
    assert xs[..k + 1][..k] == xs[..k];
    if k + 1 == |xs| {
      assert xs[..k + 1] == xs;
    } else {
      var init := xs[..|xs| - 1];
      TotalLenPrefix(init, k);
      assert init[..k + 1] == xs[..k + 1] && init[..k] == xs[..k];
    }
  }

  lemma FlagFacts(pos: int, isFirst: bool, isNull: bool)
    requires 0 <= pos <= HENTRY_POSMASK
    ensures var e := pos + (if isFirst then HENTRY_ISFIRST else 0) + (if isNull then HENTRY_ISNULL else 0);
            EntryEndPos(e) == pos && EntryIsFirst(e) == isFirst && EntryIsNull(e) == isNull
  {
  }

  /** What the area stores is what the readers see. */
  lemma StoresReadsBack(d: Bytes, xs: seq<Item>)
    requires Stores(d, 8 * |xs|, xs, true)
    ensures ReadsBack(d, xs)
  {
    forall i | 0 <= i < |xs|
      ensures Readable(d, |xs|, i) && ReadItem(d, |xs|, i) == xs[i]
    {
      StoresReadsItem(d, xs, i);
    }
  }

  lemma EntryPositions(d: Bytes, xs: seq<Item>, i: nat)
    requires Stores(d, 8 * |xs|, xs, true) && i < |xs|
    ensures EntryOff(d, 2 * i) == TotalLen(xs[..i]) && EntryLen(d, 2 * i) == |xs[i].key|
    ensures EntryOff(d, 2 * i + 1) == TotalLen(xs[..i]) + |xs[i].key|
    ensures EntryLen(d, 2 * i + 1) == ValueLen(xs[i])
    ensures EntryIsNull(Word(d, 2 * i + 1)) == xs[i].value.None?
  {
    hide Word, TotalLen, EntryIsFirst, EntryIsNull, EntryEndPos, HoldsItem;
    TotalLenPrefix(xs, i);
    assert Word(d, 2 * i) == KeyEntry(xs, i) + if i == 0 then HENTRY_ISFIRST else 0;
    assert Word(d, 2 * i + 1) == ValueEntry(xs, i);
    FlagFacts(TotalLen(xs[..i]) + |xs[i].key|, i == 0, false);
    FlagFacts(TotalLen(xs[..i]) + ItemLen(xs[i]), false, xs[i].value.None?);
    if i == 0 {
      NothingTotals(xs);
    } else {
      TotalLenPrefix(xs, i - 1);
      assert Word(d, 2 * (i - 1) + 1) == ValueEntry(xs, i - 1);
      FlagFacts(TotalLen(xs[..i]), false, xs[i - 1].value.None?);
    }
  }

  lemma NothingTotals(xs: seq<Item>)
    ensures TotalLen(xs[..0]) == 0
  {
  }

  lemma ItemParts(d: Bytes, at: nat, x: Item)
    requires at + ItemLen(x) <= |d| && d[at..at + ItemLen(x)] == ItemBytes(x)
    ensures d[at..at + |x.key|] == x.key
    ensures x.value.Some? ==> d[at + |x.key|..at + ItemLen(x)] == x.value.value
  {
    var k, l := |x.key|, ItemLen(x);
    assert d[at..at + k] == d[at..at + l][..k];
    assert d[at + k..at + l] == d[at..at + l][k..];
  }

  lemma StoresReadsItem(d: Bytes, xs: seq<Item>, i: nat)
    requires Stores(d, 8 * |xs|, xs, true) && i < |xs|
    ensures Readable(d, |xs|, i) && ReadItem(d, |xs|, i) == xs[i]
  {
    hide Word, TotalLen, EntryOff, EntryLen, EntryIsNull, HoldsItem, ItemBytes;
    EntryPositions(d, xs, i);
    StoredParts(d, xs, i);
    hide Stores;
  }

  lemma StoredParts(d: Bytes, xs: seq<Item>, i: nat)
    requires Stores(d, 8 * |xs|, xs, true) && i < |xs|
    ensures var at := 8 * |xs| + TotalLen(xs[..i]);
            && at + ItemLen(xs[i]) <= |d|
            && d[at..at + |xs[i].key|] == xs[i].key
            && (xs[i].value.Some? ==> d[at + |xs[i].key|..at + ItemLen(xs[i])] == xs[i].value.value)
  {
    hide Word, TotalLen;
    assert HoldsItem(d, 8 * |xs|, xs, i);
    ItemParts(d, 8 * |xs| + TotalLen(xs[..i]), xs[i]);
  }
}
