/** The building macros of contrib/hstore/hstore.h and the two ways they are
    used: from a list of pairs, and by copying some pairs of another hstore. */
module HStoreBuild {
  import opened ByteString
  import opened HStoreLayout
  import opened Options

  /** A varlena with its count word and data area. */
  class HStore {
    var varsize: nat
    var size: nat
    const data: array<byte>

    constructor (n: nat)
      ensures fresh(this.data) && this.data.Length == n && varsize == 0 && size == 0
    {
      data := new byte[n];
      varsize, size := 0, 0;
    }

    function Count(): nat
      reads this
    {
      size % 0x1000_0000
    }
  }

  function CalcDataSize(count: nat, lenstr: nat): nat {
    count * 8 + HSHRDSIZE + lenstr
  }

  // ---- Memory ----

  ghost predicate SameBytes(d: Bytes, d': Bytes, lo: int, hi: int)
    requires |d| == |d'|
  {
    forall i | 0 <= i < |d| && lo <= i < hi :: d'[i] == d[i]
  }

  lemma WordFrame(d: Bytes, d': Bytes, k: nat)
    requires |d| == |d'| && 4 * k + 4 <= |d| && SameBytes(d, d', 4 * k, 4 * k + 4)
    ensures Word(d', k) == Word(d, k)
  {
  }

  method PutWord(a: array<byte>, k: nat, w: int)
    requires 4 * k + 4 <= a.Length && 0 <= w < 0x1_0000_0000
    modifies a
    ensures Word(a[..], k) == w
    ensures SameBytes(old(a[..]), a[..], 0, 4 * k) && SameBytes(old(a[..]), a[..], 4 * k + 4, a.Length)
  {
    a[4 * k] := w % 256;
    a[4 * k + 1] := w / 256 % 256;
    a[4 * k + 2] := w / 65536 % 256;
    a[4 * k + 3] := w / 16777216;
    WordBytes(a[..], k, w);
  }

  lemma WordBytes(d: Bytes, k: nat, w: int)
    requires 4 * k + 4 <= |d| && 0 <= w < 0x1_0000_0000
    requires d[4 * k] == w % 256 && d[4 * k + 1] == w / 256 % 256
    requires d[4 * k + 2] == w / 65536 % 256 && d[4 * k + 3] == w / 16777216
    ensures Word(d, k) == w
  {
    assert w == 256 * (w / 256) + w % 256;
    assert w / 65536 == w / 256 / 256;
    assert w / 16777216 == w / 65536 / 256;
  }

  /** memcpy from a value. */
  method CopyIn(a: array<byte>, at: nat, src: Bytes)
    requires at + |src| <= a.Length
    modifies a
    ensures a[at..at + |src|] == src
    ensures SameBytes(old(a[..]), a[..], 0, at) && SameBytes(old(a[..]), a[..], at + |src|, a.Length)
  {
    for i := 0 to |src|
      invariant a[at..at + i] == src[..i]
      invariant forall j | 0 <= j < a.Length && !(at <= j < at + i) :: a[j] == old(a[j])
    {
      a[at + i] := src[i];
      assert a[at..at + i + 1] == a[at..at + i] + [src[i]];
      assert src[..i + 1] == src[..i] + [src[i]];
    }
  }

  /** memmove towards lower addresses; the ranges may overlap. */
  method MoveDown(a: array<byte>, dst: nat, src: nat, n: nat)
    requires dst <= src && src + n <= a.Length
    modifies a
    ensures a[dst..dst + n] == old(a[src..src + n])
    ensures SameBytes(old(a[..]), a[..], 0, dst)
  {
    ghost var was := a[..];
    for i := 0 to n
      invariant forall j | dst <= j < dst + i :: a[j] == was[j + (src - dst)]
      invariant forall j | 0 <= j < a.Length && !(dst <= j < dst + i) :: a[j] == was[j]
    {
      a[dst + i] := a[src + i];
    }
  }

  // ---- One more pair ----

  lemma {:induction false} PrefixOfAppend(xs: seq<Item>, x: Item, k: nat)
    requires k <= |xs|
    ensures (xs + [x])[..k] == xs[..k]
    ensures TotalLen(xs + [x]) == TotalLen(xs) + ItemLen(x)
  {
    assert (xs + [x])[..|xs|] == xs;
  }

  lemma {:induction false} StoresAppend(d: Bytes, d': Bytes, str: nat, xs: seq<Item>, x: Item)
    requires Stores(d, str, xs, false) && |d| == |d'|
    requires 8 * (|xs| + 1) <= str && str + TotalLen(xs) + ItemLen(x) <= |d|
    requires TotalLen(xs) + ItemLen(x) <= HENTRY_POSMASK
    requires SameBytes(d, d', 0, 8 * |xs|) && SameBytes(d, d', str, str + TotalLen(xs))
    requires Word(d', 2 * |xs|) == TotalLen(xs) + |x.key|
    requires Word(d', 2 * |xs| + 1) == TotalLen(xs) + ItemLen(x) + if x.value.None? then HENTRY_ISNULL else 0
    requires var at := str + TotalLen(xs); d'[at..at + ItemLen(x)] == ItemBytes(x)
    ensures Stores(d', str, xs + [x], false)
  {
    hide Word, TotalLen, ItemBytes, ItemLen, KeyEntry, ValueEntry, HoldsItem;
    var ys := xs + [x];
    PrefixOfAppend(xs, x, |xs|);
    AppendedEntry(d', str, xs, x);
    forall k | 0 <= k < |ys|
      ensures Word(d', 2 * k) == KeyEntry(ys, k) && Word(d', 2 * k + 1) == ValueEntry(ys, k)
      ensures HoldsItem(d', str, ys, k)
    {
      if k < |xs| {
        StoresFrame(d, d', str, xs, k);
        EarlierEntry(d', str, xs, x, k);
      }
    }
  }

  lemma EarlierEntry(d: Bytes, str: nat, xs: seq<Item>, x: Item, k: nat)
    requires k < |xs|
    ensures KeyEntry(xs + [x], k) == KeyEntry(xs, k) && ValueEntry(xs + [x], k) == ValueEntry(xs, k)
    ensures HoldsItem(d, str, xs + [x], k) == HoldsItem(d, str, xs, k)
  {
    hide TotalLen, ItemBytes;
    PrefixOfAppend(xs, x, k);
  }

  lemma {:induction false} AppendedEntry(d: Bytes, str: nat, xs: seq<Item>, x: Item)
    requires var at := str + TotalLen(xs); at + ItemLen(x) <= |d| && d[at..at + ItemLen(x)] == ItemBytes(x)
    ensures KeyEntry(xs + [x], |xs|) == TotalLen(xs) + |x.key|
    ensures ValueEntry(xs + [x], |xs|) == TotalLen(xs) + ItemLen(x) + if x.value.None? then HENTRY_ISNULL else 0
    ensures HoldsItem(d, str, xs + [x], |xs|)
  {
    hide TotalLen, ItemBytes;
    PrefixOfAppend(xs, x, |xs|);
    assert (xs + [x])[..|xs|] == xs && (xs + [x])[|xs|] == x;
  }

  lemma {:induction false} StoresFrame(d: Bytes, d': Bytes, str: nat, xs: seq<Item>, k: nat)
    requires Stores(d, str, xs, false) && |d| == |d'| && k < |xs|
    requires SameBytes(d, d', 0, 8 * |xs|) && SameBytes(d, d', str, str + TotalLen(xs))
    ensures Word(d', 2 * k) == KeyEntry(xs, k) && Word(d', 2 * k + 1) == ValueEntry(xs, k)
    ensures HoldsItem(d', str, xs, k)
  {
    hide Word, TotalLen, ItemBytes, KeyEntry, ValueEntry;
    assert Word(d, 2 * k) == KeyEntry(xs, k) && Word(d, 2 * k + 1) == ValueEntry(xs, k);
    assert HoldsItem(d, str, xs, k);
    WordFrame(d, d', 2 * k);
    WordFrame(d, d', 2 * k + 1);
    HoldsFrame(d, d', str, xs, k);
  }

  lemma SameSlice(d: Bytes, d': Bytes, lo: nat, hi: nat, at: nat, l: nat)
    requires |d| == |d'| && SameBytes(d, d', lo, hi) && lo <= at && at + l <= hi && at + l <= |d|
    ensures d'[at..at + l] == d[at..at + l]
  {
  }

  lemma {:induction false} HoldsFrame(d: Bytes, d': Bytes, str: nat, xs: seq<Item>, k: nat)
    requires k < |xs| && |d| == |d'| && HoldsItem(d, str, xs, k)
    requires SameBytes(d, d', str, str + TotalLen(xs))
    ensures HoldsItem(d', str, xs, k)
  {
    hide *;
    TotalLenPrefix(xs, k);
    var at, l := str + TotalLen(xs[..k]), ItemLen(xs[k]);
    HoldsFits(d, str, xs, k);
    HoldsMeans(d, str, xs, k, at, l);
    SameSlice(d, d', str, str + TotalLen(xs), at, l);
    HoldsMeans(d', str, xs, k, at, l);
  }

  lemma HoldsFits(d: Bytes, str: nat, xs: seq<Item>, k: nat)
    requires k < |xs| && HoldsItem(d, str, xs, k)
    ensures str + TotalLen(xs[..k]) + ItemLen(xs[k]) <= |d|
  {
    hide TotalLen, ItemBytes, ItemLen;
  }

  /** Room for one more pair below str and at the end of the strings. */
  ghost predicate HasRoom(d: Bytes, str: nat, xs: seq<Item>, x: Item) {
    && 8 * (|xs| + 1) <= str && str + TotalLen(xs) + ItemLen(x) <= |d|
    && TotalLen(xs) + ItemLen(x) <= HENTRY_POSMASK
  }

  /** HS_ADDITEM: ent and ptr are the entry and string cursors. */
  method AddItem(a: array<byte>, ent: nat, buf: nat, ptr: nat, x: Item, ghost xs: seq<Item>)
    returns (ent': nat, ptr': nat)
    requires Stores(a[..], buf, xs, false) && HasRoom(a[..], buf, xs, x)
    requires ent == 2 * |xs| && ptr == buf + TotalLen(xs)
    modifies a
    ensures Stores(a[..], buf, xs + [x], false)
    ensures ent' == 2 * |xs + [x]| && ptr' == buf + TotalLen(xs + [x])
  {
    hide Word, TotalLen, Stores, ItemBytes;
    ghost var d := a[..];
    PrefixOfAppend(xs, x, 0);
    ptr' := AddString(a, ent, buf, ptr, x.key);
    ghost var d1 := a[..];
    ptr' := AddValue(a, ent + 1, buf, ptr', x.value);
    WordFrame(d1, a[..], ent);
    ent' := ent + 2;
    AddedBytes(d1, a[..], ptr, x);
    StoresAppend(d, a[..], buf, xs, x);
  }

  /** Half of HS_ADDITEM: a key or value, and the entry with its end. */
  method AddString(a: array<byte>, ent: nat, buf: nat, ptr: nat, key: Bytes) returns (ptr': nat)
    requires 4 * ent + 4 <= buf <= ptr && ptr + |key| <= a.Length && ptr + |key| - buf <= HENTRY_POSMASK
    modifies a
    ensures ptr' == ptr + |key| && Word(a[..], ent) == ptr' - buf && a[ptr..ptr'] == key
    ensures SameBytes(old(a[..]), a[..], 0, 4 * ent) && SameBytes(old(a[..]), a[..], buf, ptr)
  {
    hide Word;
    CopyIn(a, ptr, key);
    ghost var d1 := a[..];
    ptr' := ptr + |key|;
    PutWord(a, ent, (ptr' - buf) % (HENTRY_POSMASK + 1));
    assert a[..][ptr..ptr'] == d1[ptr..ptr'];
  }

  /** The value half: nothing but a flagged entry for a null. */
  method AddValue(a: array<byte>, ent: nat, buf: nat, ptr: nat, value: Option<Bytes>) returns (ptr': nat)
    requires 4 * ent + 4 <= buf <= ptr
    requires var n := if value.None? then 0 else |value.value|;
             ptr + n <= a.Length && ptr + n - buf <= HENTRY_POSMASK
    modifies a
    ensures ptr' == ptr + if value.None? then 0 else |value.value|
    ensures Word(a[..], ent) == ptr' - buf + if value.None? then HENTRY_ISNULL else 0
    ensures value.Some? ==> a[ptr..ptr'] == value.value
    ensures SameBytes(old(a[..]), a[..], 0, 4 * ent) && SameBytes(old(a[..]), a[..], buf, ptr)
  {
    hide Word;
    ptr' := ptr;
    if value.None? {
      PutWord(a, ent, (ptr' - buf) % (HENTRY_POSMASK + 1) + HENTRY_ISNULL);
    } else {
      ptr' := AddString(a, ent, buf, ptr, value.value);
    }
  }

  lemma AddedBytes(d1: Bytes, d': Bytes, at: nat, x: Item)
    requires |d1| == |d'| && at + ItemLen(x) <= |d'|
    requires d1[at..at + |x.key|] == x.key && SameBytes(d1, d', at, at + |x.key|)
    requires x.value.Some? ==> d'[at + |x.key|..at + ItemLen(x)] == x.value.value
    ensures d'[at..at + ItemLen(x)] == ItemBytes(x)
  {
    assert d'[at..at + |x.key|] == d1[at..at + |x.key|];
    assert d'[at..at + ItemLen(x)] == d'[at..at + |x.key|] + d'[at + |x.key|..at + ItemLen(x)];
  }

  /** HS_COPYITEM: key and value arrive contiguous, as they lie in the source. */
  method CopyItem(a: array<byte>, ent: nat, buf: nat, ptr: nat, bytes: Bytes, klen: nat, vlen: nat, vnull: bool,
                  ghost x: Item, ghost xs: seq<Item>) returns (ent': nat, ptr': nat)
    requires Stores(a[..], buf, xs, false) && HasRoom(a[..], buf, xs, x)
    requires ent == 2 * |xs| && ptr == buf + TotalLen(xs)
    requires bytes == ItemBytes(x) && klen == |x.key| && vlen == ValueLen(x) && vnull == x.value.None?
    modifies a
    ensures Stores(a[..], buf, xs + [x], false)
    ensures ent' == 2 * |xs + [x]| && ptr' == buf + TotalLen(xs + [x])
  {
    hide Word, TotalLen, Stores, ItemBytes;
    ghost var d := a[..];
    PrefixOfAppend(xs, x, 0);
    CopyIn(a, ptr, bytes);
    ghost var d1 := a[..];
    ptr' := ptr + klen + vlen;
    PutWord(a, ent, (ptr' - buf - vlen) % (HENTRY_POSMASK + 1));
    ghost var d2 := a[..];
    PutWord(a, ent + 1, (ptr' - buf) % (HENTRY_POSMASK + 1) + if vnull then HENTRY_ISNULL else 0);
    WordFrame(d2, a[..], ent);
    ent' := ent + 2;
    assert a[..][ptr..ptr + |bytes|] == d1[ptr..ptr + |bytes|];
    StoresAppend(d, a[..], buf, xs, x);
  }

  // ---- Finishing ----

  /** The strings moved to where the final count puts them, the first entry flagged. */
  lemma {:induction false} StoresFinalized(d: Bytes, d': Bytes, str: nat, xs: seq<Item>)
    requires Stores(d, str, xs, false) && |d| == |d'|
    requires SameBytes(d, d', 4, 8 * |xs|)
    requires xs != [] ==> Word(d', 0) == Word(d, 0) + HENTRY_ISFIRST
    requires var at := 8 * |xs|; d'[at..at + TotalLen(xs)] == d[str..str + TotalLen(xs)]
    ensures Stores(d', 8 * |xs|, xs, true)
  {
    hide Word, TotalLen, ItemBytes, ItemLen;
    forall k | 0 <= k < |xs|
      ensures Word(d', 2 * k) == KeyEntry(xs, k) + if k == 0 then HENTRY_ISFIRST else 0
      ensures Word(d', 2 * k + 1) == ValueEntry(xs, k)
      ensures HoldsItem(d', 8 * |xs|, xs, k)
    {
      assert Word(d, 2 * k) == KeyEntry(xs, k) && Word(d, 2 * k + 1) == ValueEntry(xs, k);
      assert HoldsItem(d, str, xs, k);
      if k > 0 { WordFrame(d, d', 2 * k); }
      WordFrame(d, d', 2 * k + 1);
      HoldsMoved(d, d', str, xs, k);
    }
  }

  lemma {:induction false} HoldsMoved(d: Bytes, d': Bytes, str: nat, xs: seq<Item>, k: nat)
    requires k < |xs| && |d| == |d'| && HoldsItem(d, str, xs, k) && str + TotalLen(xs) <= |d|
    requires 8 * |xs| <= str
    requires var at := 8 * |xs|; d'[at..at + TotalLen(xs)] == d[str..str + TotalLen(xs)]
    ensures HoldsItem(d', 8 * |xs|, xs, k)
  {
    hide *;
    TotalLenPrefix(xs, k);
    var p, l, n, at := TotalLen(xs[..k]), ItemLen(xs[k]), TotalLen(xs), 8 * |xs|;
    HoldsMeans(d, str, xs, k, str + p, l);
    MovedSlice(d, d', str, at, n, p, l);
    HoldsMeans(d', at, xs, k, at + p, l);
  }

  lemma HoldsMeans(d: Bytes, str: nat, xs: seq<Item>, k: nat, at: nat, l: nat)
    requires k < |xs| && at == str + TotalLen(xs[..k]) && l == ItemLen(xs[k]) && at + l <= |d|
    ensures HoldsItem(d, str, xs, k) <==> d[at..at + l] == ItemBytes(xs[k])
  {
    hide TotalLen, ItemBytes, ItemLen;
  }

  lemma MovedSlice(d: Bytes, d': Bytes, from: nat, to: nat, n: nat, p: nat, l: nat)
    requires from + n <= |d| && to + n <= |d'| && p + l <= n && d'[to..to + n] == d[from..from + n]
    ensures d'[to + p..to + p + l] == d[from + p..from + p + l]
  {
    Subslice(d', to, n, p, l);
    Subslice(d, from, n, p, l);
  }

  lemma Subslice(d: Bytes, at: nat, n: nat, p: nat, l: nat)
    requires at + n <= |d| && p + l <= n
    ensures d[at + p..at + p + l] == d[at..at + n][p..p + l]
  {
    var whole := d[at..at + n];
    var part, same := d[at + p..at + p + l], whole[p..p + l];
    assert |part| == |same| == l;
    forall i | 0 <= i < l ensures part[i] == same[i] {
      assert same[i] == whole[p + i] == d[at + p + i];
    }
  }

  /** HS_FINALIZE. */
  method Finalize(hs: HStore, count: nat, buf: nat, ptr: nat, ghost xs: seq<Item>)
    requires Stores(hs.data[..], buf, xs, false) && count == |xs| && ptr == buf + TotalLen(xs)
    requires buf == 8 * hs.Count() && count < 0x1000_0000
    modifies hs, hs.data
    ensures Stores(hs.data[..], 8 * count, xs, true)
    ensures hs.Count() == count && hs.varsize == CalcDataSize(count, TotalLen(xs))
    ensures count != old(hs.Count()) ==> hs.size == count + HS_FLAG_NEWVERSION
    ensures count == old(hs.Count()) ==> hs.size == old(hs.size)
  {
    hide Word, TotalLen, Stores;
    StoresFits(hs.data[..], buf, xs);
    var buflen := ptr - buf;
    ghost var d := hs.data[..];
    if count != 0 {
      FlagFirst(hs.data, xs, buf);
    }
    ghost var d1 := hs.data[..];
    if count != hs.Count() {
      hs.size := count + HS_FLAG_NEWVERSION;
      assert 8 * count <= buf;
      MoveDown(hs.data, 8 * count, buf, buflen);
    }
    hs.varsize := CalcDataSize(count, buflen);
    FlaggedAndMoved(d, d1, hs.data[..], buf, xs);
  }

  /** The first entry flagged, then the strings moved down or left where they are. */
  lemma {:induction false} FlaggedAndMoved(d: Bytes, d1: Bytes, d2: Bytes, str: nat, xs: seq<Item>)
    requires Stores(d, str, xs, false) && |d| == |d1| == |d2|
    requires 8 * |xs| <= str && str + TotalLen(xs) <= |d|
    requires SameBytes(d, d1, 4, |d|) && (xs != [] ==> Word(d1, 0) == Word(d, 0) + HENTRY_ISFIRST)
    requires SameBytes(d1, d2, 0, 8 * |xs|)
    requires var at := 8 * |xs|; d2[at..at + TotalLen(xs)] == d1[str..str + TotalLen(xs)]
    ensures Stores(d2, 8 * |xs|, xs, true)
  {
    hide Word, TotalLen, Stores;
    if xs == [] {
      NothingStored(d2);
    } else {
      WordFrame(d1, d2, 0);
      assert d1[str..str + TotalLen(xs)] == d[str..str + TotalLen(xs)];
      StoresFinalized(d, d2, str, xs);
    }
  }

  lemma NothingStored(d: Bytes)
    ensures Stores(d, 0, [], true)
  {
  }

  lemma {:induction false} StoresFits(d: Bytes, str: nat, xs: seq<Item>)
    requires Stores(d, str, xs, false)
    ensures 8 * |xs| <= str && str + TotalLen(xs) <= |d|
  {
  }

  method FlagFirst(a: array<byte>, ghost xs: seq<Item>, ghost buf: nat)
    requires Stores(a[..], buf, xs, false) && xs != []
    modifies a
    ensures Word(a[..], 0) == Word(old(a[..]), 0) + HENTRY_ISFIRST
    ensures SameBytes(old(a[..]), a[..], 4, a.Length)
  {
    hide Word;
    FirstEntryUnflagged(a[..], buf, xs);
    var e := Word(a[..], 0);
    PutWord(a, 0, e + HENTRY_ISFIRST);
  }

  lemma FirstEntryUnflagged(d: Bytes, str: nat, xs: seq<Item>)
    requires Stores(d, str, xs, false) && xs != []
    ensures 4 <= |d| && 0 <= Word(d, 0) <= HENTRY_POSMASK
  {
    hide Word;
    TotalLenPrefix(xs, 0);
    assert Word(d, 2 * 0) == KeyEntry(xs, 0);
  }

  lemma StoresNothing(d: Bytes, str: nat)
    requires str <= |d|
    ensures Stores(d, str, [], false)
  {
  }

  /** hstorePairs: folding HS_ADDITEM over a list of pairs. */
  method HStorePairs(xs: seq<Item>, buflen: nat) returns (out: HStore)
    requires buflen == TotalLen(xs) <= HENTRY_POSMASK && |xs| < 0x1000_0000
    ensures fresh(out) && fresh(out.data)
    ensures out.size == |xs| + HS_FLAG_NEWVERSION && out.varsize == CalcDataSize(|xs|, TotalLen(xs))
    ensures Stores(out.data[..], 8 * |xs|, xs, true) && ReadsBack(out.data[..], xs)
  {
    hide Word, TotalLen, Stores;
    var pcount := |xs|;
    out := new HStore(8 * pcount + buflen);
    out.varsize := CalcDataSize(pcount, buflen);
    out.size := pcount + HS_FLAG_NEWVERSION;
    if pcount == 0 {
      NothingTotals(xs);
      NothingStored(out.data[..]);
      return;
    }
    var ent, buf, ptr := 0, 8 * out.Count(), 8 * out.Count();
    StoresNothing(out.data[..], buf);
    NothingTotals(xs);
    for i := 0 to pcount
      invariant out.size == pcount + HS_FLAG_NEWVERSION
      invariant Stores(out.data[..], buf, xs[..i], false)
      invariant ent == 2 * i && ptr == buf + TotalLen(xs[..i])
    {
      TotalLenPrefix(xs, i);
      assert xs[..i + 1] == xs[..i] + [xs[i]];
      ent, ptr := AddItem(out.data, ent, buf, ptr, xs[i], xs[..i]);
    }
    assert xs[..pcount] == xs;
    Finalize(out, pcount, buf, ptr, xs);
    StoresReadsBack(out.data[..], xs);
  }

  // ---- Copying a subsequence ----

  ghost function Kept(xs: seq<Item>, keep: seq<bool>): seq<Item>
    requires |xs| == |keep|
  {
    if xs == [] then []
    else
      var n := |xs| - 1;
      Kept(xs[..n], keep[..n]) + if keep[n] then [xs[n]] else []
  }

  lemma {:induction false} KeptSmaller(xs: seq<Item>, keep: seq<bool>)
    requires |xs| == |keep|
    ensures |Kept(xs, keep)| <= |xs| && TotalLen(Kept(xs, keep)) <= TotalLen(xs)
    decreases |xs|
  {
    if xs != [] {
      var n := |xs| - 1;
      KeptSmaller(xs[..n], keep[..n]);
      PrefixOfAppend(Kept(xs[..n], keep[..n]), xs[n], 0);
      assert Kept(xs[..n], keep[..n]) + [] == Kept(xs[..n], keep[..n]);
    }
  }

  lemma {:induction false} KeptNext(xs: seq<Item>, keep: seq<bool>, i: nat)
    requires |xs| == |keep| && i < |xs|
    ensures Kept(xs[..i + 1], keep[..i + 1]) ==
            if keep[i] then Kept(xs[..i], keep[..i]) + [xs[i]] else Kept(xs[..i], keep[..i])
    ensures |Kept(xs[..i], keep[..i])| <= i
    ensures TotalLen(Kept(xs[..i], keep[..i])) + ItemLen(xs[i]) <= TotalLen(xs)
  {
    assert xs[..i + 1][..i] == xs[..i] && keep[..i + 1][..i] == keep[..i];
    KeptSmaller(xs[..i], keep[..i]);
    TotalLenPrefix(xs, i);
  }

  /** What the copying loop reads of pair i: key and value are contiguous. */
  lemma SourceItem(d: Bytes, xs: seq<Item>, i: nat)
    requires Stores(d, 8 * |xs|, xs, true) && i < |xs|
    ensures EntryLen(d, 2 * i) == |xs[i].key| && EntryLen(d, 2 * i + 1) == ValueLen(xs[i])
    ensures EntryIsNull(Word(d, 2 * i + 1)) == xs[i].value.None?
    ensures EntryOff(d, 2 * i) >= 0
    ensures var at := 8 * |xs| + EntryOff(d, 2 * i);
            at + ItemLen(xs[i]) <= |d| && d[at..at + ItemLen(xs[i])] == ItemBytes(xs[i])
  {
    EntryPositions(d, xs, i);
    assert HoldsItem(d, 8 * |xs|, xs, i);
  }

  /** One HS_COPYITEM from pair i of a stored hstore. */
  method CopyPair(a: array<byte>, ent: nat, buf: nat, ptr: nat, d: Bytes, count: nat, i: nat,
                  ghost xs: seq<Item>, ghost sofar: seq<Item>) returns (ent': nat, ptr': nat)
    requires Stores(d, 8 * count, xs, true) && i < count == |xs|
    requires Stores(a[..], buf, sofar, false) && HasRoom(a[..], buf, sofar, xs[i])
    requires ent == 2 * |sofar| && ptr == buf + TotalLen(sofar)
    modifies a
    ensures Stores(a[..], buf, sofar + [xs[i]], false)
    ensures ent' == 2 * |sofar + [xs[i]]| && ptr' == buf + TotalLen(sofar + [xs[i]])
  {
    hide Word, TotalLen, Stores, EntryOff, EntryLen, EntryIsNull, ItemBytes, HasRoom;
    SourceItem(d, xs, i);
    var at, klen, vlen := 8 * count + EntryOff(d, 2 * i), EntryLen(d, 2 * i), EntryLen(d, 2 * i + 1);
    ent', ptr' := CopyItem(a, ent, buf, ptr, d[at..at + klen + vlen], klen, vlen,
                           EntryIsNull(Word(d, 2 * i + 1)), xs[i], sofar);
  }

  /** The loop of hstore_delete and its relatives: HS_COPYITEM for the pairs to
      keep into a buffer laid out for the old count, then HS_FINALIZE. */
  method CopyKept(hs: HStore, keep: seq<bool>, ghost xs: seq<Item>) returns (out: HStore)
    requires Stores(hs.data[..], 8 * |xs|, xs, true) && hs.Count() == |xs| == |keep|
    ensures fresh(out) && fresh(out.data)
    ensures out.Count() == |Kept(xs, keep)|
    ensures out.varsize == CalcDataSize(out.Count(), TotalLen(Kept(xs, keep)))
    ensures Stores(out.data[..], 8 * out.Count(), Kept(xs, keep), true) && ReadsBack(out.data[..], Kept(xs, keep))
  {
    hide Word, TotalLen, Stores, ReadsBack, HasRoom, Kept;
    var count, d := hs.Count(), hs.data[..];
    StoresBounds(d, xs);
    out := new HStore(hs.data.Length);
    out.varsize := hs.varsize;
    out.size := count + HS_FLAG_NEWVERSION;
    var buf := 8 * out.Count();
    var ent, ptr, outcount := 0, buf, 0;
    StoresNothing(out.data[..], buf);
    KeptNothing(xs, keep);
    for i := 0 to count
      invariant hs.data[..] == d && out.size == count + HS_FLAG_NEWVERSION
      invariant Stores(out.data[..], buf, Kept(xs[..i], keep[..i]), false)
      invariant outcount == |Kept(xs[..i], keep[..i])| <= i && ent == 2 * outcount
      invariant ptr == buf + TotalLen(Kept(xs[..i], keep[..i]))
    {
      KeptNext(xs, keep, i);
      if keep[i] {
        RoomFor(out.data[..], buf, Kept(xs[..i], keep[..i]), xs[i]);
        ent, ptr := CopyPair(out.data, ent, buf, ptr, d, count, i, xs, Kept(xs[..i], keep[..i]));
        outcount := outcount + 1;
      }
    }
    assert xs[..count] == xs && keep[..count] == keep;
    Finalize(out, outcount, buf, ptr, Kept(xs, keep));
    StoresReadsBack(out.data[..], Kept(xs, keep));
  }

  lemma {:induction false} RoomFor(d: Bytes, str: nat, xs: seq<Item>, x: Item)
    requires 8 * (|xs| + 1) <= str && str + TotalLen(xs) + ItemLen(x) <= |d|
    requires TotalLen(xs) + ItemLen(x) <= HENTRY_POSMASK
    ensures HasRoom(d, str, xs, x)
  {
  }

  lemma KeptNothing(xs: seq<Item>, keep: seq<bool>)
    requires |xs| == |keep|
    ensures Kept(xs[..0], keep[..0]) == [] && TotalLen(Kept(xs[..0], keep[..0])) == 0
  {
  }

  lemma {:induction false} StoresBounds(d: Bytes, xs: seq<Item>)
    requires Stores(d, 8 * |xs|, xs, true)
    ensures 8 * |xs| + TotalLen(xs) <= |d| && TotalLen(xs) <= HENTRY_POSMASK
  {
  }
}
