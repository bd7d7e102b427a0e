/** The GiST operator class for hstore (contrib/hstore/hstore_gist.cpp): every key
    and value hashes to one of 128 bits, keys above are the union of those below. */
module HStoreGist {
  import opened ByteString
  import opened Crc32
  import opened Signature
  import opened HStoreLayout
  import opened Options

  /** An hstore as the list of its pairs. */
  type HStore = seq<Item>

  /** Queries by strategy; array elements may be null. */
  datatype Query =
    | Contains(template: HStore)
    | Exists(key: Bytes)
    | ExistsAll(keys: seq<Option<Bytes>>)
    | ExistsAny(anyKeys: seq<Option<Bytes>>)

  // ---- What the operators mean on a row ----

  predicate HasKey(h: HStore, key: Bytes) {
    exists i :: 0 <= i < |h| && h[i].key == key
  }

  predicate Satisfies(h: HStore, q: Query) {
    match q
    case Contains(template) => forall p | p in template :: p in h
    case Exists(key) => HasKey(h, key)
    case ExistsAll(keys) => forall k | k in keys && k.Some? :: HasKey(h, k.value)
    case ExistsAny(keys) => exists k | k in keys && k.Some? :: HasKey(h, k.value)
  }

  // ---- Hashing ----

  /** HASHVAL: the checksum modulo the signature length. */
  function HashVal(crc: bv32): (i: nat)
    ensures i < SIGLENBIT
  {
    (crc % 128) as nat
  }

  /** Which is the seven low bits of the checksum. */
  lemma HashValIsLowBits(crc: bv32)
    ensures HashVal(crc) == ((crc & 127) as bv7) as nat
  {
    LowBitsRemain(crc);
    SevenBits(crc % 128);
  }

  lemma LowBitsRemain(crc: bv32)
    ensures crc % 128 < 128 && (crc & 127) as bv7 == (crc % 128) as bv7
  {
  }

  lemma SevenBits(x: bv32)
    requires x < 128
    ensures (x as bv7) as nat == x as nat
  {
  }

  /** The bytes as the checksum takes them. */
  function Octets(b: Bytes): Buffer {
    seq(|b|, i requires 0 <= i < |b| => b[i] as bv8)
  }

  ghost function BitFor(b: Bytes): (i: nat)
    ensures i < SIGLENBIT
  {
    HashVal(BitwiseCrc(Octets(b)))
  }

  method HashBit(b: Bytes) returns (i: nat)
    ensures i == BitFor(b)
  {
    var crc := Crc32Sz(Octets(b));
    i := HashVal(crc);
  }

  // ---- Compression ----

  /** Bit i is set for some key or value among the pairs. */
  ghost predicate Hashed(h: HStore, i: nat) {
    exists k :: 0 <= k < |h| && HashesTo(h[k], i)
  }

  ghost predicate HashesTo(p: Item, i: nat) {
    BitFor(p.key) == i || (p.value.Some? && BitFor(p.value.value) == i)
  }

  /** The leaf branch of ghstore_compress: exactly the hashed bits are set. */
  method CompressLeaf(h: HStore) returns (key: Key)
    ensures key.Signed? && forall i: nat | i < SIGLENBIT :: Reading(key)[i] <==> Hashed(h, i)
  {
    hide BitFor, GetBit, SetBit;
    var sign: BitVec := seq(SIGLEN, _ => 0);
    forall i: nat | i < SIGLENBIT ensures !GetBit(sign, i) {
      EmptyBit(sign, i);
    }
    for n := 0 to |h|
      invariant forall i: nat | i < SIGLENBIT :: GetBit(sign, i) <==> Hashed(h[..n], i)
    {
      ghost var was := sign;
      sign := AddPair(sign, h[n]);
      forall i: nat | i < SIGLENBIT ensures GetBit(sign, i) <==> Hashed(h[..n + 1], i) {
        HashedNext(h, n, i);
      }
    }
    assert h[..|h|] == h;
    key := Signed(sign);
    forall i: nat | i < SIGLENBIT ensures Reading(key)[i] <==> Hashed(h, i) {
      assert Reading(key)[i] == GetBit(sign, i);
    }
  }

  lemma EmptyBit(s: BitVec, i: nat)
    requires i < SIGLENBIT && forall k | 0 <= k < SIGLEN :: s[k] == 0
    ensures !GetBit(s, i)
  {
    EmptyByte(i % 8);
  }

  lemma HashedNext(h: HStore, n: nat, i: nat)
    requires n < |h|
    ensures Hashed(h[..n + 1], i) <==> Hashed(h[..n], i) || HashesTo(h[n], i)
  {
    hide HashesTo;
    var more, less := h[..n + 1], h[..n];
    assert more[n] == h[n];
    assert forall k | 0 <= k < n :: more[k] == less[k];
  }

  method AddPair(sign: BitVec, p: Item) returns (out: BitVec)
    ensures forall i: nat | i < SIGLENBIT :: GetBit(out, i) <==> GetBit(sign, i) || HashesTo(p, i)
  {
    hide BitFor, GetBit, SetBit;
    var k := HashBit(p.key);
    out := SetBit(sign, k);
    forall i: nat | i < SIGLENBIT ensures GetBit(out, i) == (GetBit(sign, i) || k == i) {
      SetBitMeans(sign, k, i);
    }
    if p.value.Some? {
      var v := HashBit(p.value.value);
      ghost var keyed := out;
      out := SetBit(out, v);
      forall i: nat | i < SIGLENBIT ensures GetBit(out, i) == (GetBit(keyed, i) || v == i) {
        SetBitMeans(keyed, v, i);
      }
    }
  }

  /** The other branch: a full bit vector becomes the all-true key. */
  method CompressInner(key: Key) returns (out: Key)
    ensures Reading(out) == Reading(key)
    ensures out.AllTrue? <==> forall i: nat | i < SIGLENBIT :: Reading(key)[i]
  {
    hide ByteBit;
    if key.AllTrue? { return key; }
    for i := 0 to SIGLEN
      invariant forall k: nat | k < 8 * i :: GetBit(key.sign, k)
    {
      FullByte(key.sign[i]);
      if key.sign[i] != 0xff {
        var b: nat :| b < 8 && !ByteBit(key.sign[i], b);
        ReadingBit(key.sign, i, b);
        return key;
      }
    }
    out := AllTrue;
    assert Reading(out) == Reading(key);
  }

  // ---- Union ----

  /** unionkey on one entry, byte by byte. */
  method OrInto(base: BitVec, add: BitVec) returns (out: BitVec)
    ensures forall i: nat | i < SIGLENBIT :: GetBit(out, i) <==> GetBit(base, i) || GetBit(add, i)
  {
    hide ByteBit;
    out := base;
    for i := 0 to SIGLEN
      invariant forall k | 0 <= k < i :: out[k] == base[k] | add[k]
      invariant forall k | i <= k < SIGLEN :: out[k] == base[k]
    {
      out := out[i := out[i] | add[i]];
    }
    forall i: nat | i < SIGLENBIT ensures GetBit(out, i) <==> GetBit(base, i) || GetBit(add, i) {
      OrBit(base[i / 8], add[i / 8], i % 8);
    }
  }

  ghost predicate SomeHas(entries: seq<Key>, i: nat)
    requires i < SIGLENBIT
  {
    exists k :: 0 <= k < |entries| && Reading(entries[k])[i]
  }

  /** out stands for exactly the bits of the entries together. */
  ghost predicate IsUnion(out: Key, entries: seq<Key>) {
    forall i: nat | i < SIGLENBIT :: Reading(out)[i] <==> SomeHas(entries, i)
  }

  /** ghstore_union. */
  method Union(entries: seq<Key>) returns (out: Key)
    ensures IsUnion(out, entries)
  {
    hide GetBit, SomeHas;
    var base: BitVec := seq(SIGLEN, _ => 0);
    forall i: nat | i < SIGLENBIT ensures GetBit(base, i) <==> SomeHas(entries[..0], i) {
      EmptyBit(base, i);
      NoneHas(i);
      assert entries[..0] == [];
    }
    for n := 0 to |entries|
      invariant forall i: nat | i < SIGLENBIT :: GetBit(base, i) <==> SomeHas(entries[..n], i)
    {
      if entries[n].AllTrue? {
        forall i: nat | i < SIGLENBIT ensures SomeHas(entries, i) {
          Has(entries, n, i);
        }
        return AllTrue;
      }
      ghost var was := base;
      base := OrInto(base, entries[n].sign);
      forall i: nat | i < SIGLENBIT ensures GetBit(base, i) <==> SomeHas(entries[..n + 1], i) {
        SomeHasNext(entries, n, i);
        assert Reading(entries[n])[i] == GetBit(entries[n].sign, i);
      }
    }
    assert entries[..|entries|] == entries;
    out := Signed(base);
  }

  lemma NoneHas(i: nat)
    requires i < SIGLENBIT
    ensures !SomeHas([], i)
  {
  }

  lemma Has(entries: seq<Key>, k: nat, i: nat)
    requires k < |entries| && i < SIGLENBIT && Reading(entries[k])[i]
    ensures SomeHas(entries, i)
  {
  }

  lemma SomeHasNext(entries: seq<Key>, n: nat, i: nat)
    requires n < |entries| && i < SIGLENBIT
    ensures SomeHas(entries[..n + 1], i) <==> SomeHas(entries[..n], i) || Reading(entries[n])[i]
  {
    hide Reading;
    var more, less := entries[..n + 1], entries[..n];
    assert more[n] == entries[n];
    assert forall k | 0 <= k < n :: more[k] == less[k];
  }

  // ---- Search ----

  /** ghstore_consistent as a predicate on the bits. */
  ghost predicate Accepts(key: Key, q: Query) {
    match q
    case Contains(template) => forall k | 0 <= k < |template| :: PairBits(key, template[k])
    case Exists(b) => Reading(key)[BitFor(b)]
    case ExistsAll(keys) => forall k | 0 <= k < |keys| && keys[k].Some? :: Reading(key)[BitFor(keys[k].value)]
    case ExistsAny(keys) =>
      key.AllTrue? || exists k :: 0 <= k < |keys| && keys[k].Some? && Reading(key)[BitFor(keys[k].value)]
  }

  ghost predicate PairBits(key: Key, p: Item) {
    Reading(key)[BitFor(p.key)] && (p.value.Some? ==> Reading(key)[BitFor(p.value.value)])
  }

  method Consistent(key: Key, q: Query) returns (res: bool)
    ensures res <==> Accepts(key, q)
  {
    hide BitFor, GetBit;
    if key.AllTrue? { return true; }
    var sign := key.sign;
    assert forall i: nat | i < SIGLENBIT :: Reading(key)[i] == GetBit(sign, i);
    res := true;
    match q {
      case Contains(template) =>
        var i := 0;
        while res && i < |template|
          invariant 0 <= i <= |template|
          invariant res ==> forall k | 0 <= k < i :: PairBits(key, template[k])
          invariant !res ==> i > 0 && !PairBits(key, template[i - 1])
        {
          var crc := HashBit(template[i].key);
          if GetBit(sign, crc) {
            if template[i].value.Some? {
              crc := HashBit(template[i].value.value);
              if !GetBit(sign, crc) { res := false; }
            }
          } else {
            res := false;
          }
          i := i + 1;
        }
      case Exists(b) =>
        var crc := HashBit(b);
        res := GetBit(sign, crc);
      case ExistsAll(keys) =>
        var i := 0;
        while res && i < |keys|
          invariant 0 <= i <= |keys|
          invariant res ==> forall k | 0 <= k < i && keys[k].Some? :: GetBit(sign, BitFor(keys[k].value))
          invariant !res ==> i > 0 && keys[i - 1].Some? && !GetBit(sign, BitFor(keys[i - 1].value))
        {
          if keys[i].Some? {
            var crc := HashBit(keys[i].value);
            if !GetBit(sign, crc) { res := false; }
          }
          i := i + 1;
        }
      case ExistsAny(keys) =>
        var i := 0;
        res := false;
        while !res && i < |keys|
          invariant 0 <= i <= |keys|
          invariant !res ==> forall k | 0 <= k < i && keys[k].Some? :: !GetBit(sign, BitFor(keys[k].value))
          invariant res ==> i > 0 && keys[i - 1].Some? && GetBit(sign, BitFor(keys[i - 1].value))
        {
          if keys[i].Some? {
            var crc := HashBit(keys[i].value);
            if GetBit(sign, crc) { res := true; }
          }
          i := i + 1;
        }
    }
  }

  // ---- Covering ----

  ghost predicate Covers(outer: Key, inner: Key) {
    forall i: nat | i < SIGLENBIT && Reading(inner)[i] :: Reading(outer)[i]
  }

  lemma UnionCovers(out: Key, entries: seq<Key>, k: nat)
    requires IsUnion(out, entries) && k < |entries|
    ensures Covers(out, entries[k])
  {
    hide Reading;
    forall i: nat | i < SIGLENBIT && Reading(entries[k])[i] ensures Reading(out)[i] {
      Has(entries, k, i);
    }
  }

  lemma KeyHashed(row: HStore, key: Bytes)
    requires HasKey(row, key)
    ensures Hashed(row, BitFor(key))
  {
    hide BitFor;
    var k :| 0 <= k < |row| && row[k].key == key;
    assert HashesTo(row[k], BitFor(key));
  }

  lemma PairHashed(row: HStore, p: Item)
    requires p in row
    ensures Hashed(row, BitFor(p.key)) && (p.value.Some? ==> Hashed(row, BitFor(p.value.value)))
  {
    hide BitFor;
    var k :| 0 <= k < |row| && row[k] == p;
    assert HashesTo(row[k], BitFor(p.key));
    assert p.value.Some? ==> HashesTo(row[k], BitFor(p.value.value));
  }

  /** Every bit the row hashes to is set in the key. */
  ghost predicate Under(row: HStore, key: Key) {
    forall i: nat | i < SIGLENBIT && Hashed(row, i) :: Reading(key)[i]
  }

  /** A key accepts whatever a row under it satisfies. */
  lemma {:induction false} UnderAccepts(key: Key, row: HStore, q: Query)
    requires Under(row, key) && Satisfies(row, q)
    ensures Accepts(key, q)
  {
    hide BitFor, Reading, Hashed;
    match q
    case Contains(template) =>
      forall k | 0 <= k < |template| ensures PairBits(key, template[k]) {
        PairHashed(row, template[k]);
      }
    case Exists(b) => KeyHashed(row, b);
    case ExistsAll(keys) =>
      forall k | 0 <= k < |keys| && keys[k].Some? ensures Reading(key)[BitFor(keys[k].value)] {
        KeyHashed(row, keys[k].value);
      }
    case ExistsAny(keys) =>
      var w :| w in keys && w.Some? && HasKey(row, w.value);
      var k :| 0 <= k < |keys| && keys[k] == w;
      KeyHashed(row, w.value);
  }

  /** Rows of keys alone. */
  function KeysOnly(keys: seq<Option<Bytes>>): (row: HStore) {
    if keys == [] then []
    else KeysOnly(keys[..|keys| - 1])
         + if keys[|keys| - 1].Some? then [Item(keys[|keys| - 1].value, None)] else []
  }

  lemma {:induction false} KeysOnlyHas(keys: seq<Option<Bytes>>)
    ensures forall k | k in keys && k.Some? :: HasKey(KeysOnly(keys), k.value)
    ensures forall i | 0 <= i < |KeysOnly(keys)| ::
              KeysOnly(keys)[i].value.None? && Some(KeysOnly(keys)[i].key) in keys
    decreases |keys|
  {
    if keys != [] {
      var init, last := keys[..|keys| - 1], keys[|keys| - 1];
      KeysOnlyHas(init);
      var row, less := KeysOnly(keys), KeysOnly(init);
      assert forall i | 0 <= i < |less| :: row[i] == less[i];
      forall k | k in keys && k.Some? ensures HasKey(row, k.value) {
        if k in init {
          var i :| 0 <= i < |less| && less[i].key == k.value;
          assert row[i].key == k.value;
        } else {
          assert row[|less|].key == k.value;
        }
      }
    }
  }

  /** A signature accepts a query exactly when some row under it would satisfy it: no key
      is descended into for nothing the bits could have told. */
  lemma {:induction false} AcceptsIffRowPossible(key: Key, q: Query)
    requires key.Signed?
    ensures Accepts(key, q) <==> exists row :: Under(row, key) && Satisfies(row, q)
  {
    hide BitFor, Reading, Hashed, Satisfies;
    if Accepts(key, q) {
      var row := RowFor(key, q);
    }
    forall row | Under(row, key) && Satisfies(row, q) ensures Accepts(key, q) {
      UnderAccepts(key, row, q);
    }
  }

  lemma {:induction false} RowFor(key: Key, q: Query) returns (row: HStore)
    requires key.Signed? && Accepts(key, q)
    ensures Under(row, key) && Satisfies(row, q)
  {
    hide BitFor, Reading;
    match q
    case Contains(template) =>
      row := template;
      forall i: nat | i < SIGLENBIT && Hashed(row, i) ensures Reading(key)[i] {
        var k :| 0 <= k < |row| && HashesTo(row[k], i);
        assert PairBits(key, template[k]);
      }
    case Exists(b) =>
      row := [Item(b, None)];
      assert row[0].key == b;
    case ExistsAll(keys) =>
      row := KeysOnly(keys);
      KeysOnlyHas(keys);
      KeysOnlyUnder(key, keys);
    case ExistsAny(keys) =>
      var k :| 0 <= k < |keys| && keys[k].Some? && Reading(key)[BitFor(keys[k].value)];
      row := [Item(keys[k].value, None)];
      assert row[0].key == keys[k].value && keys[k] in keys;
  }

  lemma {:induction false} KeysOnlyUnder(key: Key, keys: seq<Option<Bytes>>)
    requires forall k | 0 <= k < |keys| && keys[k].Some? :: Reading(key)[BitFor(keys[k].value)]
    ensures Under(KeysOnly(keys), key)
  {
    hide BitFor, Reading, KeysOnly;
    var row := KeysOnly(keys);
    KeysOnlyHas(keys);
    forall i: nat | i < SIGLENBIT && Hashed(row, i) ensures Reading(key)[i] {
      var k :| 0 <= k < |row| && HashesTo(row[k], i);
      var j :| 0 <= j < |keys| && keys[j] == Some(row[k].key);
    }
  }
}
