/** The stored form of a variable-length key: a varlena holding one varlena
    (leaf) or two, the second aligned to four bytes (node). */
module VarKeyLayout {
  import opened ByteString
  import opened VarKey

  const VARHDRSZ := 4

  /** Bound on either value that keeps a packed key under the allocation limit. */
  const MAX_BOUND := 0x0FFF_FFFF

  function IntAlign(n: nat): nat {
    (n + 3) / 4 * 4
  }

  /** SET_VARSIZE: the size shifted left by two, little-endian. */
  function Header(size: nat): (h: Bytes)
    requires size < 0x4000_0000
    ensures |h| == VARHDRSZ
  {
    var w := 4 * size;
    [w % 256, w / 256 % 256, w / 65536 % 256, w / 16777216]
  }

  function VarSize(b: Bytes): nat
    requires |b| >= VARHDRSZ
  {
    var b0: int, b1: int, b2: int, b3: int := b[0], b[1], b[2], b[3];
    (b0 + 256 * b1 + 65536 * b2 + 16777216 * b3) / 4
  }

  function Varlena(d: Bytes): (v: Bytes)
    requires |d| < 0x4000_0000 - VARHDRSZ
    ensures |v| == VARHDRSZ + |d|
  {
    Header(VARHDRSZ + |d|) + d
  }

  lemma SizeOfVarlena(d: Bytes, rest: Bytes)
    requires |d| < 0x4000_0000 - VARHDRSZ
    ensures VarSize(Varlena(d) + rest) == VARHDRSZ + |d|
    ensures (Varlena(d) + rest)[VARHDRSZ..VARHDRSZ + |d|] == d
  {
    var n := VARHDRSZ + |d|;
    var h := Header(n);
    assert Varlena(d) + rest == h + (d + rest);
    SizeOfHeader(n, d + rest);
    assert (h + (d + rest))[VARHDRSZ..n] == d;
  }

  lemma SizeOfHeader(n: nat, rest: Bytes)
    requires n < 0x4000_0000
    ensures VarSize(Header(n) + rest) == n
  {
    var h, b := Header(n), Header(n) + rest;
    assert b[0] == h[0] && b[1] == h[1] && b[2] == h[2] && b[3] == h[3];
    var w := 4 * n;
    assert w == 256 * (w / 256) + w % 256;
    assert w / 65536 == w / 256 / 256;
    assert w / 16777216 == w / 65536 / 256;
  }

  /** lower == upper as pointers is what marks a leaf key. */
  datatype View = View(range: Range, isLeaf: bool)

  ghost predicate Storable(r: Range) {
    |r.lower| <= MAX_BOUND && |r.upper| <= MAX_BOUND
  }

  predicate Readable(k: Bytes) {
    && |k| >= 2 * VARHDRSZ
    && VARHDRSZ <= VarSize(k[VARHDRSZ..]) <= |k| - VARHDRSZ
    && VarSize(k) == |k|
    && (VarSize(k) > VARHDRSZ + VarSize(k[VARHDRSZ..]) ==>
          var at := VARHDRSZ + IntAlign(VarSize(k[VARHDRSZ..]));
          at + VARHDRSZ <= |k| && VARHDRSZ <= VarSize(k[at..]) <= |k| - at)
  }

  /** gbt_var_key_readable. */
  function KeyReadable(k: Bytes): View
    requires Readable(k)
  {
    var lowerSize := VarSize(k[VARHDRSZ..]);
    var lower := k[2 * VARHDRSZ..VARHDRSZ + lowerSize];
    if VarSize(k) > VARHDRSZ + lowerSize then
      var at := VARHDRSZ + IntAlign(lowerSize);
      View(Range(lower, k[at + VARHDRSZ..at + VarSize(k[at..])]), false)
    else View(Range(lower, lower), true)
  }

  /** Number of bytes between the two parts that the copy leaves unwritten. */
  function Gap(lower: Bytes): nat {
    IntAlign(VARHDRSZ + |lower|) - (VARHDRSZ + |lower|)
  }

  /** gbt_var_key_copy; junk is whatever the allocation held in the gap. */
  function KeyCopy(u: View, forceNode: bool, junk: Bytes): (k: Bytes)
    requires |u.range.lower| <= MAX_BOUND && |u.range.upper| <= MAX_BOUND && |junk| == Gap(u.range.lower)
  {
    if u.isLeaf && !forceNode then Varlena(Varlena(u.range.lower))
    else Varlena(Varlena(u.range.lower) + junk + Varlena(u.range.upper))
  }

  /** Reading back a copied key gives both bounds, whatever is in the gap. */
  lemma CopyReadsBack(u: View, forceNode: bool, junk: Bytes)
    requires Storable(u.range) && |junk| == Gap(u.range.lower)
    requires u.isLeaf ==> u.range.lower == u.range.upper
    ensures Readable(KeyCopy(u, forceNode, junk))
    ensures KeyReadable(KeyCopy(u, forceNode, junk)) == View(u.range, u.isLeaf && !forceNode)
  {
    if u.isLeaf && !forceNode {
      LeafReadsBack(u.range.lower);
    } else {
      NodeReadsBack(u.range.lower, u.range.upper, junk);
    }
  }

  /** The bytes of a node key: its bounds behind their own headers, the upper one at
      the next offset divisible by four, and nothing after it. */
  lemma NodeLayout(u: View, forceNode: bool, junk: Bytes)
    requires Storable(u.range) && |junk| == Gap(u.range.lower) && (!u.isLeaf || forceNode)
    ensures var (k, l, h) := (KeyCopy(u, forceNode, junk), u.range.lower, u.range.upper);
            exists at :: at % 4 == 0 && 8 + |l| <= at < 8 + |l| + 4 && |k| == at + 4 + |h|
                         && k[8..8 + |l|] == l && k[at + 4..] == h
  {
    hide Header;
    var (k, l, h) := (KeyCopy(u, forceNode, junk), u.range.lower, u.range.upper);
    var at := VARHDRSZ + IntAlign(VARHDRSZ + |l|);
    assert k == (Header(|k|) + Header(4 + |l|)) + (l + (junk + Varlena(h)));
    assert k[8..8 + |l|] == l;
    assert k[at + 4..] == h;
    assert at % 4 == 0;
  }

  lemma LeafReadsBack(lower: Bytes)
    requires |lower| <= MAX_BOUND
    ensures var k := Varlena(Varlena(lower)); Readable(k) && KeyReadable(k) == View(Range(lower, lower), true)
  {
    hide Header;
    hide VarSize;
    var inner := Varlena(lower);
    var k := Varlena(inner);
    SizeOfVarlena(inner, []);
    assert k + [] == k;
    SizeOfVarlena(lower, []);
    assert k[VARHDRSZ..] == inner + [];
    assert k[2 * VARHDRSZ..VARHDRSZ + |inner|] == (inner + [])[VARHDRSZ..VARHDRSZ + |lower|];
  }

  lemma NodeReadsBack(lower: Bytes, upper: Bytes, junk: Bytes)
    requires |lower| <= MAX_BOUND && |upper| <= MAX_BOUND && |junk| == Gap(lower)
    ensures var k := Varlena(Varlena(lower) + junk + Varlena(upper));
            Readable(k) && KeyReadable(k) == View(Range(lower, upper), false)
  {
    hide Header;
    hide VarSize;
    var body := Varlena(lower) + junk + Varlena(upper);
    var k := Varlena(body);
    SizeOfVarlena(body, []);
    assert k + [] == k;
    assert k[VARHDRSZ..] == Varlena(lower) + (junk + Varlena(upper));
    SizeOfVarlena(lower, junk + Varlena(upper));
    assert k[2 * VARHDRSZ..2 * VARHDRSZ + |lower|] == k[VARHDRSZ..][VARHDRSZ..VARHDRSZ + |lower|];
    var at := VARHDRSZ + IntAlign(VARHDRSZ + |lower|);
    assert k[at..] == Varlena(upper) + [];
    SizeOfVarlena(upper, []);
    assert k[at + VARHDRSZ..at + VARHDRSZ + |upper|] == k[at..][VARHDRSZ..VARHDRSZ + |upper|];
  }
}
