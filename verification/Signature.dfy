/** 128-bit signatures of contrib/hstore/hstore_gist.cpp and their distance. */
module Signature {

  const SIGLEN := 16
  const SIGLENBIT := 128

  type BitVec = s: seq<bv8> | |s| == SIGLEN witness seq(SIGLEN, _ => 0)

  /** A stored key; an all-true key carries no bit vector. */
  datatype Key = AllTrue | Signed(sign: BitVec)

  function Mask(k: nat): bv8 {
    if k == 0 then 1 else if k == 1 then 2 else if k == 2 then 4 else if k == 3 then 8
    else if k == 4 then 16 else if k == 5 then 32 else if k == 6 then 64 else 128
  }

  predicate ByteBit(b: bv8, k: nat) {
    b & Mask(k) != 0
  }

  predicate GetBit(s: BitVec, i: nat)
    requires i < SIGLENBIT
  {
    ByteBit(s[i / 8], i % 8)
  }

  function SetBit(s: BitVec, i: nat): BitVec
    requires i < SIGLENBIT
  {
    s[i / 8 := s[i / 8] | Mask(i % 8)]
  }

  /** The bits a key stands for. */
  ghost function Reading(k: Key): (bits: seq<bool>)
    ensures |bits| == SIGLENBIT
  {
    if k.AllTrue? then seq(SIGLENBIT, _ => true)
    else seq(SIGLENBIT, i requires 0 <= i < SIGLENBIT => GetBit(k.sign, i))
  }

  // ---- Bits of bytes ----

  lemma OrBit(a: bv8, b: bv8, k: nat)
    requires k < 8
    ensures ByteBit(a | b, k) == (ByteBit(a, k) || ByteBit(b, k))
  {
  }

  lemma MaskBit(a: bv8, k: nat, l: nat)
    requires k < 8 && l < 8
    ensures ByteBit(a | Mask(l), k) == (ByteBit(a, k) || k == l)
  {
  }

  lemma FullByte(b: bv8)
    ensures b == 0xff <==> forall k: nat | k < 8 :: ByteBit(b, k)
  {
    assert ByteBit(b, 0) == (b & 1 != 0) && ByteBit(b, 1) == (b & 2 != 0);
    assert ByteBit(b, 2) == (b & 4 != 0) && ByteBit(b, 3) == (b & 8 != 0);
    assert ByteBit(b, 4) == (b & 16 != 0) && ByteBit(b, 5) == (b & 32 != 0);
    assert ByteBit(b, 6) == (b & 64 != 0) && ByteBit(b, 7) == (b & 128 != 0);
  }

  lemma EmptyByte(k: nat)
    ensures !ByteBit(0, k)
  {
  }

  lemma SetBitMeans(s: BitVec, i: nat, j: nat)
    requires i < SIGLENBIT && j < SIGLENBIT
    ensures GetBit(SetBit(s, i), j) == (GetBit(s, j) || i == j)
  {
    hide ByteBit, Mask;
    if i / 8 == j / 8 { MaskBit(s[i / 8], j % 8, i % 8); }
  }

  // ---- Distance ----

  ghost function Hamming(p: seq<bool>, q: seq<bool>): (n: nat)
    requires |p| == |q|
    ensures n <= |p|
  {
    if p == [] then 0
    else
      var n := |p| - 1;
      Hamming(p[..n], q[..n]) + if p[n] != q[n] then 1 else 0
  }

  ghost function Ones(p: seq<bool>): (n: nat)
    ensures n <= |p|
  {
    if p == [] then 0 else Ones(p[..|p| - 1]) + if p[|p| - 1] then 1 else 0
  }

  lemma {:induction false} HammingSymmetric(p: seq<bool>, q: seq<bool>)
    requires |p| == |q|
    ensures Hamming(p, q) == Hamming(q, p)
    decreases |p|
  {
    if p != [] { HammingSymmetric(p[..|p| - 1], q[..|p| - 1]); }
  }

  lemma {:induction false} HammingZeroIffEqual(p: seq<bool>, q: seq<bool>)
    requires |p| == |q|
    ensures Hamming(p, q) == 0 <==> p == q
    decreases |p|
  {
    if p != [] {
      var n := |p| - 1;
      HammingZeroIffEqual(p[..n], q[..n]);
      assert p == p[..n] + [p[n]] && q == q[..n] + [q[n]];
    }
  }

  lemma {:induction false} HammingTriangle(p: seq<bool>, q: seq<bool>, r: seq<bool>)
    requires |p| == |q| == |r|
    ensures Hamming(p, r) <= Hamming(p, q) + Hamming(q, r)
    decreases |p|
  {
    if p != [] { HammingTriangle(p[..|p| - 1], q[..|p| - 1], r[..|p| - 1]); }
  }

  lemma {:induction false} HammingNext(p: seq<bool>, q: seq<bool>, i: nat)
    requires i < |p| == |q|
    ensures Hamming(p[..i + 1], q[..i + 1]) == Hamming(p[..i], q[..i]) + if p[i] != q[i] then 1 else 0
  {
    assert p[..i + 1][..i] == p[..i] && q[..i + 1][..i] == q[..i];
  }

  lemma {:induction false} HammingFromAll(p: seq<bool>, q: seq<bool>)
    requires |p| == |q| && forall i | 0 <= i < |p| :: p[i]
    ensures Hamming(p, q) == |q| - Ones(q)
    decreases |p|
  {
    if p != [] { HammingFromAll(p[..|p| - 1], q[..|p| - 1]); }
  }

  function SumBit(b: bv8): nat {
    (if ByteBit(b, 0) then 1 else 0) + (if ByteBit(b, 1) then 1 else 0)
    + (if ByteBit(b, 2) then 1 else 0) + (if ByteBit(b, 3) then 1 else 0)
    + (if ByteBit(b, 4) then 1 else 0) + (if ByteBit(b, 5) then 1 else 0)
    + (if ByteBit(b, 6) then 1 else 0) + (if ByteBit(b, 7) then 1 else 0)
  }

  lemma OnesNext(p: seq<bool>, n: nat)
    requires n < |p|
    ensures Ones(p[..n + 1]) == Ones(p[..n]) + if p[n] then 1 else 0
  {
    assert p[..n + 1][..n] == p[..n];
  }

  /** The bits set among four consecutive ones. */
  function SumHalf(b: bv8, low: nat): nat
    requires low == 0 || low == 4
  {
    (if ByteBit(b, low) then 1 else 0) + (if ByteBit(b, low + 1) then 1 else 0)
    + (if ByteBit(b, low + 2) then 1 else 0) + (if ByteBit(b, low + 3) then 1 else 0)
  }

  lemma OnesNextHalf(s: BitVec, p: seq<bool>, k: nat, low: nat)
    requires k < SIGLEN && p == Reading(Signed(s)) && (low == 0 || low == 4)
    ensures Ones(p[..8 * k + low + 4]) == Ones(p[..8 * k + low]) + SumHalf(s[k], low)
  {
    hide ByteBit, Ones, Reading;
    var n := 8 * k + low;
    OnesNext(p, n);
    ReadingBit(s, k, low);
    OnesNext(p, n + 1);
    ReadingBit(s, k, low + 1);
    OnesNext(p, n + 2);
    ReadingBit(s, k, low + 2);
    OnesNext(p, n + 3);
    ReadingBit(s, k, low + 3);
  }

  lemma OnesNextByte(s: BitVec, p: seq<bool>, k: nat)
    requires k < SIGLEN && p == Reading(Signed(s))
    ensures Ones(p[..8 * k + 8]) == Ones(p[..8 * k]) + SumBit(s[k])
  {
    hide ByteBit, Ones, Reading;
    OnesNextHalf(s, p, k, 0);
    OnesNextHalf(s, p, k, 4);
  }

  lemma ReadingBit(s: BitVec, k: nat, b: nat)
    requires k < SIGLEN && b < 8
    ensures Reading(Signed(s))[8 * k + b] == ByteBit(s[k], b)
  {
    hide ByteBit;
    assert (8 * k + b) / 8 == k && (8 * k + b) % 8 == b;
  }

  method SizeBitVec(s: BitVec) returns (size: nat)
    ensures size == Ones(Reading(Signed(s)))
  {
    hide ByteBit, Ones, SumBit;
    ghost var p := Reading(Signed(s));
    size := 0;
    assert Ones(p[..0]) == 0 by { OnesOfNothing(); }
    for i := 0 to SIGLEN
      invariant size == Ones(p[..8 * i])
    {
      OnesNextByte(s, p, i);
      size := size + SumBit(s[i]);
    }
    assert p[..SIGLENBIT] == p;
  }

  lemma OnesOfNothing()
    ensures Ones([]) == 0
  {
  }

  lemma NoneDiffer()
    ensures Hamming([], []) == 0
  {
  }

  method HemDistSign(a: BitVec, b: BitVec) returns (dist: nat)
    ensures dist == Hamming(Reading(Signed(a)), Reading(Signed(b)))
  {
    hide ByteBit, Hamming, GetBit;
    ghost var p, q := Reading(Signed(a)), Reading(Signed(b));
    NoneDiffer();
    assert p[..0] == [] == q[..0];
    dist := 0;
    for i := 0 to SIGLENBIT
      invariant dist == Hamming(p[..i], q[..i])
    {
      HammingNext(p, q, i);
      if GetBit(a, i) != GetBit(b, i) { dist := dist + 1; }
    }
    assert p[..SIGLENBIT] == p && q[..SIGLENBIT] == q;
  }

  ghost function Distance(a: Key, b: Key): (n: nat)
    ensures n <= SIGLENBIT
  {
    Hamming(Reading(a), Reading(b))
  }

  /** hemdist: an all-true key is read as all ones. */
  method HemDist(a: Key, b: Key) returns (dist: int)
    ensures dist == Distance(a, b)
  {
    hide Ones, Hamming;
    HammingSymmetric(Reading(a), Reading(b));
    HammingZeroIffEqual(Reading(a), Reading(b));
    if a.AllTrue? {
      if b.AllTrue? { return 0; }
      HammingFromAll(Reading(a), Reading(b));
      var n := SizeBitVec(b.sign);
      return SIGLENBIT - n;
    } else if b.AllTrue? {
      HammingFromAll(Reading(b), Reading(a));
      var n := SizeBitVec(a.sign);
      return SIGLENBIT - n;
    }
    dist := HemDistSign(a.sign, b.sign);
  }

  /** Two keys read the same exactly at distance zero, and distances obey the
      triangle inequality. */
  lemma DistanceIsMetric(a: Key, b: Key, c: Key)
    ensures Distance(a, b) == Distance(b, a)
    ensures Distance(a, b) == 0 <==> Reading(a) == Reading(b)
    ensures Distance(a, c) <= Distance(a, b) + Distance(b, c)
  {
    hide Hamming;
    HammingSymmetric(Reading(a), Reading(b));
    HammingZeroIffEqual(Reading(a), Reading(b));
    HammingTriangle(Reading(a), Reading(b), Reading(c));
  }
}
