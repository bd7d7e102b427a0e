/** Byte strings under byteacmp: memcmp on the common length, then length. */
module ByteString {

  type byte = x: int | 0 <= x < 256
  type Bytes = seq<byte>

  /** Length of the longest common prefix. */
  function CommonPrefix(a: Bytes, b: Bytes): (k: nat)
    ensures k <= |a| && k <= |b|
    ensures forall i | 0 <= i < k :: a[i] == b[i]
    ensures k < |a| && k < |b| ==> a[k] != b[k]
  {
    if a == [] || b == [] || a[0] != b[0] then 0 else
      var k := CommonPrefix(a[1..], b[1..]);
      assert forall i | 0 <= i < k :: a[1..][i] == b[1..][i];
      1 + k
  }

  lemma {:induction false} CommonPrefixIs(a: Bytes, b: Bytes, k: nat)
    requires k <= |a| && k <= |b| && (forall i | 0 <= i < k :: a[i] == b[i])
    requires k < |a| && k < |b| ==> a[k] != b[k]
    ensures CommonPrefix(a, b) == k
  {
  }

  /** byteacmp: negative, zero or positive. */
  function Compare(a: Bytes, b: Bytes): int {
    var k := CommonPrefix(a, b);
    if k == |a| && k == |b| then 0
    else if k == |a| then -1
    else if k == |b| then 1
    else if a[k] < b[k] then -1 else 1
  }

  predicate Leq(a: Bytes, b: Bytes) {
    Compare(a, b) <= 0
  }

  predicate IsPrefix(p: Bytes, b: Bytes) {
    |p| <= |b| && b[..|p|] == p
  }

  function Least(a: Bytes, b: Bytes): Bytes {
    if Compare(a, b) > 0 then b else a
  }

  function Greatest(a: Bytes, b: Bytes): Bytes {
    if Compare(a, b) < 0 then b else a
  }

  function Truncate(b: Bytes, n: nat): Bytes {
    if |b| <= n then b else b[..n]
  }

  lemma {:induction false} CommonPrefixSymmetric(a: Bytes, b: Bytes)
    ensures CommonPrefix(a, b) == CommonPrefix(b, a)
  {
    CommonPrefixIs(b, a, CommonPrefix(a, b));
  }

  /** Compare is a total order up to equality of the strings. */
  lemma CompareIsOrder(a: Bytes, b: Bytes)
    ensures Compare(a, b) == 0 <==> a == b
    ensures Compare(a, b) == -Compare(b, a)
  {
    hide CommonPrefix;
    CommonPrefixSymmetric(a, b);
    CommonPrefixIs(a, a, |a|);
  }

  /** The order is that of memcmp, a proper prefix before its continuations. */
  lemma CompareIsLexicographic(a: Bytes, b: Bytes)
    ensures Compare(a, b) < 0 <==>
            exists k: nat :: k <= |a| && k < |b| && a[..k] == b[..k] && (k == |a| || a[k] < b[k])
  {
    hide CommonPrefix;
    var c := CommonPrefix(a, b);
    if Compare(a, b) < 0 {
      assert a[..c] == b[..c];
    }
    forall k: nat | k <= |a| && k < |b| && a[..k] == b[..k] && (k == |a| || a[k] < b[k])
      ensures Compare(a, b) < 0
    {
      assert forall i | 0 <= i < k :: a[i] == a[..k][i] == b[..k][i] == b[i];
      CommonPrefixIs(a, b, k);
    }
  }

  /** Between two strings, everything shares what they share. */
  lemma {:induction false} Between(a: Bytes, b: Bytes, c: Bytes)
    requires Leq(a, b) && Leq(b, c)
    ensures Leq(a, c)
    ensures CommonPrefix(a, c) <= CommonPrefix(a, b) && CommonPrefix(a, c) <= CommonPrefix(b, c)
  {
    hide CommonPrefix;
    var p, q := CommonPrefix(a, b), CommonPrefix(b, c);
    var k := if p < q then p else q;
    assert k < |a| && k < |c| ==> a[k] != c[k];
    CommonPrefixIs(a, c, k);
  }

  lemma {:induction false} PrefixFacts(p: Bytes, b: Bytes)
    requires IsPrefix(p, b)
    ensures CommonPrefix(p, b) == |p| && Leq(p, b)
  {
    assert forall i | 0 <= i < |p| :: p[i] == b[..|p|][i] == b[i];
    CommonPrefixIs(p, b, |p|);
  }

  lemma {:induction false} PrefixFromCommon(p: Bytes, b: Bytes)
    requires CommonPrefix(p, b) == |p|
    ensures IsPrefix(p, b)
  {
  }

  lemma TruncateFacts(b: Bytes, n: nat)
    ensures IsPrefix(Truncate(b, n), b) && Leq(Truncate(b, n), b)
  {
    PrefixFacts(Truncate(b, n), b);
  }

  /** Truncating both sides beyond the common prefix keeps it and the order. */
  lemma {:induction false} TruncateBoth(a: Bytes, b: Bytes, n: nat)
    requires Leq(a, b)
    ensures Leq(Truncate(a, n), Truncate(b, n))
    ensures CommonPrefix(Truncate(a, n), Truncate(b, n)) ==
            (if CommonPrefix(a, b) < n then CommonPrefix(a, b) else n)
  {
    hide CommonPrefix;
    var k := CommonPrefix(a, b);
    CommonPrefixIs(Truncate(a, n), Truncate(b, n), if k < n then k else n);
  }
}
