/** The plain form of contrib/fuzzystrmatch/levenshtein.cpp: a dynamic program over
    two rows that are swapped. Strings are sequences of characters. */
module Levenshtein {
  import opened EditDistance

  const MAX_LEVENSHTEIN_STRLEN := 255

  datatype Outcome = Dist(d: int) | TooLong

  ghost predicate Rejected(s: string, t: string) {
    s != "" && t != "" && (|s| > MAX_LEVENSHTEIN_STRLEN || |t| > MAX_LEVENSHTEIN_STRLEN)
  }

  ghost predicate RowIs(c: Costs, s: string, t: string, j: nat, row: seq<int>, filled: nat)
    requires j <= |t| && |row| == |s| + 1
  {
    filled <= |row| && forall i: nat | i < filled :: row[i] == Cell(c, s, t, i, j)
  }

  /** One pass of the inner loop: prev holds row j - 1, curr receives row j. */
  method FillRow(prev: array<int>, curr: array<int>, s: string, t: string, c: Costs, j: nat)
    requires prev != curr && prev.Length == curr.Length == |s| + 1
    requires 0 < j <= |t|
    requires RowIs(c, s, t, j - 1, prev[..], |s| + 1)
    modifies curr
    ensures RowIs(c, s, t, j, curr[..], |s| + 1)
  {
    hide Cell;
    curr[0] := j * c.ins;
    TimesIsProduct(j, c.ins);
    CellUnfolds(c, s, t, 0, j);
    var x := 0;
    for i := 1 to |s| + 1
      invariant x == i - 1
      invariant RowIs(c, s, t, j, curr[..], i)
      invariant prev[..] == old(prev[..])
    {
      var ins := prev[i] + c.ins;
      var del := curr[i - 1] + c.del;
      var sub := prev[i - 1] + (if s[x] == t[j - 1] then 0 else c.sub);
      assert prev[i] == prev[..][i] && prev[i - 1] == prev[..][i - 1] && curr[i - 1] == curr[..][i - 1];
      CellUnfolds(c, s, t, i, j);
      ghost var filled := curr[..];
      curr[i] := Min(Min(ins, del), sub);
      assert forall k: nat | k < i :: curr[..][k] == filled[k];
      x := x + 1;
    }
  }

  method Levenshtein(s: string, t: string, c: Costs) returns (r: Outcome)
    ensures r.TooLong? <==> Rejected(s, t)
    ensures r.Dist? ==> r.d == Distance(c, s, t)
  {
    hide Cell;
    var m, n := |s|, |t|;
    CellUnfolds(c, s, t, m, n);
    TimesIsProduct(n, c.ins);
    TimesIsProduct(m, c.del);
    if m == 0 { return Dist(n * c.ins); }
    if n == 0 { return Dist(m * c.del); }
    if m > MAX_LEVENSHTEIN_STRLEN || n > MAX_LEVENSHTEIN_STRLEN { return TooLong; }
    m, n := m + 1, n + 1;
    var prev, curr := new int[m], new int[m];
    for i := 0 to m
      invariant RowIs(c, s, t, 0, prev[..], i)
    {
      CellUnfolds(c, s, t, i, 0);
      TimesIsProduct(i, c.del);
      ghost var filled := prev[..];
      prev[i] := i * c.del;
      assert forall k: nat | k < i :: prev[..][k] == filled[k];
    }
    for j := 1 to n
      invariant prev != curr && prev.Length == curr.Length == m
      invariant fresh(prev) && fresh(curr)
      invariant RowIs(c, s, t, j - 1, prev[..], m)
    {
      FillRow(prev, curr, s, t, c, j);
      prev, curr := curr, prev;
    }
    assert prev[m - 1] == prev[..][m - 1];
    return Dist(prev[m - 1]);
  }
}
