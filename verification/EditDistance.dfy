/** Weighted edit distance: the cost matrix that contrib/fuzzystrmatch/levenshtein.cpp
    describes, edit scripts as its meaning, and the inequalities the bounded
    variant relies on. */
module EditDistance {

  datatype Costs = Costs(ins: int, del: int, sub: int)

  ghost predicate NonNegative(c: Costs) {
    c.ins >= 0 && c.del >= 0 && c.sub >= 0
  }

  /** Substituting never gains, nor does inserting a character and deleting it. */
  ghost predicate NoGain(c: Costs) {
    c.ins + c.del >= 0 && c.sub >= 0
  }

  function Min(a: int, b: int): int {
    if a < b then a else b
  }

  function Replacement(c: Costs, x: char, y: char): int {
    if x == y then 0 else c.sub
  }

  /** k equal charges of x; keeps products out of the inductive proofs. */
  ghost function Times(k: nat, x: int): int {
    if k == 0 then 0 else Times(k - 1, x) + x
  }

  lemma {:induction false} TimesIsProduct(k: nat, x: int)
    ensures Times(k, x) == k * x
  {
    if k > 0 {
      TimesIsProduct(k - 1, x);
      assert (k - 1) * x + x == k * x;
    }
  }

  lemma {:induction false} TimesNonNegative(k: nat, x: int)
    requires x >= 0
    ensures Times(k, x) >= 0
  {
    if k > 0 { TimesNonNegative(k - 1, x); }
  }

  lemma {:induction false} TimesNonPositive(k: nat, x: int)
    requires x <= 0
    ensures Times(k, x) <= 0
  {
    if k > 0 { TimesNonPositive(k - 1, x); }
  }

  lemma {:induction false} TimesAdds(k: nat, l: nat, x: int)
    ensures Times(k + l, x) == Times(k, x) + Times(l, x)
  {
    if l > 0 { TimesAdds(k, l - 1, x); }
  }

  lemma {:induction false} TimesDistributes(k: nat, x: int, y: int)
    ensures Times(k, x + y) == Times(k, x) + Times(k, y)
  {
    if k > 0 { TimesDistributes(k - 1, x, y); }
  }

  /** Cell (i, j): the first i characters of s turned into the first j of t. */
  ghost function Cell(c: Costs, s: string, t: string, i: nat, j: nat): int
    requires i <= |s| && j <= |t|
    decreases i + j
  {
    if i == 0 then Times(j, c.ins)
    else if j == 0 then Times(i, c.del)
    else Min(Min(Cell(c, s, t, i, j - 1) + c.ins, Cell(c, s, t, i - 1, j) + c.del),
             Cell(c, s, t, i - 1, j - 1) + Replacement(c, s[i - 1], t[j - 1]))
  }

  ghost function Distance(c: Costs, s: string, t: string): int {
    Cell(c, s, t, |s|, |t|)
  }

  // ---- Edit scripts: the reference meaning ----

  datatype Op = Insert(ch: char) | Delete | Replace(ch: char)

  /** What a left-to-right run of a script has consumed, written and paid. */
  datatype Run = Run(consumed: nat, output: string, cost: int) | Stuck

  ghost function Execute(c: Costs, script: seq<Op>, s: string): (r: Run)
    ensures r.Run? ==> r.consumed <= |s|
  {
    if script == [] then Run(0, "", 0)
    else Step(c, Execute(c, script[..|script| - 1], s), script[|script| - 1], s)
  }

  ghost function Step(c: Costs, before: Run, op: Op, s: string): (r: Run)
    ensures r.Run? && (before.Run? ==> before.consumed <= |s|) ==> r.consumed <= |s|
  {
    match before
    case Stuck => Stuck
    case Run(i, out, cost) =>
      match op
      case Insert(ch) => Run(i, out + [ch], cost + c.ins)
      case Delete => if i < |s| then Run(i + 1, out, cost + c.del) else Stuck
      case Replace(ch) => if i < |s| then Run(i + 1, out + [ch], cost + Replacement(c, s[i], ch)) else Stuck
  }

  lemma {:induction false} ExecuteLast(c: Costs, script: seq<Op>, op: Op, s: string)
    ensures Execute(c, script + [op], s) == Step(c, Execute(c, script, s), op, s)
  {
    hide Step;
    assert (script + [op])[..|script|] == script;
  }

  /** The script consumes all of s and writes exactly t. */
  ghost predicate Transforms(c: Costs, script: seq<Op>, s: string, t: string) {
    var r := Execute(c, script, s);
    r.Run? && r.consumed == |s| && r.output == t
  }

  lemma {:induction false} CellOfPrefix(c: Costs, s: string, t: string, s': string, t': string, i: nat, j: nat)
    requires i <= |s| && i <= |s'| && s[..i] == s'[..i]
    requires j <= |t| && j <= |t'| && t[..j] == t'[..j]
    ensures Cell(c, s, t, i, j) == Cell(c, s', t', i, j)
    decreases i + j
  {
    if i > 0 && j > 0 {
      assert s[i - 1] == s[..i][i - 1] == s'[i - 1];
      assert t[j - 1] == t[..j][j - 1] == t'[j - 1];
      assert s[..i - 1] == s[..i][..i - 1] == s'[..i - 1];
      assert t[..j - 1] == t[..j][..j - 1] == t'[..j - 1];
      CellOfPrefix(c, s, t, s', t', i, j - 1);
      CellOfPrefix(c, s, t, s', t', i - 1, j);
      CellOfPrefix(c, s, t, s', t', i - 1, j - 1);
    }
  }

  lemma CellUnfolds(c: Costs, s: string, t: string, i: nat, j: nat)
    requires i <= |s| && j <= |t|
    ensures i == 0 ==> Cell(c, s, t, i, j) == Times(j, c.ins)
    ensures j == 0 ==> Cell(c, s, t, i, j) == Times(i, c.del)
    ensures i > 0 && j > 0 ==>
              Cell(c, s, t, i, j) == Min(Min(Cell(c, s, t, i, j - 1) + c.ins, Cell(c, s, t, i - 1, j) + c.del),
                                         Cell(c, s, t, i - 1, j - 1) + Replacement(c, s[i - 1], t[j - 1]))
  {
  }

  lemma CellSteps(c: Costs, s: string, t: string, i: nat, j: nat)
    requires i <= |s| && j <= |t|
    ensures j < |t| ==> Cell(c, s, t, i, j + 1) <= Cell(c, s, t, i, j) + c.ins
    ensures i < |s| ==> Cell(c, s, t, i + 1, j) <= Cell(c, s, t, i, j) + c.del
    ensures i < |s| && j < |t| ==>
              Cell(c, s, t, i + 1, j + 1) <= Cell(c, s, t, i, j) + Replacement(c, s[i], t[j])
  {
  }

  // ---- The matrix is the cheapest script ----

  /** No script is cheaper than the cell its run has reached. */
  lemma {:induction false} ScriptCostsAtLeastCell(c: Costs, script: seq<Op>, s: string)
    requires Execute(c, script, s).Run?
    ensures var r := Execute(c, script, s);
            Cell(c, s, r.output, r.consumed, |r.output|) <= r.cost
    decreases |script|
  {
    if script == [] {
      CellUnfolds(c, s, "", 0, 0);
    } else {
      hide Cell, Execute, Step;
      var init, op := script[..|script| - 1], script[|script| - 1];
      assert script == init + [op];
      ExecuteLast(c, init, op, s);
      StepFromRun(c, Execute(c, init, s), op, s);
      ScriptCostsAtLeastCell(c, init, s);
      StepCostsAtLeastCell(c, Execute(c, init, s), op, s);
    }
  }

  lemma StepFromRun(c: Costs, before: Run, op: Op, s: string)
    requires Step(c, before, op, s).Run?
    ensures before.Run?
  {
  }

  lemma {:induction false} StepCostsAtLeastCell(c: Costs, before: Run, op: Op, s: string)
    requires before.Run? && before.consumed <= |s| && Step(c, before, op, s).Run?
    requires Cell(c, s, before.output, before.consumed, |before.output|) <= before.cost
    ensures var r := Step(c, before, op, s);
            Cell(c, s, r.output, r.consumed, |r.output|) <= r.cost
  {
    hide Cell;
    var r := Step(c, before, op, s);
    CellOfPrefix(c, s, before.output, s, r.output, before.consumed, |before.output|);
    CellSteps(c, s, r.output, before.consumed, |before.output|);
  }

  lemma {:induction false} NothingExecuted(c: Costs, s: string)
    ensures Execute(c, [], s) == Run(0, "", 0)
  {
  }

  /** Every cell is paid for exactly by some script. */
  lemma {:induction false} CheapestScript(c: Costs, s: string, t: string, i: nat, j: nat) returns (script: seq<Op>)
    requires i <= |s| && j <= |t|
    ensures Execute(c, script, s) == Run(i, t[..j], Cell(c, s, t, i, j))
    decreases i + j
  {
    hide Cell, Execute;
    CellUnfolds(c, s, t, i, j);
    if i > 0 { CellUnfolds(c, s, t, i - 1, j); }
    if j > 0 { CellUnfolds(c, s, t, i, j - 1); }
    if i == 0 && j == 0 {
      script := [];
      NothingExecuted(c, s);
      assert t[..0] == "";
    } else {
      var i', j', op;
      if j > 0 && (i == 0 || Cell(c, s, t, i, j) == Cell(c, s, t, i, j - 1) + c.ins) {
        i', j', op := i, j - 1, Insert(t[j - 1]);
      } else if i > 0 && (j == 0 || Cell(c, s, t, i, j) == Cell(c, s, t, i - 1, j) + c.del) {
        i', j', op := i - 1, j, Delete;
      } else {
        i', j', op := i - 1, j - 1, Replace(t[j - 1]);
      }
      var shorter := CheapestScript(c, s, t, i', j');
      script := shorter + [op];
      ExecuteLast(c, shorter, op, s);
      assert j > 0 ==> t[..j] == t[..j - 1] + [t[j - 1]];
    }
  }

  /** The distance is the minimum cost over all scripts from s to t, for any
      integer costs. */
  lemma {:induction false} DistanceIsCheapestScript(c: Costs, s: string, t: string)
    ensures forall script :: Transforms(c, script, s, t) ==> Distance(c, s, t) <= Execute(c, script, s).cost
    ensures exists script :: Transforms(c, script, s, t) && Execute(c, script, s).cost == Distance(c, s, t)
  {
    forall script | Transforms(c, script, s, t)
      ensures Distance(c, s, t) <= Execute(c, script, s).cost
    {
      ScriptCostsAtLeastCell(c, script, s);
    }
    var script := CheapestScript(c, s, t, |s|, |t|);
    assert t[..|t|] == t;
    assert Transforms(c, script, s, t);
  }

  // ---- Inequalities under non-negative costs ----

  lemma {:induction false} Lipschitz(c: Costs, s: string, t: string, i: nat, j: nat)
    requires NonNegative(c) && i <= |s| && j <= |t|
    ensures i < |s| ==> Cell(c, s, t, i, j) <= Cell(c, s, t, i + 1, j) + c.ins
    ensures j < |t| ==> Cell(c, s, t, i, j) <= Cell(c, s, t, i, j + 1) + c.del
    decreases i + j
  {
    hide Cell;
    CellUnfolds(c, s, t, i, j);
    if i < |s| { CellUnfolds(c, s, t, i + 1, j); }
    if j < |t| { CellUnfolds(c, s, t, i, j + 1); }
    TimesNonNegative(i, c.del);
    TimesNonNegative(j, c.ins);
    if j > 0 { Lipschitz(c, s, t, i, j - 1); CellSteps(c, s, t, i, j - 1); }
    if i > 0 { Lipschitz(c, s, t, i - 1, j); CellSteps(c, s, t, i - 1, j); }
  }

  /** The distance between prefixes never falls along a diagonal. */
  lemma DiagonalNeverFalls(c: Costs, s: string, t: string, i: nat, j: nat)
    requires NonNegative(c) && i < |s| && j < |t|
    ensures Cell(c, s, t, i, j) <= Cell(c, s, t, i + 1, j + 1)
  {
    Lipschitz(c, s, t, i, j);
  }

  lemma {:induction false} CellAtMostRewriteAll(c: Costs, s: string, t: string, i: nat, j: nat)
    requires i <= |s| && j <= |t|
    ensures Cell(c, s, t, i, j) <= Times(i, c.del) + Times(j, c.ins)
    decreases i + j
  {
    hide Cell;
    CellUnfolds(c, s, t, i, j);
    if i > 0 && j > 0 { CellAtMostRewriteAll(c, s, t, i - 1, j); }
  }

  lemma {:induction false} CellTriangle(c: Costs, s: string, t: string, u: string, i: nat, j: nat, k: nat)
    requires NonNegative(c) && i <= |s| && j <= |t| && k <= |u|
    ensures Cell(c, s, u, i, k) <= Cell(c, s, t, i, j) + Cell(c, t, u, j, k)
    decreases i + j + k
  {
    hide Cell;
    CellUnfolds(c, s, t, i, j);
    CellUnfolds(c, t, u, j, k);
    CellAtMostRewriteAll(c, s, u, i, k);
    CellAtMostRewriteAll(c, s, t, i, j);
    CellAtMostRewriteAll(c, t, u, j, k);
    if j == 0 {
    } else if i > 0 && Cell(c, s, t, i, j) == Cell(c, s, t, i - 1, j) + c.del {
      CellTriangle(c, s, t, u, i - 1, j, k);
      CellSteps(c, s, u, i - 1, k);
    } else if k > 0 && Cell(c, t, u, j, k) == Cell(c, t, u, j, k - 1) + c.ins {
      CellTriangle(c, s, t, u, i, j, k - 1);
      CellSteps(c, s, u, i, k - 1);
    } else {
      TriangleThroughLastCharacter(c, s, t, u, i, j, k);
    }
  }

  /** The middle string's last character is written by the first script and
      read by the second. */
  lemma {:induction false} TriangleThroughLastCharacter(c: Costs, s: string, t: string, u: string, i: nat, j: nat, k: nat)
    requires NonNegative(c) && i <= |s| && 0 < j <= |t| && k <= |u|
    requires i > 0 ==> Cell(c, s, t, i, j) != Cell(c, s, t, i - 1, j) + c.del
    requires k > 0 ==> Cell(c, t, u, j, k) != Cell(c, t, u, j, k - 1) + c.ins
    ensures Cell(c, s, u, i, k) <= Cell(c, s, t, i, j) + Cell(c, t, u, j, k)
    decreases i + j + k, 0
  {
    hide Cell;
    CellUnfolds(c, s, t, i, j);
    CellUnfolds(c, t, u, j, k);
    CellUnfolds(c, s, t, i, j - 1);
    CellUnfolds(c, t, u, j - 1, k);
    var inserted := i == 0 || Cell(c, s, t, i, j) == Cell(c, s, t, i, j - 1) + c.ins;
    var deleted := k == 0 || Cell(c, t, u, j, k) == Cell(c, t, u, j - 1, k) + c.del;
    if inserted && deleted {
      CellTriangle(c, s, t, u, i, j - 1, k);
    } else if inserted {
      CellTriangle(c, s, t, u, i, j - 1, k - 1);
      CellSteps(c, s, u, i, k - 1);
    } else if deleted {
      CellTriangle(c, s, t, u, i - 1, j - 1, k);
      CellSteps(c, s, u, i - 1, k);
    } else {
      CellTriangle(c, s, t, u, i - 1, j - 1, k - 1);
      CellSteps(c, s, u, i - 1, k - 1);
    }
  }

  lemma TriangleInequality(c: Costs, s: string, t: string, u: string)
    requires NonNegative(c)
    ensures Distance(c, s, u) <= Distance(c, s, t) + Distance(c, t, u)
  {
    CellTriangle(c, s, t, u, |s|, |t|, |u|);
  }

  // ---- Facts the bounded variant starts from ----

  function Capped(c: Costs): Costs {
    if c.ins + c.del < c.sub then c.(sub := c.ins + c.del) else c
  }

  /** A substitution dearer than a deletion plus an insertion never helps. */
  lemma {:induction false} CapChangesNothing(c: Costs, s: string, t: string, i: nat, j: nat)
    requires i <= |s| && j <= |t|
    ensures Cell(Capped(c), s, t, i, j) == Cell(c, s, t, i, j)
    decreases i + j
  {
    hide Cell;
    CellUnfolds(c, s, t, i, j);
    CellUnfolds(Capped(c), s, t, i, j);
    if i > 0 && j > 0 {
      CapChangesNothing(c, s, t, i, j - 1);
      CapChangesNothing(c, s, t, i - 1, j);
      CapChangesNothing(c, s, t, i - 1, j - 1);
      CellSteps(c, s, t, i - 1, j - 1);
      var left, up, corner := Cell(c, s, t, i - 1, j), Cell(c, s, t, i, j - 1), Cell(c, s, t, i - 1, j - 1);
      assert Cell(Capped(c), s, t, i, j)
          == Min(Min(up + c.ins, left + c.del), corner + Replacement(Capped(c), s[i - 1], t[j - 1]));
    }
  }

  /** Least possible cost of finishing with rs characters of s and rt of t left. */
  ghost function Residual(c: Costs, rs: int, rt: int): int {
    if rt > rs then Times(rt - rs, c.ins) else Times(rs - rt, c.del)
  }

  lemma ResidualConsistent(c: Costs, rs: int, rt: int)
    requires NoGain(c)
    ensures NonNegative(c) ==> 0 <= Residual(c, rs, rt)
    ensures Residual(c, rs, rt + 1) <= Residual(c, rs, rt) + c.ins
    ensures Residual(c, rs + 1, rt) <= Residual(c, rs, rt) + c.del
    ensures Residual(c, rs + 1, rt + 1) == Residual(c, rs, rt)
  {
    if rt >= rs {
      assert Times(rt - rs + 1, c.ins) == Times(rt - rs, c.ins) + c.ins;
      if NonNegative(c) { TimesNonNegative(rt - rs, c.ins); }
    } else {
      assert Times(rs - rt, c.del) == Times(rs - rt - 1, c.del) + c.del;
      if NonNegative(c) { TimesNonNegative(rs - rt, c.del); }
    }
  }

  /** Best total through cell (i, j) that the residual still allows. */
  ghost function Through(c: Costs, s: string, t: string, i: nat, j: nat): int
    requires i <= |s| && j <= |t|
  {
    Cell(c, s, t, i, j) + Residual(c, |s| - i, |t| - j)
  }

  /** Every row holds a cell that an optimal path goes through. */
  lemma {:induction false} RowWitness(c: Costs, s: string, t: string, i: nat, j: nat, row: nat) returns (k: nat)
    requires NoGain(c) && i <= |s| && row <= j <= |t|
    ensures k <= i && Through(c, s, t, k, row) <= Through(c, s, t, i, j)
    decreases i + j
  {
    hide Cell;
    CellUnfolds(c, s, t, i, j);
    if j > 0 { CellUnfolds(c, s, t, i, j - 1); }
    if j == row {
      k := i;
    } else if i == 0 || Cell(c, s, t, i, j) == Cell(c, s, t, i, j - 1) + c.ins {
      ResidualConsistent(c, |s| - i, |t| - j);
      k := RowWitness(c, s, t, i, j - 1, row);
    } else if Cell(c, s, t, i, j) == Cell(c, s, t, i - 1, j) + c.del {
      ResidualConsistent(c, |s| - i, |t| - j);
      k := RowWitness(c, s, t, i - 1, j, row);
    } else {
      ResidualConsistent(c, |s| - i, |t| - j);
      k := RowWitness(c, s, t, i - 1, j - 1, row);
    }
  }

  /** A row all of whose cells exceed the bound shows that the distance does. */
  lemma DeadRow(c: Costs, s: string, t: string, row: nat, bound: int)
    requires NoGain(c) && row <= |t|
    requires forall i: nat | i <= |s| :: Through(c, s, t, i, row) > bound
    ensures Distance(c, s, t) > bound
  {
    var k := RowWitness(c, s, t, |s|, |t|, row);
  }

  lemma {:induction false} FirstRow(c: Costs, s: string, t: string, i: nat)
    requires i <= |s|
    ensures var net := |t| - |s|;
            var best := if net < 0 then -net else 0;
            Through(c, s, t, i, 0) == Residual(c, |s|, |t|)
                                      + (if i <= best then 0 else Times(i - best, c.ins + c.del))
  {
    var net := |t| - |s|;
    if net >= 0 {
      TimesAdds(net, i, c.ins);
      TimesDistributes(i, c.ins, c.del);
    } else if i <= -net {
      TimesAdds(i, -net - i, c.del);
    } else {
      TimesAdds(-net, i + net, c.del);
      TimesDistributes(i + net, c.ins, c.del);
    }
  }

  lemma TheoreticalMinimum(c: Costs, s: string, t: string)
    requires NoGain(c)
    ensures Residual(c, |s|, |t|) <= Distance(c, s, t)
  {
    var k := RowWitness(c, s, t, |s|, |t|, 0);
    FirstRow(c, s, t, k);
    var best := if |t| < |s| then |s| - |t| else 0;
    if k > best { TimesNonNegative(k - best, c.ins + c.del); }
  }

  lemma {:induction false} CellUpperBound(c: Costs, s: string, t: string, i: nat, j: nat)
    requires c.sub >= 0 && i <= |s| && j <= |t|
    ensures Cell(c, s, t, i, j) <= Residual(c, i, j) + Times(Min(i, j), c.sub)
    decreases i + j
  {
    hide Cell;
    CellUnfolds(c, s, t, i, j);
    if i == 0 || j == 0 {
    } else if i == j {
      CellUpperBound(c, s, t, i - 1, j - 1);
      CellSteps(c, s, t, i - 1, j - 1);
    } else if i < j {
      CellUpperBound(c, s, t, i, j - 1);
      CellSteps(c, s, t, i, j - 1);
      assert Times(j - i, c.ins) == Times(j - 1 - i, c.ins) + c.ins;
    } else {
      CellUpperBound(c, s, t, i - 1, j);
      CellSteps(c, s, t, i - 1, j);
    }
  }

  /** In the last row the residual is also affordable: it deletes the rest of s. */
  lemma {:induction false} LastRowReaches(c: Costs, s: string, t: string, i: nat)
    requires i <= |s|
    ensures Distance(c, s, t) <= Through(c, s, t, i, |t|)
    decreases |s| - i
  {
    hide Cell;
    if i < |s| {
      LastRowReaches(c, s, t, i + 1);
      CellSteps(c, s, t, i, |t|);
    }
  }
}
