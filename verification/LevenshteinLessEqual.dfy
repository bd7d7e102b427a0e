/** The banded routine: only columns that can still lead to a total within the
    bound are computed. A negative bound means "no bound", as in the source. */
module LevenshteinLessEqual {
  import opened EditDistance
  import opened Levenshtein

  /** The band is meaningful when costs are non-negative or there is no bound. */
  ghost predicate Meaningful(c: Costs, max: int) {
    NonNegative(c) || max < 0
  }

  ghost predicate Dead(c: Costs, s: string, t: string, max: int, i: nat, j: nat)
    requires i <= |s| && j <= |t|
  {
    max >= 0 && Through(c, s, t, i, j) > max
  }

  /** v may stand for cell (i, j): exact where the cell still matters, and never
      below what the bound can distinguish. */
  ghost predicate StandsFor(c: Costs, s: string, t: string, max: int, i: nat, j: nat, v: int)
    requires i <= |s| && j <= |t|
  {
    && (!Dead(c, s, t, max, i, j) ==> v == Cell(c, s, t, i, j))
    && (max >= 0 ==> v >= Min(Cell(c, s, t, i, j), max + 1))
  }

  /** Row j is represented on columns start..stop, and only dead cells lie outside. */
  ghost predicate Band(c: Costs, s: string, t: string, max: int, j: nat, start: int, stop: int, row: seq<int>)
    requires j <= |t| && |row| == |s| + 1
  {
    && 0 <= start && stop <= |s| + 1
    && (forall i: nat | start <= i < stop :: StandsFor(c, s, t, max, i, j, row[i]))
    && (forall i: nat | i <= |s| && !(start <= i < stop) :: Dead(c, s, t, max, i, j))
  }

  /** Columns left of start hold the sentinel. */
  ghost predicate Sentinels(max: int, start: int, row: seq<int>) {
    forall i: nat | i < start && i < |row| :: row[i] == max + 1
  }

  /** The stop column lies beyond the column where the remainders have equal length. */
  ghost predicate PastZeroPoint(s: string, t: string, max: int, j: nat, stop: int) {
    max >= 0 && stop <= |s| ==> stop - 1 >= j - (|t| - |s|)
  }

  // ---- Cell-by-cell facts ----

  lemma DeadSpreads(c: Costs, s: string, t: string, max: int, i: nat, j: nat)
    requires NonNegative(c) && i <= |s| && 0 < j <= |t|
    requires Dead(c, s, t, max, i, j - 1)
    requires i > 0 ==> Dead(c, s, t, max, i - 1, j - 1) && Dead(c, s, t, max, i - 1, j)
    ensures Dead(c, s, t, max, i, j)
  {
    hide Cell;
    CellUnfolds(c, s, t, i, j);
    CellUnfolds(c, s, t, i, j - 1);
    ResidualConsistent(c, |s| - i, |t| - j);
  }

  /** Columns that were dead on the left stay dead in the next row. */
  lemma {:induction false} DeadOnLeft(c: Costs, s: string, t: string, max: int, i: nat, above: nat)
    requires NonNegative(c) && i <= |s| && above < |t|
    requires forall k: nat | k <= i :: Dead(c, s, t, max, k, above)
    ensures Dead(c, s, t, max, i, above + 1)
  {
    if i > 0 { DeadOnLeft(c, s, t, max, i - 1, above); }
    DeadSpreads(c, s, t, max, i, above + 1);
  }

  lemma ResidualRightOfZero(c: Costs, rs: int, rt: int)
    requires rt >= rs
    ensures Residual(c, rs - 1, rt) == Residual(c, rs, rt) + c.ins
    ensures Residual(c, rs, rt + 1) == Residual(c, rs, rt) + c.ins
  {
    assert Times(rt - rs + 1, c.ins) == Times(rt - rs, c.ins) + c.ins;
  }

  /** Right of the zero point, a column is dead when it and its left neighbour
      were dead one row above. */
  lemma DeadOnRight(c: Costs, s: string, t: string, max: int, i: nat, j: nat)
    requires NonNegative(c) && 0 < i <= |s| && 0 < j <= |t|
    requires Dead(c, s, t, max, i, j - 1) && Dead(c, s, t, max, i - 1, j - 1)
    requires i - 1 >= j - (|t| - |s|)
    ensures Dead(c, s, t, max, i, j)
  {
    hide Cell;
    CellUnfolds(c, s, t, i, j);
    Lipschitz(c, s, t, i - 1, j - 1);
    ResidualConsistent(c, |s| - i, |t| - j);
    ResidualRightOfZero(c, |s| - i + 1, |t| - j);
  }

  /** The recurrence keeps representations. */
  lemma CellStandsFor(c: Costs, s: string, t: string, max: int, i: nat, j: nat, up: int, left: int, corner: int)
    requires Meaningful(c, max) && 0 < i <= |s| && 0 < j <= |t|
    requires StandsFor(c, s, t, max, i, j - 1, up)
    requires StandsFor(c, s, t, max, i - 1, j, left)
    requires StandsFor(c, s, t, max, i - 1, j - 1, corner)
    ensures StandsFor(c, s, t, max, i, j,
                      Min(Min(up + c.ins, left + c.del), corner + Replacement(c, s[i - 1], t[j - 1])))
  {
    hide Cell;
    CellUnfolds(c, s, t, i, j);
    if max >= 0 {
      ResidualConsistent(c, |s| - i, |t| - j);
    }
  }

  /** A value passes the slide test exactly when its cell is alive. */
  lemma SlideTest(c: Costs, s: string, t: string, max: int, i: nat, j: nat, v: int)
    requires NonNegative(c) && max >= 0 && i <= |s| && j <= |t|
    requires StandsFor(c, s, t, max, i, j, v) || (v == max + 1 && Dead(c, s, t, max, i, j))
    ensures v + Residual(c, |s| - i, |t| - j) <= max <==> !Dead(c, s, t, max, i, j)
  {
    hide Cell;
    ResidualConsistent(c, |s| - i, |t| - j);
  }

  function ResidualCost(c: Costs, netInserts: int): int {
    if netInserts > 0 then netInserts * c.ins else -netInserts * c.del
  }

  lemma ResidualCostIsResidual(c: Costs, rs: int, rt: int)
    ensures ResidualCost(c, rt - rs) == Residual(c, rs, rt)
  {
    if rt > rs { TimesIsProduct(rt - rs, c.ins); } else { TimesIsProduct(rs - rt, c.del); }
  }

  // ---- The routine, part by part ----

  datatype Setup = Hopeless | Start(c: Costs, max: int, stop: int)

  /** Costs for which the bound is honoured; see LevenshteinCosts for the others. */
  ghost predicate Reliable(c: Costs) {
    NonNegative(c) || (c.ins <= 0 && c.del <= 0) || Capped(c).sub == 0
  }

  /** The bound is above the theoretical maximum, so the source forgets it. */
  ghost predicate BoundDropped(c: Costs, s: string, t: string, max: int) {
    max >= Residual(c, |s|, |t|) + Product(Capped(c).sub, Min(|s|, |t|))
  }

  /** The checks and the initial stop column. */
  method PrepareBand(s: string, t: string, c0: Costs, max0: int) returns (r: Setup)
    requires s != "" && t != ""
    ensures max0 < 0 ==> r == Start(c0, max0, |s| + 1)
    ensures max0 >= 0 ==> (r.Hopeless? <==> Residual(c0, |s|, |t|) > max0)
    ensures max0 >= 0 && r.Start? ==>
              r == if BoundDropped(c0, s, t, max0) then Start(Capped(c0), -1, |s| + 1)
                   else Start(Capped(c0), max0, InitialStop(c0, |s|, |t|, max0))
    ensures r.Hopeless? && Reliable(c0) ==> Distance(c0, s, t) > max0
    ensures r.Start? && Reliable(c0) && r.max != max0 ==> Distance(c0, s, t) <= max0
    ensures r.Start? && Reliable(c0) && r.max >= 0 ==> NonNegative(r.c)
    ensures r.Start? ==> 0 < r.stop <= |s| + 1
    ensures r.Start? && NonNegative(r.c) ==>
              && PastZeroPoint(s, t, r.max, 0, r.stop)
              && forall i: nat | r.stop <= i <= |s| :: Dead(r.c, s, t, r.max, i, 0)
  {
    hide *;
    if max0 < 0 {
      NothingBeyond(s, t, max0);
      return Start(c0, max0, |s| + 1);
    }
    var m, n := |s|, |t|;
    var minTheo := ResidualCost(c0, n - m);
    ResidualCostIsResidual(c0, m, n);
    if minTheo > max0 {
      if Reliable(c0) { HopelessIsBeyond(c0, s, t, max0); }
      return Hopeless;
    }
    var c := Capped(c0);
    DroppedMeans(c0, s, t, max0);
    if max0 >= minTheo + Product(c.sub, Min(m, n)) {
      if Reliable(c0) { DroppedIsWithin(c0, s, t, max0); }
      NothingBeyond(s, t, -1);
      return Start(c, -1, m + 1);
    }
    var stop := m + 1;
    CapKeeps(c0, m, n);
    InitialStopMeans(c0, m, n, max0);
    if c.ins + c.del > 0 {
      stop := FirstStop(c, m, n, max0 - minTheo);
      if stop > m { stop := m + 1; }
      FirstStopIsDead(c, s, t, max0, stop);
    } else {
      NothingBeyond(s, t, max0);
    }
    if Reliable(c0) { BoundKeptMeansNonNegative(c0, s, t, max0); }
    return Start(c, max0, stop);
  }

  function Product(a: int, b: int): int {
    a * b
  }

  /** The column after the last one the first row can afford. */
  function FirstStop(c: Costs, m: int, n: int, slack: int): int
    requires c.ins + c.del > 0
  {
    (if n < m then m - n else 0) + slack / (c.ins + c.del) + 1
  }

  ghost function InitialStop(c: Costs, m: int, n: int, max: int): int {
    if c.ins + c.del <= 0 then m + 1
    else
      var stop := FirstStop(c, m, n, max - Residual(c, m, n));
      if stop > m then m + 1 else stop
  }

  lemma InitialStopMeans(c: Costs, m: int, n: int, max: int)
    ensures c.ins + c.del <= 0 ==> InitialStop(c, m, n, max) == m + 1
    ensures c.ins + c.del > 0 ==>
              var stop := FirstStop(Capped(c), m, n, max - Residual(c, m, n));
              InitialStop(c, m, n, max) == if stop > m then m + 1 else stop
  {
  }

  lemma DroppedMeans(c: Costs, s: string, t: string, max: int)
    ensures BoundDropped(c, s, t, max) <==>
            max >= Residual(c, |s|, |t|) + Product(Capped(c).sub, Min(|s|, |t|))
  {
  }

  lemma CapKeeps(c: Costs, m: int, n: int)
    ensures Residual(Capped(c), m, n) == Residual(c, m, n)
    ensures Capped(c).ins == c.ins && Capped(c).del == c.del
    ensures NonNegative(c) ==> NonNegative(Capped(c))
  {
  }

  lemma NothingBeyond(s: string, t: string, max: int)
    ensures PastZeroPoint(s, t, max, 0, |s| + 1)
  {
  }

  lemma ResidualNonPositive(c: Costs, rs: int, rt: int)
    requires c.ins <= 0 && c.del <= 0
    ensures Residual(c, rs, rt) <= 0
  {
    if rt > rs { TimesNonPositive(rt - rs, c.ins); } else { TimesNonPositive(rs - rt, c.del); }
  }

  lemma ProductNonPositive(a: int, b: int)
    requires a <= 0 && b >= 0
    ensures Product(a, b) <= 0
  {
  }

  lemma HopelessIsBeyond(c: Costs, s: string, t: string, max: int)
    requires Reliable(c) && Residual(c, |s|, |t|) > max >= 0
    ensures Distance(c, s, t) > max
  {
    hide Cell, Residual;
    if c.ins <= 0 && c.del <= 0 { ResidualNonPositive(c, |s|, |t|); }
    TheoreticalMinimum(c, s, t);
  }

  /** A bound no script can exceed is dropped. */
  lemma DroppedIsWithin(c: Costs, s: string, t: string, max: int)
    requires Reliable(c) && max >= 0 && BoundDropped(c, s, t, max)
    ensures Distance(c, s, t) <= max
  {
    hide Cell, Product, Residual;
    if Capped(c).sub >= 0 {
      CapChangesNothing(c, s, t, |s|, |t|);
      CellUpperBound(Capped(c), s, t, |s|, |t|);
      TimesIsProduct(Min(|s|, |t|), Capped(c).sub);
      ProductIs(Capped(c).sub, Min(|s|, |t|));
      CapKeeps(c, |s|, |t|);
    } else {
      CellAtMostRewriteAll(c, s, t, |s|, |t|);
      TimesNonPositive(|s|, c.del);
      TimesNonPositive(|t|, c.ins);
    }
  }

  lemma ProductIs(a: int, b: int)
    ensures Product(a, b) == b * a
  {
  }

  lemma BoundKeptMeansNonNegative(c: Costs, s: string, t: string, max: int)
    requires Reliable(c) && max >= 0 && max >= Residual(c, |s|, |t|) && !BoundDropped(c, s, t, max)
    ensures NonNegative(Capped(c))
  {
    hide Product, Residual;
    CapKeeps(c, |s|, |t|);
    if Capped(c).sub <= 0 { ProductNonPositive(Capped(c).sub, Min(|s|, |t|)); }
    if c.ins <= 0 && c.del <= 0 { ResidualNonPositive(c, |s|, |t|); }
  }

  lemma FirstStopIsDead(c: Costs, s: string, t: string, max: int, stop: int)
    requires max >= Residual(c, |s|, |t|) && max >= 0 && c.ins + c.del > 0
    requires var computed := FirstStop(c, |s|, |t|, max - Residual(c, |s|, |t|));
             stop == if computed > |s| then |s| + 1 else computed
    ensures 0 < stop && PastZeroPoint(s, t, max, 0, stop)
    ensures forall i: nat | stop <= i <= |s| :: Dead(c, s, t, max, i, 0)
  {
    hide Cell, Dead, Residual;
    var slack := max - Residual(c, |s|, |t|);
    assert slack / (c.ins + c.del) >= 0;
    forall i: nat | stop <= i <= |s| ensures Dead(c, s, t, max, i, 0) {
      FirstRowDead(c, s, t, max, slack, i);
    }
  }

  lemma FirstRowDead(c: Costs, s: string, t: string, max: int, slack: int, i: nat)
    requires max >= 0 && slack == max - Residual(c, |s|, |t|) && slack >= 0
    requires c.ins + c.del > 0
    requires (if |t| < |s| then |s| - |t| else 0) + slack / (c.ins + c.del) + 1 <= i <= |s|
    ensures Dead(c, s, t, max, i, 0)
  {
    hide Cell;
    var best := if |t| < |s| then |s| - |t| else 0;
    FirstRow(c, s, t, i);
    TimesIsProduct(i - best, c.ins + c.del);
    QuotientExceeded(slack, c.ins + c.del, i - best);
  }

  lemma QuotientExceeded(a: int, b: int, k: int)
    requires a >= 0 && b > 0 && k >= a / b + 1
    ensures k * b > a
  {
    var q := a / b;
    assert a < q * b + b;
    Scales(q + 1, k, b);
    assert (q + 1) * b == q * b + b;
  }

  lemma Scales(j: int, k: int, b: int)
    requires j <= k && b > 0
    ensures j * b <= k * b
  {
  }

  // ---- What one row does, whatever the costs ----

  /** The two rows and the two columns between iterations. */
  datatype Rows = Rows(prev: seq<int>, curr: seq<int>, start: int, stop: int)

  ghost predicate Computed(c: Costs, s: string, t: string, j: nat, prev: seq<int>, curr: seq<int>, i: nat)
    requires 0 < j <= |t| && |prev| == |curr| == |s| + 1 && 0 < i <= |s|
  {
    curr[i] == Min(Min(prev[i] + c.ins, curr[i - 1] + c.del), prev[i - 1] + Replacement(c, s[i - 1], t[j - 1]))
  }

  /** Columns start..stop of curr follow from prev by the recurrence. */
  ghost predicate Filled(c: Costs, s: string, t: string, j: nat, start: int, stop: int,
                         prev: seq<int>, curr: seq<int>)
    requires 0 < j <= |t| && |prev| == |curr| == |s| + 1
  {
    && (start == 0 ==> curr[0] == Times(j, c.ins))
    && forall i: nat | 0 < i <= |s| && start <= i < stop :: Computed(c, s, t, j, prev, curr, i)
  }

  /** Widening, filling and swapping take the rows from one iteration to full. */
  ghost predicate Fills(c: Costs, s: string, t: string, max: int, j: nat, was: Rows, full: Rows)
    requires 0 < j <= |t| && |was.prev| == |s| + 1 && 0 <= was.start <= |s| && 0 < was.stop <= |s| + 1
  {
    && |full.prev| == |full.curr| == |was.curr| == |s| + 1 && full.start == was.start
    && full.stop == (if was.stop < |s| + 1 then was.stop + 1 else was.stop)
    && full.curr == (if was.stop < |s| + 1 then was.prev[was.stop := max + 1] else was.prev)
    && full.prev[..was.start] == was.curr[..was.start]
    && Filled(c, s, t, j, full.start, full.stop, full.curr, full.prev)
  }

  /** Value v in column i of row j passes the slide test. */
  ghost predicate Passes(c: Costs, s: string, t: string, max: int, j: nat, i: int, v: int) {
    v + Residual(c, |s| - i, |t| - j) <= max
  }

  ghost predicate Planted(max: int, from: int, to: int, was: seq<int>, now: seq<int>) {
    |was| == |now| && forall i | 0 <= i < |was| :: now[i] == if from <= i < to then max + 1 else was[i]
  }

  ghost predicate StopSlides(c: Costs, s: string, t: string, max: int, j: nat, row: seq<int>, stop0: int, stop: int)
    requires |row| == |s| + 1 && stop0 <= |s| + 1
  {
    && 0 <= stop <= stop0
    && (stop > 0 ==> Passes(c, s, t, max, j, stop - 1, row[stop - 1]))
    && forall i | stop <= i < stop0 :: !Passes(c, s, t, max, j, i, row[i])
  }

  ghost predicate StartSlides(c: Costs, s: string, t: string, max: int, j: nat, row: seq<int>, stop: int,
                              start0: int, start: int)
    requires |row| == |s| + 1 && 0 <= start0 && stop <= |s| + 1
  {
    && start0 <= start && (start <= stop || start == start0)
    && (start < stop ==> Passes(c, s, t, max, j, start, row[start]))
    && forall i | start0 <= i < start && i < stop :: !Passes(c, s, t, max, j, i, row[i])
  }

  /** Both slides. */
  ghost predicate Slides(c: Costs, s: string, t: string, max: int, j: nat, full: Rows, now: Rows) {
    && |full.prev| == |full.curr| == |s| + 1 && 0 <= full.start && full.stop <= |s| + 1
    && StopSlides(c, s, t, max, j, full.prev, full.stop, now.stop)
    && StartSlides(c, s, t, max, j, full.prev, now.stop, full.start, now.start)
    && Planted(max, full.start, now.start, full.prev, now.prev)
    && Planted(max, full.start, now.start, full.curr, now.curr)
  }

  /** Row j: the columns had not crossed before it. */
  ghost predicate RowStep(c: Costs, s: string, t: string, max: int, j: nat, was: Rows, now: Rows)
    requires 0 < j <= |t|
  {
    && |was.prev| == |s| + 1 && 0 <= was.start < was.stop <= |s| + 1
    && exists full :: Fills(c, s, t, max, j, was, full) && Slides(c, s, t, max, j, full, now)
  }

  ghost predicate StepsAt(c: Costs, s: string, t: string, max: int, run: seq<Rows>, j: nat)
    requires 0 < j < |run|
  {
    j <= |t| && RowStep(c, s, t, max, j, run[j - 1], run[j])
  }

  /** The row loop with a bound, from its first row. */
  ghost predicate IsRun(c: Costs, s: string, t: string, max: int, stop: int, run: seq<Rows>) {
    && run != [] && |run[0].prev| == |run[0].curr| == |s| + 1
    && run[0].start == 0 && run[0].stop == stop
    && (forall i: nat | i < stop && i <= |s| :: run[0].prev[i] == Times(i, c.del))
    && forall j | 0 < j < |run| :: StepsAt(c, s, t, max, run, j)
  }

  /** What the loop returns: it ends when the columns cross or all rows are done. */
  ghost predicate Returns(s: string, t: string, max: int, run: seq<Rows>, d: int)
    requires run != []
  {
    var last := run[|run| - 1];
    if last.start >= last.stop then d == max + 1
    else |run| == |t| + 1 && |last.prev| == |s| + 1 && d == last.prev[|s|]
  }

  /** The answers the routine can give with a bound, whatever the costs. */
  ghost predicate Answers(c: Costs, s: string, t: string, max: int, d: int) {
    if Residual(c, |s|, |t|) > max then d == max + 1
    else if BoundDropped(c, s, t, max) then d == Distance(c, s, t)
    else
      exists run :: && IsRun(Capped(c), s, t, max, InitialStop(c, |s|, |t|, max), run)
                    && Returns(s, t, max, run, d)
  }

  /** What the inner loop finds: row j - 1 on start..stop, whose last column may
      be the sentinel planted for the widened band. */
  ghost predicate Readable(c: Costs, s: string, t: string, max: int, j: nat, start: int, stop: int,
                           prev: seq<int>, curr: seq<int>)
    requires 0 < j <= |t| && |prev| == |curr| == |s| + 1
  {
    && start <= |s| + 1
    && Band(c, s, t, max, j - 1, start, stop, prev)
    && Sentinels(max, start, prev) && Sentinels(max, start, curr)
    && (start > 0 ==> Dead(c, s, t, max, start - 1, j))
  }

  lemma ReadableCell(c: Costs, s: string, t: string, max: int, i: nat, j: nat, start: int, stop: int,
                     prev: seq<int>, curr: seq<int>)
    requires 0 < j <= |t| && |prev| == |curr| == |s| + 1 && 0 < i <= |s|
    requires Meaningful(c, max) && Readable(c, s, t, max, j, start, stop, prev, curr) && start <= i < stop
    requires i > start ==> StandsFor(c, s, t, max, i - 1, j, curr[i - 1])
    ensures StandsFor(c, s, t, max, i, j,
                      Min(Min(prev[i] + c.ins, curr[i - 1] + c.del),
                          prev[i - 1] + Replacement(c, s[i - 1], t[j - 1])))
  {
    hide Cell;
    CellStandsFor(c, s, t, max, i, j, prev[i], curr[i - 1], prev[i - 1]);
  }

  /** The inner loop over columns start..stop; sData is the advanced start of s. */
  method FillBand(prev: array<int>, curr: array<int>, s: string, t: string, c: Costs, max: int,
                  j: nat, start: int, stop: int, sData: nat)
    requires prev != curr && prev.Length == curr.Length == |s| + 1
    requires 0 < j <= |t| && 0 <= start <= stop <= |s| + 1 && 0 < stop
    requires sData == if start == 0 then 0 else start - 1
    requires Meaningful(c, max) ==> Readable(c, s, t, max, j, start, stop, prev[..], curr[..])
    modifies curr
    ensures curr[..start] == old(curr[..start])
    ensures Filled(c, s, t, j, start, stop, prev[..], curr[..])
    ensures Meaningful(c, max) ==>
              forall i: nat | start <= i < stop :: StandsFor(c, s, t, max, i, j, curr[i])
  {
    hide Cell;
    var i := start;
    if start == 0 {
      curr[0] := j * c.ins;
      TimesIsProduct(j, c.ins);
      CellUnfolds(c, s, t, 0, j);
      i := 1;
    }
    var x := sData;
    while i < stop
      invariant start <= i <= stop && 0 < i && x == i - 1
      invariant curr[..start] == old(curr[..start])
      invariant Filled(c, s, t, j, start, i, prev[..], curr[..])
      invariant Meaningful(c, max) ==>
                  forall k: nat | start <= k < i :: StandsFor(c, s, t, max, k, j, curr[k])
    {
      var ins := prev[i] + c.ins;
      var del := curr[i - 1] + c.del;
      var sub := prev[i - 1] + (if s[x] == t[j - 1] then 0 else c.sub);
      ghost var before := curr[..];
      if Meaningful(c, max) {
        assert Sentinels(max, start, before) by {
          assert forall k: nat | k < start :: before[k] == before[..start][k] == old(curr[..])[k];
        }
        ReadableCell(c, s, t, max, i, j, start, stop, prev[..], before);
      }
      curr[i] := Min(Min(ins, del), sub);
      FilledNext(c, s, t, j, start, i, prev[..], before, curr[..]);
      i, x := i + 1, x + 1;
    }
  }

  lemma FilledNext(c: Costs, s: string, t: string, j: nat, start: int, i: nat,
                   prev: seq<int>, was: seq<int>, now: seq<int>)
    requires 0 < j <= |t| && |prev| == |was| == |now| == |s| + 1 && start <= i && 0 < i <= |s|
    requires Filled(c, s, t, j, start, i, prev, was)
    requires now == was[i := Min(Min(prev[i] + c.ins, was[i - 1] + c.del), prev[i - 1] + Replacement(c, s[i - 1], t[j - 1]))]
    ensures Filled(c, s, t, j, start, i + 1, prev, now)
  {
    forall k: nat | 0 < k <= |s| && start <= k < i + 1 ensures Computed(c, s, t, j, prev, now, k) {
      if k < i { assert Computed(c, s, t, j, prev, was, k); }
    }
  }

  /** Slides the stop column left over cells that exceed the bound. */
  method SlideStop(prev: array<int>, s: string, t: string, c: Costs, max: int, j: nat, start: int, stop0: int)
    returns (stop: int)
    requires prev.Length == |s| + 1 && 0 < j <= |t| && max >= 0
    requires 0 <= start <= stop0 <= |s| + 1
    requires NonNegative(c) ==> Band(c, s, t, max, j, start, stop0, prev[..]) && Sentinels(max, start, prev[..])
    ensures 0 <= stop <= stop0 && StopSlides(c, s, t, max, j, prev[..], stop0, stop)
    ensures NonNegative(c) ==> forall i: nat | stop <= i <= |s| :: Dead(c, s, t, max, i, j)
    ensures NonNegative(c) && stop > 0 ==> stop > start && !Dead(c, s, t, max, stop - 1, j)
  {
    hide Cell;
    var zp := j - (|t| - |s|);
    stop := stop0;
    while stop > 0
      invariant 0 <= stop <= stop0
      invariant forall i | stop <= i < stop0 :: !Passes(c, s, t, max, j, i, prev[..][i])
      invariant NonNegative(c) ==> forall i: nat | stop <= i <= |s| :: Dead(c, s, t, max, i, j)
    {
      var ii := stop - 1;
      ResidualCostIsResidual(c, |s| - ii, |t| - j);
      if NonNegative(c) {
        assert prev[ii] == prev[..][ii];
        SlideTest(c, s, t, max, ii, j, prev[ii]);
      }
      if prev[ii] + ResidualCost(c, ii - zp) <= max { break; }
      stop := stop - 1;
    }
  }

  /** Slides the start column right, leaving sentinels behind in both rows and
      advancing the source pointer. */
  method SlideStart(prev: array<int>, curr: array<int>, s: string, t: string, c: Costs, max: int, j: nat,
                    start0: int, stop: int, sData0: nat)
    returns (start: int, sData: nat)
    requires prev != curr && prev.Length == curr.Length == |s| + 1 && 0 < j <= |t| && max >= 0
    requires 0 <= start0 && 0 <= stop <= |s| + 1
    requires sData0 == if start0 == 0 then 0 else start0 - 1
    requires NonNegative(c) ==> Band(c, s, t, max, j, start0, stop, prev[..])
    requires NonNegative(c) ==> Sentinels(max, start0, prev[..]) && Sentinels(max, start0, curr[..])
    modifies prev, curr
    ensures start0 <= start && (start <= stop || start == start0)
    ensures StartSlides(c, s, t, max, j, old(prev[..]), stop, start0, start)
    ensures Planted(max, start0, start, old(prev[..]), prev[..])
    ensures Planted(max, start0, start, old(curr[..]), curr[..])
    ensures sData == if start == 0 then 0 else start - 1
    ensures NonNegative(c) ==> Band(c, s, t, max, j, start, stop, prev[..])
    ensures NonNegative(c) ==> Sentinels(max, start, prev[..]) && Sentinels(max, start, curr[..])
    ensures NonNegative(c) && start < stop ==> !Dead(c, s, t, max, start, j)
  {
    hide Cell;
    var zp := j - (|t| - |s|);
    start, sData := start0, sData0;
    while start < stop
      invariant start0 <= start && (start <= stop || start == start0)
      invariant forall i | start0 <= i < start && i < stop :: !Passes(c, s, t, max, j, i, old(prev[..])[i])
      invariant Planted(max, start0, start, old(prev[..]), prev[..])
      invariant Planted(max, start0, start, old(curr[..]), curr[..])
      invariant sData == if start == 0 then 0 else start - 1
      invariant NonNegative(c) ==> Band(c, s, t, max, j, start, stop, prev[..])
      invariant NonNegative(c) ==> Sentinels(max, start, prev[..]) && Sentinels(max, start, curr[..])
    {
      ResidualCostIsResidual(c, |s| - start, |t| - j);
      if NonNegative(c) {
        assert StandsFor(c, s, t, max, start, j, prev[..][start]);
        SlideTest(c, s, t, max, start, j, prev[start]);
      }
      if prev[start] + ResidualCost(c, start - zp) <= max { break; }
      ghost var p, q := prev[..], curr[..];
      prev[start] := max + 1;
      curr[start] := max + 1;
      assert prev[..] == p[start := max + 1] && curr[..] == q[start := max + 1];
      if start != 0 { sData := sData + 1; }
      start := start + 1;
    }
  }

  /** The whole routine. Empty strings are answered before the bound is looked at. */
  method LevenshteinBounded(s: string, t: string, c0: Costs, max0: int) returns (r: Outcome)
    ensures r.TooLong? <==> Rejected(s, t)
    ensures r.Dist? && (s == "" || t == "" || max0 < 0) ==> r.d == Distance(c0, s, t)
    ensures r.Dist? && s != "" && t != "" && max0 >= 0 ==>
              && Answers(c0, s, t, max0, r.d)
              && (Reliable(c0) ==> r.d == Min(Distance(c0, s, t), max0 + 1))
  {
    hide Cell, IsRun, Returns, BoundDropped, InitialStop, Reliable;
    var m, n := |s|, |t|;
    CellUnfolds(c0, s, t, m, n);
    TimesIsProduct(n, c0.ins);
    TimesIsProduct(m, c0.del);
    if m == 0 { return Dist(n * c0.ins); }
    if n == 0 { return Dist(m * c0.del); }
    if m > MAX_LEVENSHTEIN_STRLEN || n > MAX_LEVENSHTEIN_STRLEN { return TooLong; }
    var setup := PrepareBand(s, t, c0, max0);
    if setup.Hopeless? { return Dist(max0 + 1); }
    CapChangesNothing(c0, s, t, m, n);
    var d := RunBand(s, t, setup.c, setup.max, setup.stop);
    return Dist(d);
  }

  lemma EmptyBand(c: Costs, s: string, t: string, max: int, j: nat, start: int, stop: int, row: seq<int>)
    requires NonNegative(c) && j <= |t| && |row| == |s| + 1
    requires Band(c, s, t, max, j, start, stop, row) && start >= stop
    ensures Distance(c, s, t) > max
  {
    hide Cell;
    forall i: nat | i <= |s| ensures Through(c, s, t, i, j) > max {
      assert Dead(c, s, t, max, i, j);
    }
    DeadRow(c, s, t, j, max);
  }

  /** Widens the band by one column and computes row j into curr. */
  method NextRow(prev: array<int>, curr: array<int>, s: string, t: string, c: Costs, max: int,
                 j: nat, start: int, stop0: int, sData: nat) returns (stop: int)
    requires prev != curr && prev.Length == curr.Length == |s| + 1 && 0 < j <= |t|
    requires 0 <= start < stop0 <= |s| + 1
    requires sData == if start == 0 then 0 else start - 1
    requires Meaningful(c, max) ==> Band(c, s, t, max, j - 1, start, stop0, prev[..])
    requires Meaningful(c, max) ==> Sentinels(max, start, prev[..]) && Sentinels(max, start, curr[..])
    requires Meaningful(c, max) ==> PastZeroPoint(s, t, max, j - 1, stop0)
    modifies prev, curr
    ensures stop == if stop0 < |s| + 1 then stop0 + 1 else stop0
    ensures Fills(c, s, t, max, j, Rows(old(prev[..]), old(curr[..]), start, stop0), Rows(curr[..], prev[..], start, stop))
    ensures Meaningful(c, max) ==> Band(c, s, t, max, j, start, stop, curr[..])
    ensures Meaningful(c, max) ==> Sentinels(max, start, prev[..]) && Sentinels(max, start, curr[..])
  {
    hide Cell;
    stop := stop0;
    ghost var before := prev[..];
    if stop < |s| + 1 {
      prev[stop] := max + 1;
      stop := stop + 1;
      assert prev[..] == before[stop0 := max + 1];
    }
    if Meaningful(c, max) {
      WidenBand(c, s, t, max, j, start, stop0, stop, before, prev[..], curr[..]);
    }
    FillBand(prev, curr, s, t, c, max, j, start, stop, sData);
    if Meaningful(c, max) {
      assert Sentinels(max, start, curr[..]) by {
        assert forall i: nat | i < start :: curr[..][i] == curr[..start][i];
      }
      assert forall i: nat | start <= i < stop :: curr[..][i] == curr[i];
    }
  }

  /** Both slides, and whether the columns crossed. */
  method SlideColumns(prev: array<int>, curr: array<int>, s: string, t: string, c: Costs, max: int, j: nat,
                      start0: int, stop0: int, sData0: nat)
    returns (start: int, stop: int, sData: nat)
    requires prev != curr && prev.Length == curr.Length == |s| + 1 && 0 < j <= |t| && max >= 0
    requires 0 <= start0 <= stop0 <= |s| + 1
    requires sData0 == if start0 == 0 then 0 else start0 - 1
    requires NonNegative(c) ==> Band(c, s, t, max, j, start0, stop0, prev[..])
    requires NonNegative(c) ==> Sentinels(max, start0, prev[..]) && Sentinels(max, start0, curr[..])
    modifies prev, curr
    ensures 0 <= start && 0 <= stop <= stop0 && sData == if start == 0 then 0 else start - 1
    ensures Slides(c, s, t, max, j, Rows(old(prev[..]), old(curr[..]), start0, stop0),
                   Rows(prev[..], curr[..], start, stop))
    ensures NonNegative(c) ==> Sentinels(max, start, prev[..]) && Sentinels(max, start, curr[..])
    ensures NonNegative(c) && start >= stop ==> Distance(c, s, t) > max
    ensures NonNegative(c) && start < stop ==>
              && Band(c, s, t, max, j, start, stop, prev[..]) && PastZeroPoint(s, t, max, j, stop)
              && !Dead(c, s, t, max, start, j)
  {
    hide Cell, StopSlides, StartSlides, Planted, Slides;
    ghost var full := Rows(prev[..], curr[..], start0, stop0);
    stop := SlideStop(prev, s, t, c, max, j, start0, stop0);
    start, sData := SlideStart(prev, curr, s, t, c, max, j, start0, stop, sData0);
    BothSlide(c, s, t, max, j, full, Rows(prev[..], curr[..], start, stop));
    if NonNegative(c) {
      if start >= stop {
        EmptyBand(c, s, t, max, j, start, stop, prev[..]);
      } else {
        LiveStopIsPastZero(c, s, t, max, j, stop);
      }
    }
  }

  /** The row loop. */
  method RunBand(s: string, t: string, c: Costs, max: int, stop0: int) returns (d: int)
    requires s != "" && t != "" && 0 < stop0 <= |s| + 1
    requires max < 0 ==> stop0 == |s| + 1
    requires NonNegative(c) ==> PastZeroPoint(s, t, max, 0, stop0)
    requires NonNegative(c) ==> forall i: nat | stop0 <= i <= |s| :: Dead(c, s, t, max, i, 0)
    ensures max < 0 ==> d == Distance(c, s, t)
    ensures max >= 0 && NonNegative(c) ==> d == Min(Distance(c, s, t), max + 1)
    ensures max >= 0 ==> exists run :: IsRun(c, s, t, max, stop0, run) && Returns(s, t, max, run, d)
  {
    hide Distance, Fills, Slides, IsRun, Returns, Band, Dead, Sentinels, PastZeroPoint, Meaningful;
    var start, stop, sData := 0, stop0, 0;
    var m, n := |s| + 1, |t| + 1;
    var prev, curr := FirstBandRow(s, t, c, max, stop);
    ghost var run := [Rows(prev[..], curr[..], start, stop)];
    RunBegins(c, s, t, max, run[0]);
    MeaningfulMeans(c, max);
    if max < 0 { NothingBeyondRow(s, t, max, 0, stop); }
    for j := 1 to n
      invariant prev != curr && prev.Length == curr.Length == m && fresh(prev) && fresh(curr)
      invariant max >= 0 ==> IsRun(c, s, t, max, stop0, run) && |run| == j
      invariant max >= 0 ==> run[j - 1] == Rows(prev[..], curr[..], start, stop)
      invariant 0 <= start < stop <= m && (max < 0 ==> start == 0 && stop == m)
      invariant sData == if start == 0 then 0 else start - 1
      invariant Meaningful(c, max) ==> Band(c, s, t, max, j - 1, start, stop, prev[..])
      invariant Meaningful(c, max) ==> Sentinels(max, start, prev[..]) && Sentinels(max, start, curr[..])
      invariant Meaningful(c, max) ==> PastZeroPoint(s, t, max, j - 1, stop)
      invariant Meaningful(c, max) && max >= 0 && j > 1 ==> !Dead(c, s, t, max, start, j - 1)
    {
      MeaningfulMeans(c, max);
      stop := NextRow(prev, curr, s, t, c, max, j, start, stop, sData);
      prev, curr := curr, prev;
      ghost var full := Rows(prev[..], curr[..], start, stop);
      if max >= 0 {
        start, stop, sData := SlideColumns(prev, curr, s, t, c, max, j, start, stop, sData);
        run := RunExtends(c, s, t, max, stop0, run, full, Rows(prev[..], curr[..], start, stop));
        if start >= stop {
          RunReturns(s, t, max, run, max + 1);
          return max + 1;
        }
      } else {
        NothingBeyondRow(s, t, max, j, stop);
      }
    }
    d := prev[m - 1];
    MeaningfulMeans(c, max);
    if Meaningful(c, max) { LastCell(c, s, t, max, start, stop, prev[..]); }
    if max >= 0 { RunReturns(s, t, max, run, d); }
  }

  /** Both rows, the first filled up to the stop column. */
  method FirstBandRow(s: string, t: string, c: Costs, max: int, stop: int) returns (prev: array<int>, curr: array<int>)
    requires 0 < stop <= |s| + 1 && (max < 0 ==> stop == |s| + 1)
    requires NonNegative(c) ==> forall i: nat | stop <= i <= |s| :: Dead(c, s, t, max, i, 0)
    ensures fresh(prev) && fresh(curr) && prev != curr && prev.Length == curr.Length == |s| + 1
    ensures forall i: nat | i < stop && i <= |s| :: prev[..][i] == Times(i, c.del)
    ensures Meaningful(c, max) ==> Band(c, s, t, max, 0, 0, stop, prev[..])
    ensures Sentinels(max, 0, prev[..]) && Sentinels(max, 0, curr[..])
  {
    hide Cell;
    prev, curr := new int[|s| + 1], new int[|s| + 1];
    for i := 0 to stop
      invariant forall k: nat | k < i :: StandsFor(c, s, t, max, k, 0, prev[k])
      invariant forall k: nat | k < i :: prev[..][k] == Times(k, c.del)
    {
      prev[i] := i * c.del;
      CellUnfolds(c, s, t, i, 0);
      TimesIsProduct(i, c.del);
    }
  }

  lemma MeaningfulMeans(c: Costs, max: int)
    ensures Meaningful(c, max) <==> NonNegative(c) || max < 0
  {
  }

  lemma NothingBeyondRow(s: string, t: string, max: int, j: nat, stop: int)
    requires max < 0
    ensures PastZeroPoint(s, t, max, j, stop)
  {
  }

  lemma RunReturns(s: string, t: string, max: int, run: seq<Rows>, d: int)
    requires run != [] && |run[|run| - 1].prev| == |s| + 1
    requires var last := run[|run| - 1];
             if last.start >= last.stop then d == max + 1 else |run| == |t| + 1 && d == last.prev[|s|]
    ensures Returns(s, t, max, run, d)
  {
  }

  /** The last column of the last row is alive, so its value is the distance. */
  lemma LastCell(c: Costs, s: string, t: string, max: int, start: int, stop: int, row: seq<int>)
    requires Meaningful(c, max) && |row| == |s| + 1 && 0 <= start < stop <= |s| + 1
    requires Band(c, s, t, max, |t|, start, stop, row) && (max >= 0 ==> !Dead(c, s, t, max, start, |t|))
    ensures row[|s|] == Distance(c, s, t) && (max >= 0 ==> row[|s|] <= max)
  {
    hide Cell;
    if max >= 0 { LastRowReaches(c, s, t, start); }
    assert Residual(c, 0, 0) == 0;
    assert !Dead(c, s, t, max, |s|, |t|);
  }

  lemma RunBegins(c: Costs, s: string, t: string, max: int, first: Rows)
    requires |first.prev| == |first.curr| == |s| + 1 && first.start == 0
    requires forall i: nat | i < first.stop && i <= |s| :: first.prev[i] == Times(i, c.del)
    ensures IsRun(c, s, t, max, first.stop, [first])
  {
  }

  lemma RunExtends(c: Costs, s: string, t: string, max: int, stop: int, run: seq<Rows>, full: Rows, now: Rows)
    returns (longer: seq<Rows>)
    requires IsRun(c, s, t, max, stop, run) && 0 < |run| <= |t|
    requires var was := run[|run| - 1];
             && |was.prev| == |s| + 1 && 0 <= was.start < was.stop <= |s| + 1
             && Fills(c, s, t, max, |run|, was, full) && Slides(c, s, t, max, |run|, full, now)
    ensures longer == run + [now] && IsRun(c, s, t, max, stop, longer)
  {
    hide Fills, Slides;
    longer := run + [now];
    forall j | 0 < j < |longer| ensures StepsAt(c, s, t, max, longer, j) {
      assert longer[j - 1] == run[j - 1];
      if j < |run| { assert StepsAt(c, s, t, max, run, j); }
    }
  }

  lemma BothSlide(c: Costs, s: string, t: string, max: int, j: nat, full: Rows, now: Rows)
    requires |full.prev| == |full.curr| == |s| + 1 && 0 <= full.start && full.stop <= |s| + 1
    requires StopSlides(c, s, t, max, j, full.prev, full.stop, now.stop)
    requires now.stop <= |s| + 1 && StartSlides(c, s, t, max, j, full.prev, now.stop, full.start, now.start)
    requires Planted(max, full.start, now.start, full.prev, now.prev)
    requires Planted(max, full.start, now.start, full.curr, now.curr)
    ensures Slides(c, s, t, max, j, full, now)
  {
  }

  lemma WidenBand(c: Costs, s: string, t: string, max: int, j: nat, start: int, narrow: int, stop: int,
                  before: seq<int>, prev: seq<int>, curr: seq<int>)
    requires Meaningful(c, max) && 0 < j <= |t| && |before| == |prev| == |curr| == |s| + 1
    requires 0 <= start < narrow <= stop <= |s| + 1
    requires Band(c, s, t, max, j - 1, start, narrow, before) && PastZeroPoint(s, t, max, j - 1, narrow)
    requires Sentinels(max, start, before) && Sentinels(max, start, curr)
    requires if narrow == |s| + 1 then stop == narrow && prev == before
             else stop == narrow + 1 && prev == before[narrow := max + 1]
    ensures Readable(c, s, t, max, j, start, stop, prev, curr)
    ensures forall i: nat | i < start || stop <= i <= |s| :: Dead(c, s, t, max, i, j)
  {
    hide Cell;
    assert forall i: nat | start <= i < narrow :: prev[i] == before[i];
    forall i: nat | i < start ensures Dead(c, s, t, max, i, j) {
      assert Dead(c, s, t, max, i, j - 1);
      DeadOnLeft(c, s, t, max, i, j - 1);
    }
    forall i: nat | stop <= i <= |s| ensures Dead(c, s, t, max, i, j) {
      assert Dead(c, s, t, max, i, j - 1) && Dead(c, s, t, max, i - 1, j - 1);
      DeadOnRight(c, s, t, max, i, j);
    }
  }

  /** Left of the zero point a live column always has a live right neighbour. */
  lemma LiveStopIsPastZero(c: Costs, s: string, t: string, max: int, j: nat, stop: int)
    requires NonNegative(c) && max >= 0 && j <= |t| && 0 < stop <= |s| + 1
    requires !Dead(c, s, t, max, stop - 1, j)
    requires forall i: nat | stop <= i <= |s| :: Dead(c, s, t, max, i, j)
    ensures PastZeroPoint(s, t, max, j, stop)
  {
    hide Cell;
    if stop <= |s| && stop - 1 < j - (|t| - |s|) {
      assert Dead(c, s, t, max, stop, j);
      CellSteps(c, s, t, stop - 1, j);
    }
  }
}
