/** Which costs the banded routine can be used with. Nothing in the source forbids a
    negative cost; these inputs show where the bound is then missed. */
module LevenshteinCosts {
  import opened EditDistance
  import opened LevenshteinLessEqual

  /** For every other choice of costs there are strings and a bound for which the
      routine's answer is not min(distance, bound + 1). */
  lemma UnreliableCosts(c: Costs) returns (s: string, t: string, max: int)
    requires !Reliable(c)
    ensures 0 < |s| <= 2 && 0 < |t| <= 2 && max >= 0
    ensures forall d | Answers(c, s, t, max, d) :: d != Min(Distance(c, s, t), max + 1)
  {
    hide *;
    SignsOf(c);
    if Capped(c).sub < 0 && c.ins > 0 {
      s, t, max := "b", "ac", c.ins - 1;
      HopelessTooSoonInserting(c, max);
    } else if Capped(c).sub < 0 {
      s, t, max := "bc", "a", c.del - 1;
      HopelessTooSoonDeleting(c, max);
    } else if c.ins < 0 {
      s, t, max := "a", "b", 0;
      SentinelInserted(c);
    } else {
      s, t, max := "aa", "aa", 0;
      SentinelDeleted(c);
    }
  }

  lemma SignsOf(c: Costs)
    requires !Reliable(c)
    ensures Capped(c).sub < 0 ==> c.ins > 0 || c.del > 0
    ensures Capped(c).sub >= 0 ==> c.sub > 0 && c.ins + c.del > 0 && (c.ins < 0 || c.del < 0)
  {
  }

  /** The difference in length alone exceeds the bound, but a gainful substitution
      makes up for it. */
  lemma HopelessTooSoonInserting(c: Costs, max: int)
    requires Capped(c).sub < 0 && c.ins > 0 && max == c.ins - 1
    ensures forall d | Answers(c, "b", "ac", max, d) :: d != Min(Distance(c, "b", "ac"), max + 1)
  {
    var k := Capped(c);
    CapChangesNothing(c, "b", "ac", 1, 2);
    CellSteps(k, "b", "ac", 0, 1);
    CellUnfolds(k, "b", "ac", 0, 1);
    assert Times(1, c.ins) == Times(0, c.ins) + c.ins;
    assert Residual(c, 1, 2) == c.ins;
  }

  lemma HopelessTooSoonDeleting(c: Costs, max: int)
    requires Capped(c).sub < 0 && c.del > 0 && max == c.del - 1
    ensures forall d | Answers(c, "bc", "a", max, d) :: d != Min(Distance(c, "bc", "a"), max + 1)
  {
    var k := Capped(c);
    CapChangesNothing(c, "bc", "a", 2, 1);
    CellSteps(k, "bc", "a", 1, 0);
    CellUnfolds(k, "bc", "a", 1, 0);
    assert Times(1, c.del) == Times(0, c.del) + c.del;
    assert Residual(c, 2, 1) == c.del;
  }

  // ---- A gainful insertion or deletion from a sentinel ----

  lemma SmallResiduals(c: Costs)
    ensures Residual(c, 0, 0) == Residual(c, 1, 1) == Residual(c, 2, 2) == 0
    ensures Residual(c, 1, 0) == Residual(c, 2, 1) == c.del
    ensures Times(0, c.del) == 0 && Times(1, c.ins) == c.ins
  {
    assert Times(1, c.del) == Times(0, c.del) + c.del;
    assert Times(1, c.ins) == Times(0, c.ins) + c.ins;
  }

  /** With equally long strings and bound zero the band begins with one column. */
  lemma OneColumn(c: Costs, s: string, t: string)
    requires c.ins + c.del > 0 && c.sub > 0 && |s| == |t| > 0
    ensures Residual(c, |s|, |t|) == 0 && !BoundDropped(c, s, t, 0) && InitialStop(c, |s|, |t|, 0) == 1
  {
    assert Product(Capped(c).sub, |s|) >= Capped(c).sub * 1;
  }

  /** Where the stop column comes to rest, and the start column. */
  lemma SlidesTo(c: Costs, s: string, t: string, max: int, j: nat, full: Rows, now: Rows)
    requires Slides(c, s, t, max, j, full, now) && full.start < full.stop
    requires Passes(c, s, t, max, j, full.stop - 1, full.prev[full.stop - 1])
    ensures now.stop == full.stop
    ensures Passes(c, s, t, max, j, full.start, full.prev[full.start]) ==> now.start == full.start
    ensures !Passes(c, s, t, max, j, full.start, full.prev[full.start]) && full.stop == full.start + 2 ==>
              now.start == full.start + 1
  {
    hide Passes;
  }

  lemma AnswerHasRun(c: Costs, s: string, t: string, d: int) returns (run: seq<Rows>)
    requires c.ins + c.del > 0 && c.sub > 0 && |s| == |t| > 0 && Answers(c, s, t, 0, d)
    ensures IsRun(Capped(c), s, t, 0, 1, run) && Returns(s, t, 0, run, d)
    ensures |run| > 1
  {
    hide BoundDropped, InitialStop, StepsAt;
    OneColumn(c, s, t);
    run :| IsRun(Capped(c), s, t, 0, 1, run) && Returns(s, t, 0, run, d);
  }

  lemma RowOf(c: Costs, s: string, t: string, run: seq<Rows>, j: nat) returns (full: Rows)
    requires IsRun(c, s, t, 0, 1, run) && 0 < j < |run|
    ensures j <= |t| && |run[j - 1].prev| == |s| + 1 && 0 <= run[j - 1].start < run[j - 1].stop <= |s| + 1
    ensures Fills(c, s, t, 0, j, run[j - 1], full) && Slides(c, s, t, 0, j, full, run[j])
  {
    hide Fills, Slides;
    assert StepsAt(c, s, t, 0, run, j);
    full :| Fills(c, s, t, 0, j, run[j - 1], full) && Slides(c, s, t, 0, j, full, run[j]);
  }

  lemma RunBounds(c: Costs, s: string, t: string, run: seq<Rows>)
    requires IsRun(c, s, t, 0, 1, run)
    ensures |run| <= |t| + 1
    ensures run[0].start == 0 && run[0].stop == 1 && |run[0].prev| == |run[0].curr| == |s| + 1
    ensures run[0].prev[0] == 0
  {
    hide RowStep;
    assert |run| > 1 ==> StepsAt(c, s, t, 0, run, |run| - 1);
  }

  /** The cell right of the first column starts from the sentinel and gains by
      inserting. */
  lemma SentinelInserted(c: Costs)
    requires c.sub > 0 && c.ins + c.del > 0 && c.ins < 0
    ensures forall d | Answers(c, "a", "b", 0, d) :: d != Min(Distance(c, "a", "b"), 1)
  {
    hide Answers, IsRun, Returns, Distance;
    DistanceOfOne(c);
    forall d | Answers(c, "a", "b", 0, d) ensures d <= 0 {
      var run := AnswerHasRun(c, "a", "b", d);
      InsertedRun(Capped(c), run, d);
    }
  }

  lemma DistanceOfOne(c: Costs)
    requires c.sub > 0 && c.ins + c.del > 0
    ensures Distance(c, "a", "b") > 0
  {
    hide Cell;
    CellUnfolds(c, "a", "b", 1, 1);
    CellUnfolds(c, "a", "b", 0, 1);
    CellUnfolds(c, "a", "b", 1, 0);
    CellUnfolds(c, "a", "b", 0, 0);
    assert Times(1, c.del) == Times(0, c.del) + c.del;
    assert Times(1, c.ins) == Times(0, c.ins) + c.ins;
  }

  lemma InsertedRun(c: Costs, run: seq<Rows>, d: int)
    requires c.sub > 0 && c.ins + c.del > 0 && c.ins < 0
    requires IsRun(c, "a", "b", 0, 1, run) && Returns("a", "b", 0, run, d) && |run| > 1
    ensures d <= 0
  {
    hide IsRun, Slides, Residual;
    SmallResiduals(c);
    RunBounds(c, "a", "b", run);
    var full := RowOf(c, "a", "b", run, 1);
    assert Computed(c, "a", "b", 1, full.curr, full.prev, 1);
    assert full.curr[0] == 0 && full.curr[1] == 1 && full.prev[0] == c.ins;
    SlidesTo(c, "a", "b", 0, 1, full, run[1]);
    NotPlanted(c, "a", "b", 1, full, run[1], 1);
  }

  lemma NotPlanted(c: Costs, s: string, t: string, j: nat, full: Rows, now: Rows, i: nat)
    requires Slides(c, s, t, 0, j, full, now) && i <= |s|
    ensures |now.prev| == |now.curr| == |s| + 1
    ensures now.prev[i] == if full.start <= i < now.start then 1 else full.prev[i]
    ensures now.curr[i] == if full.start <= i < now.start then 1 else full.curr[i]
  {
  }

  /** Once the start column has moved, the next row deletes from the sentinel left of
      it. */
  lemma SentinelDeleted(c: Costs)
    requires c.sub > 0 && c.ins + c.del > 0 && c.del < 0
    ensures forall d | Answers(c, "aa", "aa", 0, d) :: d != Min(Distance(c, "aa", "aa"), 1)
  {
    hide Answers, IsRun, Returns, Distance, Residual;
    SmallResiduals(c);
    TheoreticalMinimum(c, "aa", "aa");
    forall d | Answers(c, "aa", "aa", 0, d) ensures d < 0 {
      var run := AnswerHasRun(c, "aa", "aa", d);
      DeletedRun(Capped(c), run, d);
    }
  }

  lemma DeletedRun(c: Costs, run: seq<Rows>, d: int)
    requires c.sub > 0 && c.ins + c.del > 0 && c.del < 0
    requires IsRun(c, "aa", "aa", 0, 1, run) && Returns("aa", "aa", 0, run, d) && |run| > 1
    ensures d < 0
  {
    hide IsRun, Fills, Slides, Residual;
    RunBounds(c, "aa", "aa", run);
    FirstRowMatches(c, run);
    var full := RowOf(c, "aa", "aa", run, 2);
    SecondRowGains(c, run[1], full, run[2]);
  }

  lemma FirstRowMatches(c: Costs, run: seq<Rows>)
    requires c.sub > 0 && c.ins + c.del > 0 && c.del < 0
    requires IsRun(c, "aa", "aa", 0, 1, run) && |run| > 1
    ensures var r := run[1];
            && r.start == 1 && r.stop == 2 && |r.prev| == |r.curr| == 3
            && r.prev[0] == 1 && r.prev[1] == 0 && r.curr[0] == 1
  {
    hide IsRun, Slides, Residual;
    SmallResiduals(c);
    RunBounds(c, "aa", "aa", run);
    var full := RowOf(c, "aa", "aa", run, 1);
    assert Computed(c, "aa", "aa", 1, full.curr, full.prev, 1);
    assert full.curr[0] == 0 && full.curr[1] == 1 && full.prev[0] == c.ins && full.prev[1] == 0;
    SlidesTo(c, "aa", "aa", 0, 1, full, run[1]);
    NotPlanted(c, "aa", "aa", 1, full, run[1], 0);
    NotPlanted(c, "aa", "aa", 1, full, run[1], 1);
  }

  lemma SecondRowGains(c: Costs, was: Rows, full: Rows, now: Rows)
    requires c.ins + c.del > 0 && c.del < 0
    requires was.start == 1 && was.stop == 2 && |was.prev| == |was.curr| == 3
    requires was.prev[0] == 1 && was.prev[1] == 0 && was.curr[0] == 1
    requires Fills(c, "aa", "aa", 0, 2, was, full) && Slides(c, "aa", "aa", 0, 2, full, now)
    ensures now.start < now.stop && |now.prev| == 3 && now.prev[2] < 0
  {
    hide Slides, Residual;
    SmallResiduals(c);
    assert full.prev[0] == full.prev[..1][0] == was.curr[..1][0] == 1;
    assert Computed(c, "aa", "aa", 2, full.curr, full.prev, 1);
    assert Computed(c, "aa", "aa", 2, full.curr, full.prev, 2);
    assert full.curr[0] == 1 && full.curr[1] == 0 && full.curr[2] == 1;
    assert full.prev[1] == 1 + c.del && full.prev[2] == 1 + c.del + c.del;
    SlidesTo(c, "aa", "aa", 0, 2, full, now);
    NotPlanted(c, "aa", "aa", 2, full, now, 2);
  }
}
