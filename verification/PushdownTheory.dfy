/** What an accepted expression guarantees, and that the order of arguments does
    not matter. */
module PushdownTheory {
  import opened PushdownCheck

  // ---- Every sensitive node has its collation from a foreign column ----

  ghost predicate AnyHas(ns: seq<Node>, c: Oid, g: Server)
    decreases ns, 1
  {
    exists i :: 0 <= i < |ns| && HasForeignVar(ns[i], c, g)
  }

  /** A column of the foreign table with collation c occurs in n. */
  ghost predicate HasForeignVar(n: Node, c: Oid, g: Server)
    decreases n, 0
  {
    match n
    case Var(varno, _, levelsup, collid, _) => varno in g.relids && levelsup == 0 && collid == c
    case Call(_, _, args, _, _, _, _) => AnyHas(args, c, g)
    case ArrayRef(_, upper, lower, arr, _, _) => AnyHas(upper, c, g) || AnyHas(lower, c, g) || HasForeignVar(arr, c, g)
    case RelabelType(arg, _, _) => HasForeignVar(arg, c, g)
    case ArrayExpr(elements, _, _) => AnyHas(elements, c, g)
    case BoolExpr(conds, _) => AnyHas(conds, c, g)
    case NullTest(tested, _) => HasForeignVar(tested, c, g)
    case _ => false
  }

  ghost predicate AllJustified(ns: seq<Node>, g: Server)
    decreases ns, 1
  {
    forall i | 0 <= i < |ns| :: Justified(ns[i], g)
  }

  /** Every call in n with a valid input collation has a foreign column of exactly
      that collation below it. */
  ghost predicate Justified(n: Node, g: Server)
    decreases n, 0
  {
    match n
    case Call(_, _, args, _, inputcollid, _, _) =>
      AllJustified(args, g) && (inputcollid != INVALID_OID ==> AnyHas(args, inputcollid, g))
    case ArrayRef(_, upper, lower, arr, _, _) => AllJustified(upper, g) && AllJustified(lower, g) && Justified(arr, g)
    case RelabelType(arg, _, _) => Justified(arg, g)
    case ArrayExpr(elements, _, _) => AllJustified(elements, g)
    case BoolExpr(conds, _) => AllJustified(conds, g)
    case NullTest(tested, _) => Justified(tested, g)
    case _ => true
  }

  lemma MergeKeepsSource(outer: Context, c: Context)
    requires Merge(outer, c).state == Safe
    ensures Merge(outer, c) == outer || Merge(outer, c) == c
  {
  }

  lemma {:induction false} AnyHasPrefix(ns: seq<Node>, c: Oid, g: Server)
    requires ns != [] && (AnyHas(ns[..|ns| - 1], c, g) || HasForeignVar(ns[|ns| - 1], c, g))
    ensures AnyHas(ns, c, g)
  {
    hide HasForeignVar;
    var init := ns[..|ns| - 1];
    if AnyHas(init, c, g) {
      var i :| 0 <= i < |init| && HasForeignVar(init[i], c, g);
      assert ns[i] == init[i];
    }
  }

  /** A safe collation always comes from a foreign column. */
  lemma {:induction false} SafeComesFromVar(n: Node, g: Server)
    requires Contribution(n, g).Some? && Contribution(n, g).value.state == Safe
    ensures HasForeignVar(n, Contribution(n, g).value.collation, g)
    decreases n, 1
  {
    hide Merge, InputsAgree;
    match n
    case Var(_, _, _, _, _) =>
    case Const(_, _) =>
    case Param(_, _, _) =>
    case Call(_, _, args, _, _, _, _) => SafeListComesFromVar(args, g);
    case ArrayRef(_, upper, lower, arr, collid, _) =>
      SafeArrayRef(EMPTY, Combined(upper, g).value, Combined(lower, g).value, Contribution(arr, g).value);
      if Combined(upper, g).value == Context(collid, Safe) {
        SafeListComesFromVar(upper, g);
      } else if Combined(lower, g).value == Context(collid, Safe) {
        SafeListComesFromVar(lower, g);
      } else {
        SafeComesFromVar(arr, g);
      }
    case RelabelType(arg, collid, _) =>
      MergeKeepsSource(EMPTY, Contribution(arg, g).value);
      SafeComesFromVar(arg, g);
    case ArrayExpr(elements, _, _) => SafeListComesFromVar(elements, g);
    case BoolExpr(_, _) =>
    case NullTest(_, _) =>
    case Unsupported(_) =>
  }

  lemma SafeArrayRef(e: Context, u: Context, l: Context, a: Context)
    requires e.state == NoCollation && Merge(Merge(Merge(e, u), l), a).state == Safe
    ensures var r := Merge(Merge(Merge(e, u), l), a); r == u || r == l || r == a
  {
  }

  lemma {:induction false} SafeListComesFromVar(ns: seq<Node>, g: Server)
    requires Combined(ns, g).Some? && Combined(ns, g).value.state == Safe
    ensures AnyHas(ns, Combined(ns, g).value.collation, g)
    decreases ns, 0
  {
    hide Merge, Contribution, HasForeignVar, AnyHas;
    if ns != [] {
      var before, last := Combined(ns[..|ns| - 1], g).value, Contribution(ns[|ns| - 1], g).value;
      MergeKeepsSource(before, last);
      if Merge(before, last) == before {
        SafeListComesFromVar(ns[..|ns| - 1], g);
      } else {
        SafeComesFromVar(ns[|ns| - 1], g);
      }
      AnyHasPrefix(ns, Combined(ns, g).value.collation, g);
    }
  }

  /** The walker accepts only justified expressions. */
  lemma {:induction false} AcceptedIsJustified(n: Node, g: Server)
    requires Contribution(n, g).Some?
    ensures Justified(n, g)
    decreases n, 1
  {
    hide Merge, Derived;
    match n
    case Call(_, _, args, _, inputcollid, _, _) =>
      AcceptedListIsJustified(args, g);
      if inputcollid != INVALID_OID { SafeListComesFromVar(args, g); }
    case ArrayRef(_, upper, lower, arr, _, _) =>
      AcceptedListIsJustified(upper, g);
      AcceptedListIsJustified(lower, g);
      AcceptedIsJustified(arr, g);
    case RelabelType(arg, _, _) => AcceptedIsJustified(arg, g);
    case ArrayExpr(elements, _, _) => AcceptedListIsJustified(elements, g);
    case BoolExpr(conds, _) => AcceptedListIsJustified(conds, g);
    case NullTest(tested, _) => AcceptedIsJustified(tested, g);
    case _ =>
  }

  lemma {:induction false} AcceptedListIsJustified(ns: seq<Node>, g: Server)
    requires Combined(ns, g).Some?
    ensures AllJustified(ns, g)
    decreases ns, 0
  {
    hide Merge, Contribution, Justified;
    if ns != [] {
      var init := ns[..|ns| - 1];
      AcceptedListIsJustified(init, g);
      AcceptedIsJustified(ns[|ns| - 1], g);
      forall i | 0 <= i < |ns| ensures Justified(ns[i], g) {
        if i < |init| { assert init[i] == ns[i]; }
      }
    }
  }

  // ---- The order of arguments ----

  /** The part of a context that anything depends on. */
  function Verdict(c: Context): Context {
    if c.state == Safe then c else Context(INVALID_OID, c.state)
  }

  ghost predicate Conflict(cs: set<Context>) {
    exists c, d :: c in cs && d in cs && c.state == d.state == Safe
                   && c.collation != d.collation
                   && c.collation != DEFAULT_COLLATION_OID && d.collation != DEFAULT_COLLATION_OID
  }

  /** What the contributions, as a set, determine: unsafe if one is or two safe
      non-default collations differ; otherwise the safe collation, with the default
      giving way; otherwise none. */
  ghost predicate Determines(cs: set<Context>, v: Context) {
    && (v.state == Unsafe <==> (exists c :: c in cs && c.state == Unsafe) || Conflict(cs))
    && (v.state == NoCollation <==> forall c | c in cs :: c.state == NoCollation)
    && (v.state == Safe ==>
          v in cs && forall c | c in cs && c.state == Safe ::
                       c.collation == v.collation || c.collation == DEFAULT_COLLATION_OID)
  }

  lemma VerdictUnique(cs: set<Context>, v: Context, w: Context)
    requires Determines(cs, v) && Determines(cs, w)
    ensures Verdict(v) == Verdict(w)
  {
  }

  ghost function Contributions(ns: seq<Node>, g: Server): set<Context> {
    set i | 0 <= i < |ns| && Contribution(ns[i], g).Some? :: Contribution(ns[i], g).value
  }

  lemma {:induction false} ContributionsNext(ns: seq<Node>, g: Server)
    requires ns != [] && Contribution(ns[|ns| - 1], g).Some?
    ensures Contributions(ns, g) == Contributions(ns[..|ns| - 1], g) + {Contribution(ns[|ns| - 1], g).value}
  {
    hide Contribution;
    var init := ns[..|ns| - 1];
    assert forall i | 0 <= i < |init| :: init[i] == ns[i];
    forall c | c in Contributions(ns, g)
      ensures c in Contributions(init, g) + {Contribution(ns[|ns| - 1], g).value}
    {
      var i :| 0 <= i < |ns| && Contribution(ns[i], g).Some? && Contribution(ns[i], g).value == c;
      if i < |init| { assert init[i] == ns[i]; }
    }
    forall c | c in Contributions(init, g) ensures c in Contributions(ns, g) {
      var i :| 0 <= i < |init| && Contribution(init[i], g).Some? && Contribution(init[i], g).value == c;
      assert ns[i] == init[i];
    }
  }

  lemma MergeDetermines(cs: set<Context>, v: Context, c: Context)
    requires Determines(cs, v)
    ensures Determines(cs + {c}, Merge(v, c))
  {
    var all, m := cs + {c}, Merge(v, c);
    assert c in all && forall d | d in cs :: d in all;
    if v.state == Unsafe {
      UnsafeStays(cs, v, c);
    } else {
      NoConflictYet(cs, v);
      if v.state == Safe && c.state == Safe && m.state == Unsafe { assert v in all; }
    }
  }

  lemma UnsafeStays(cs: set<Context>, v: Context, c: Context)
    requires Determines(cs, v) && v.state == Unsafe
    ensures Determines(cs + {c}, Merge(v, c))
  {
    var all := cs + {c};
    if u :| u in cs && u.state == Unsafe {
      assert u in all;
    } else {
      var a, b :| a in cs && b in cs && a.state == b.state == Safe && a.collation != b.collation
                  && a.collation != DEFAULT_COLLATION_OID && b.collation != DEFAULT_COLLATION_OID;
      assert a in all && b in all;
    }
  }

  lemma NoConflictYet(cs: set<Context>, v: Context)
    requires Determines(cs, v) && v.state != Unsafe
    ensures !Conflict(cs) && forall c | c in cs :: c.state != Unsafe
  {
  }

  lemma {:induction false} CombinedIsDetermined(ns: seq<Node>, g: Server)
    requires Combined(ns, g).Some?
    ensures Determines(Contributions(ns, g), Combined(ns, g).value)
    ensures forall i | 0 <= i < |ns| :: Contribution(ns[i], g).Some?
    decreases |ns|
  {
    hide Merge, Contribution;
    if ns == [] {
      assert Contributions(ns, g) == {};
    } else {
      hide Determines;
      var init := ns[..|ns| - 1];
      CombinedIsDetermined(init, g);
      ContributionsNext(ns, g);
      MergeDetermines(Contributions(init, g), Combined(init, g).value, Contribution(ns[|ns| - 1], g).value);
      assert forall i | 0 <= i < |init| :: ns[i] == init[i];
    }
  }

  lemma {:induction false} CombinedAccepts(ns: seq<Node>, g: Server)
    requires forall n | n in ns :: Contribution(n, g).Some?
    ensures Combined(ns, g).Some?
    decreases |ns|
  {
    hide Merge, Contribution;
    if ns != [] { CombinedAccepts(ns[..|ns| - 1], g); }
  }

  lemma SameContributions(ns: seq<Node>, ms: seq<Node>, g: Server)
    requires forall n :: n in ns <==> n in ms
    ensures Contributions(ns, g) == Contributions(ms, g)
  {
    hide Contribution;
    ContributionsWithin(ns, ms, g);
    ContributionsWithin(ms, ns, g);
  }

  lemma ContributionsWithin(ns: seq<Node>, ms: seq<Node>, g: Server)
    requires forall n :: n in ns ==> n in ms
    ensures Contributions(ns, g) <= Contributions(ms, g)
  {
    hide Contribution;
    forall c | c in Contributions(ns, g) ensures c in Contributions(ms, g) {
      var i :| 0 <= i < |ns| && Contribution(ns[i], g).Some? && Contribution(ns[i], g).value == c;
      assert ns[i] in ms;
      var j :| 0 <= j < |ms| && ms[j] == ns[i];
    }
  }

  /** Lists with the same elements, in any order and number, are accepted alike and
      leave the same verdict. */
  lemma {:induction false} OrderIrrelevant(ns: seq<Node>, ms: seq<Node>, g: Server)
    requires forall n :: n in ns <==> n in ms
    ensures Combined(ns, g).Some? <==> Combined(ms, g).Some?
    ensures Combined(ns, g).Some? ==> Verdict(Combined(ns, g).value) == Verdict(Combined(ms, g).value)
  {
    hide Merge, Contribution, Combined, Verdict, Determines;
    if Combined(ns, g).Some? {
      CombinedIsDetermined(ns, g);
      CombinedAccepts(ms, g);
      CombinedIsDetermined(ms, g);
      SameContributions(ns, ms, g);
      VerdictUnique(Contributions(ns, g), Combined(ns, g).value, Combined(ms, g).value);
    } else if Combined(ms, g).Some? {
      CombinedIsDetermined(ms, g);
      CombinedAccepts(ns, g);
    }
  }

  /** So a call may have its arguments permuted without any effect on the check. */
  lemma {:induction false} CallOrderIrrelevant(n: Node, ms: seq<Node>, g: Server)
    requires n.Call? && multiset(n.args) == multiset(ms)
    ensures Contribution(n.(args := ms), g) == Contribution(n, g)
  {
    hide Merge, Combined;
    forall m ensures m in n.args <==> m in ms {
      assert m in n.args <==> m in multiset(n.args);
      assert m in ms <==> m in multiset(ms);
    }
    OrderIrrelevant(n.args, ms, g);
  }
}
