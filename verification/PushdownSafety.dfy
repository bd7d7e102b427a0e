/** Which expressions is_foreign_expr of contrib/gauss_connector/deparse.cpp sends: only
    what the remote server has, with collations it gets right, and all that is plainly
    of that kind. */
module PushdownSafety {
  import opened PushdownCheck
  import opened PushdownTheory

  // ---- What the remote server has ----

  ghost predicate AllSendable(ns: seq<Node>, g: Server)
    decreases ns, 1
  {
    forall i | 0 <= i < |ns| :: Sendable(ns[i], g)
  }

  /** Every type, function and operator in n is known to the remote server, and nothing
      in it belongs to the local one: system columns but ctid and oid, parameters other
      than external ones, assignments and unknown nodes. */
  ghost predicate Sendable(n: Node, g: Server)
    decreases n, 0
  {
    n.typ in g.types &&
    match n
    case Var(varno, varattno, levelsup, _, _) =>
      varno in g.relids && levelsup == 0 ==> varattno >= 0 || varattno == -1 || varattno == -2
    case Const(_, _) => true
    case Param(isExtern, _, _) => isExtern
    case Call(FuncExpr, id, args, _, _, _, _) => id in g.functions && AllSendable(args, g)
    case Call(Aggref, id, args, sorts, _, _, _) =>
      && id in g.functions && AllSendable(args, g)
      && forall i | 0 <= i < |sorts| ::
           || sorts[i].sortop in g.operators
           || (sorts[i].coltype in g.typeOps
               && (sorts[i].sortop == g.typeOps[sorts[i].coltype].lt || sorts[i].sortop == g.typeOps[sorts[i].coltype].gt))
    case Call(_, id, args, _, _, _, _) => id in g.operators && AllSendable(args, g)
    case ArrayRef(assigns, upper, lower, arr, _, _) =>
      !assigns && AllSendable(upper, g) && AllSendable(lower, g) && Sendable(arr, g)
    case RelabelType(arg, _, _) => Sendable(arg, g)
    case ArrayExpr(elements, _, _) => AllSendable(elements, g)
    case BoolExpr(conds, _) => AllSendable(conds, g)
    case NullTest(tested, _) => Sendable(tested, g)
    case Unsupported(_) => false
  }

  lemma {:induction false} AcceptedIsSendable(n: Node, g: Server)
    requires Contribution(n, g).Some?
    ensures Sendable(n, g)
    decreases n, 1
  {
    hide Merge, Derived, InputsAgree, Introduced;
    match n
    case Call(_, _, args, _, _, _, _) => AcceptedListIsSendable(args, g);
    case ArrayRef(_, upper, lower, arr, _, _) =>
      AcceptedListIsSendable(upper, g);
      AcceptedListIsSendable(lower, g);
      AcceptedIsSendable(arr, g);
    case RelabelType(arg, _, _) => AcceptedIsSendable(arg, g);
    case ArrayExpr(elements, _, _) => AcceptedListIsSendable(elements, g);
    case BoolExpr(conds, _) => AcceptedListIsSendable(conds, g);
    case NullTest(tested, _) => AcceptedIsSendable(tested, g);
    case _ =>
  }

  lemma {:induction false} AcceptedListIsSendable(ns: seq<Node>, g: Server)
    requires Combined(ns, g).Some?
    ensures AllSendable(ns, g)
    decreases ns, 0
  {
    hide Merge, Contribution, Sendable;
    if ns != [] {
      var init := ns[..|ns| - 1];
      AcceptedListIsSendable(init, g);
      AcceptedIsSendable(ns[|ns| - 1], g);
      forall i | 0 <= i < |ns| ensures Sendable(ns[i], g) {
        if i < |init| { assert init[i] == ns[i]; }
      }
    }
  }

  // ---- No foreign column's collation is spoiled ----

  /** As an argument under input collation c, n brings no collation, the default one, or
      c itself from a foreign column. */
  ghost predicate Harmless(n: Node, c: Oid, g: Server) {
    match n
    case Var(varno, _, levelsup, collid, _) =>
      collid == 0 || collid == 100 || (collid == c && varno in g.relids && levelsup == 0)
    case Const(collid, _) => collid == 0 || collid == 100
    case Param(_, collid, _) => collid == 0 || collid == 100
    case Call(kind, _, _, _, _, collid, _) =>
      kind == ScalarArrayOpExpr || collid == 0 || collid == 100 || (collid == c && HasForeignVar(n, c, g))
    case ArrayRef(_, _, _, _, collid, _) => collid == 0 || collid == 100 || (collid == c && HasForeignVar(n, c, g))
    case RelabelType(_, collid, _) => collid == 0 || collid == 100 || (collid == c && HasForeignVar(n, c, g))
    case ArrayExpr(_, collid, _) => collid == 0 || collid == 100 || (collid == c && HasForeignVar(n, c, g))
    case BoolExpr(_, _) => true
    case NullTest(_, _) => true
    case Unsupported(_) => false
  }

  ghost predicate AllUnspoiled(ns: seq<Node>, g: Server)
    decreases ns, 1
  {
    forall i | 0 <= i < |ns| :: Unspoiled(ns[i], g)
  }

  /** Every call in n with a valid input collation has harmless arguments only. */
  ghost predicate Unspoiled(n: Node, g: Server)
    decreases n, 0
  {
    match n
    case Call(_, _, args, _, inputcollid, _, _) =>
      && AllUnspoiled(args, g)
      && (inputcollid != 0 ==> forall i | 0 <= i < |args| :: Harmless(args[i], inputcollid, g))
    case ArrayRef(_, upper, lower, arr, _, _) => AllUnspoiled(upper, g) && AllUnspoiled(lower, g) && Unspoiled(arr, g)
    case RelabelType(arg, _, _) => Unspoiled(arg, g)
    case ArrayExpr(elements, _, _) => AllUnspoiled(elements, g)
    case BoolExpr(conds, _) => AllUnspoiled(conds, g)
    case NullTest(tested, _) => Unspoiled(tested, g)
    case _ => true
  }

  /** Contributions that leave a safe collation c as it is. */
  ghost predicate Fits(x: Context, c: Oid) {
    x.state == NoCollation || (x.state == Safe && (x.collation == c || x.collation == 100))
  }

  lemma SafeMergeFits(outer: Context, x: Context, c: Oid)
    requires Merge(outer, x) == Context(c, Safe)
    ensures Fits(x, c) && (outer.state == NoCollation || outer == Context(c, Safe) || outer == Context(100, Safe))
  {
  }

  lemma {:induction false} SafeListFits(ns: seq<Node>, g: Server, c: Oid, i: nat)
    requires Combined(ns, g).Some? && i < |ns|
    requires var all := Combined(ns, g).value;
             all.state == NoCollation || all == Context(c, Safe) || all == Context(100, Safe)
    ensures Contribution(ns[i], g).Some? && Fits(Contribution(ns[i], g).value, c)
    decreases |ns|
  {
    hide Contribution;
    var init, last := ns[..|ns| - 1], ns[|ns| - 1];
    var before, x := Combined(init, g).value, Contribution(last, g).value;
    if Merge(before, x).state == Safe { SafeMergeFits(before, x, Merge(before, x).collation); }
    if i < |init| {
      SafeListFits(init, g, c, i);
      assert init[i] == ns[i];
    }
  }

  lemma {:induction false} FittingIsHarmless(n: Node, c: Oid, g: Server)
    requires Contribution(n, g).Some? && Fits(Contribution(n, g).value, c)
    ensures Harmless(n, c, g)
  {
    hide Merge, InputsAgree, Combined, HasForeignVar;
    if Contribution(n, g).value.state == Safe { SafeComesFromVar(n, g); }
    if n.Var? { ForeignVarIs(n, n.collid, g); }
  }

  lemma {:induction false} ForeignVarIs(n: Node, c: Oid, g: Server)
    requires n.Var?
    ensures HasForeignVar(n, c, g) <==> n.varno in g.relids && n.levelsup == 0 && n.collid == c
  {
  }

  lemma {:induction false} AcceptedIsUnspoiled(n: Node, g: Server)
    requires Contribution(n, g).Some?
    ensures Unspoiled(n, g)
    decreases n, 1
  {
    hide Merge, Derived, Introduced, Harmless;
    match n
    case Call(_, _, args, _, inputcollid, _, _) =>
      AcceptedListIsUnspoiled(args, g);
      if inputcollid != 0 {
        forall i | 0 <= i < |args| ensures Harmless(args[i], inputcollid, g) {
          SafeListFits(args, g, inputcollid, i);
          FittingIsHarmless(args[i], inputcollid, g);
        }
      }
    case ArrayRef(_, upper, lower, arr, _, _) =>
      AcceptedListIsUnspoiled(upper, g);
      AcceptedListIsUnspoiled(lower, g);
      AcceptedIsUnspoiled(arr, g);
    case RelabelType(arg, _, _) => AcceptedIsUnspoiled(arg, g);
    case ArrayExpr(elements, _, _) => AcceptedListIsUnspoiled(elements, g);
    case BoolExpr(conds, _) => AcceptedListIsUnspoiled(conds, g);
    case NullTest(tested, _) => AcceptedIsUnspoiled(tested, g);
    case _ =>
  }

  lemma {:induction false} AcceptedListIsUnspoiled(ns: seq<Node>, g: Server)
    requires Combined(ns, g).Some?
    ensures AllUnspoiled(ns, g)
    decreases ns, 0
  {
    hide Merge, Contribution, Unspoiled;
    if ns != [] {
      var init := ns[..|ns| - 1];
      AcceptedListIsUnspoiled(init, g);
      AcceptedIsUnspoiled(ns[|ns| - 1], g);
      forall i | 0 <= i < |ns| ensures Unspoiled(ns[i], g) {
        if i < |init| { assert init[i] == ns[i]; }
      }
    }
  }

  // ---- What is plainly fit is accepted ----

  ghost predicate AnyCarries(ns: seq<Node>, c: Oid, g: Server)
    decreases ns, 1
  {
    exists i :: 0 <= i < |ns| && Carries(ns[i], c, g)
  }

  /** n hands on collation c from a foreign column. */
  ghost predicate Carries(n: Node, c: Oid, g: Server)
    decreases n, 0
  {
    match n
    case Var(varno, _, levelsup, collid, _) => varno in g.relids && levelsup == 0 && collid == c
    case Call(kind, _, args, _, _, collid, _) => kind != ScalarArrayOpExpr && collid == c && AnyCarries(args, c, g)
    case ArrayRef(_, upper, lower, arr, collid, _) =>
      collid == c && (AnyCarries(upper, c, g) || AnyCarries(lower, c, g) || Carries(arr, c, g))
    case RelabelType(arg, collid, _) => collid == c && Carries(arg, c, g)
    case ArrayExpr(elements, collid, _) => collid == c && AnyCarries(elements, c, g)
    case _ => false
  }

  ghost predicate AllUniform(ns: seq<Node>, c: Oid, g: Server)
    decreases ns, 1
  {
    forall i | 0 <= i < |ns| :: Uniform(ns[i], c, g)
  }

  /** The one collation in n besides the default is c, and wherever a node claims or
      needs it a foreign column hands it on. */
  ghost predicate Uniform(n: Node, c: Oid, g: Server)
    decreases n, 0
  {
    match n
    case Var(varno, _, levelsup, collid, _) =>
      if varno in g.relids && levelsup == 0 then collid == 0 || collid == c else collid == 0 || collid == 100
    case Const(collid, _) => collid == 0 || collid == 100
    case Param(_, collid, _) => collid == 0 || collid == 100
    case Call(kind, _, args, _, inputcollid, collid, _) =>
      && AllUniform(args, c, g)
      && (inputcollid == 0 || (inputcollid == c && AnyCarries(args, c, g)))
      && (kind == ScalarArrayOpExpr || collid == 0 || collid == 100 || Carries(n, c, g))
    case ArrayRef(_, upper, lower, arr, collid, _) =>
      && AllUniform(upper, c, g) && AllUniform(lower, c, g) && Uniform(arr, c, g)
      && (collid == 0 || collid == 100 || Carries(n, c, g))
    case RelabelType(arg, collid, _) => Uniform(arg, c, g) && (collid == 0 || collid == 100 || Carries(n, c, g))
    case ArrayExpr(elements, collid, _) =>
      AllUniform(elements, c, g) && (collid == 0 || collid == 100 || Carries(n, c, g))
    case BoolExpr(conds, _) => AllUniform(conds, c, g)
    case NullTest(tested, _) => Uniform(tested, c, g)
    case Unsupported(_) => true
  }

  /** The context of something uniform: c if it is handed on, else none. */
  ghost predicate Shows(x: Context, c: Oid, carries: bool) {
    if carries then x == Context(c, Safe) else x.state == NoCollation
  }

  lemma MergeShows(a: Context, p: bool, b: Context, q: bool, c: Oid)
    requires Shows(a, c, p) && Shows(b, c, q)
    ensures Shows(Merge(a, b), c, p || q)
  {
  }

  lemma DerivedShows(inner: Context, p: bool, collid: Oid, c: Oid)
    requires c != 0 && Shows(inner, c, p) && (collid == 0 || collid == 100 || (collid == c && p))
    ensures Shows(Derived(inner, collid), c, collid == c && p)
  {
  }

  lemma {:induction false} UniformIsAccepted(n: Node, c: Oid, g: Server)
    requires c != 0 && Sendable(n, g) && Uniform(n, c, g)
    ensures Contribution(n, g).Some? && Shows(Contribution(n, g).value, c, Carries(n, c, g))
    decreases n, 1
  {
    hide Merge, Derived, Shows;
    NothingShows(c);
    match n
    case Var(_, _, _, _, _) => LeafShows(n, c, g);
    case Const(_, _) => LeafShows(n, c, g);
    case Param(_, _, _) => LeafShows(n, c, g);
    case Call(kind, id, args, sorts, inputcollid, collid, _) =>
      UniformListIsAccepted(args, c, g);
      CallShows(n, c, g);
    case ArrayRef(_, upper, lower, arr, collid, _) =>
      UniformListIsAccepted(upper, c, g);
      UniformListIsAccepted(lower, c, g);
      UniformIsAccepted(arr, c, g);
      var u, l, a := Combined(upper, g).value, Combined(lower, g).value, Contribution(arr, g).value;
      var p, q, r := AnyCarries(upper, c, g), AnyCarries(lower, c, g), Carries(arr, c, g);
      MergeShows(EMPTY, false, u, p, c);
      MergeShows(Merge(EMPTY, u), p, l, q, c);
      MergeShows(Merge(Merge(EMPTY, u), l), p || q, a, r, c);
      DerivedShows(Merge(Merge(Merge(EMPTY, u), l), a), p || q || r, collid, c);
    case RelabelType(arg, collid, _) =>
      UniformIsAccepted(arg, c, g);
      var p := Carries(arg, c, g);
      MergeShows(EMPTY, false, Contribution(arg, g).value, p, c);
      DerivedShows(Merge(EMPTY, Contribution(arg, g).value), p, collid, c);
    case ArrayExpr(elements, collid, _) =>
      UniformListIsAccepted(elements, c, g);
      DerivedShows(Combined(elements, g).value, AnyCarries(elements, c, g), collid, c);
    case BoolExpr(conds, _) => UniformListIsAccepted(conds, c, g);
    case NullTest(tested, _) => UniformIsAccepted(tested, c, g);
  }

  lemma NothingShows(c: Oid)
    ensures Shows(EMPTY, c, false)
  {
  }

  lemma {:induction false} LeafShows(n: Node, c: Oid, g: Server)
    requires n.Var? || n.Const? || n.Param?
    requires c != 0 && Sendable(n, g) && Uniform(n, c, g)
    ensures Contribution(n, g).Some? && Shows(Contribution(n, g).value, c, Carries(n, c, g))
  {
    hide Merge, Derived, Combined;
  }

  lemma {:induction false} CallShows(n: Node, c: Oid, g: Server)
    requires n.Call? && c != 0 && Sendable(n, g) && Uniform(n, c, g)
    requires Combined(n.args, g).Some? && Shows(Combined(n.args, g).value, c, AnyCarries(n.args, c, g))
    ensures Contribution(n, g).Some? && Shows(Contribution(n, g).value, c, Carries(n, c, g))
  {
    hide Merge, Derived, Combined, AnyCarries, AllUniform, AllSendable;
    NothingShows(c);
    var p := AnyCarries(n.args, c, g);
    if n.kind != ScalarArrayOpExpr { DerivedShows(Combined(n.args, g).value, p, n.collid, c); }
  }

  lemma {:induction false} UniformListIsAccepted(ns: seq<Node>, c: Oid, g: Server)
    requires c != 0 && AllSendable(ns, g) && AllUniform(ns, c, g)
    ensures Combined(ns, g).Some? && Shows(Combined(ns, g).value, c, AnyCarries(ns, c, g))
    decreases ns, 0
  {
    hide Merge, Contribution, Sendable, Uniform, Carries, Shows;
    if ns == [] {
      NothingShows(c);
    } else {
      var init, last := ns[..|ns| - 1], ns[|ns| - 1];
      assert forall i | 0 <= i < |init| :: init[i] == ns[i];
      UniformListIsAccepted(init, c, g);
      UniformIsAccepted(last, c, g);
      MergeShows(Combined(init, g).value, AnyCarries(init, c, g), Contribution(last, g).value, Carries(last, c, g), c);
      AnyCarriesLast(ns, c, g);
    }
  }

  lemma {:induction false} AnyCarriesLast(ns: seq<Node>, c: Oid, g: Server)
    requires ns != []
    ensures AnyCarries(ns, c, g) <==> AnyCarries(ns[..|ns| - 1], c, g) || Carries(ns[|ns| - 1], c, g)
  {
    hide Carries;
    var init := ns[..|ns| - 1];
    assert forall i | 0 <= i < |init| :: init[i] == ns[i];
  }

  // ---- is_foreign_expr ----

  /** What is sent is known to the remote server, and at every call with a valid input
      collation has that collation from a foreign column and no other; what is uniform
      and known is sent. Mutability is looked up elsewhere. */
  method IsForeignExpr(n: Node, g: Server, containsMutable: bool) returns (ok: bool)
    ensures ok <==> Contribution(n, g).Some? && Contribution(n, g).value.state != Unsafe && !containsMutable
    ensures ok ==> Sendable(n, g) && Justified(n, g) && Unspoiled(n, g) && exists c :: Harmless(n, c, g)
    ensures forall c | c != 0 && Sendable(n, g) && Uniform(n, c, g) && !containsMutable :: ok
  {
    hide Contribution, Justified, Sendable, Unspoiled, Uniform, Carries, Harmless;
    var loc := new LocalContext();
    var walked := Walk(n, g, loc);
    forall c | c != 0 && Sendable(n, g) && Uniform(n, c, g)
      ensures Contribution(n, g).Some? && Contribution(n, g).value.state != Unsafe
    {
      UniformIsAccepted(n, c, g);
    }
    if !walked { return false; }
    AcceptedIsJustified(n, g);
    AcceptedIsSendable(n, g);
    AcceptedIsUnspoiled(n, g);
    if loc.state == Unsafe { return false; }
    FittingIsHarmless(n, Contribution(n, g).value.collation, g);
    ok := !containsMutable;
  }
}
