/** Which expressions may be evaluated on the remote server: the collation rules
    of gcforeign_expr_walker and is_foreign_expr in
    contrib/gauss_connector/deparse.cpp. */
module PushdownCheck {
  import opened Options

  type Oid = nat
  const INVALID_OID: Oid := 0
  const DEFAULT_COLLATION_OID: Oid := 100
  const CTID_ATTRIBUTE := -1
  const OID_ATTRIBUTE := -2

  /** Nodes that call something and are sensitive to their input collation. */
  datatype CallKind = FuncExpr | OpExpr | ScalarArrayOpExpr | Aggref

  /** Expression nodes as the walker distinguishes them; typ is the result type.
      DistinctExpr is treated as OpExpr. */
  datatype Node =
    | Var(varno: int, varattno: int, levelsup: nat, collid: Oid, typ: Oid)
    | Const(collid: Oid, typ: Oid)
    | Param(isExtern: bool, collid: Oid, typ: Oid)
    | Call(kind: CallKind, id: Oid, args: seq<Node>, sorts: seq<SortClause>, inputcollid: Oid, collid: Oid, typ: Oid)
    | ArrayRef(assigns: bool, upper: seq<Node>, lower: seq<Node>, arr: Node, collid: Oid, typ: Oid)
    | RelabelType(arg: Node, collid: Oid, typ: Oid)
    | ArrayExpr(elements: seq<Node>, collid: Oid, typ: Oid)
    | BoolExpr(conds: seq<Node>, typ: Oid)
    | NullTest(tested: Node, typ: Oid)
    | Unsupported(typ: Oid)

  /** An ORDER BY element of an aggregate: the operator and the type of the column. */
  datatype SortClause = SortClause(sortop: Oid, coltype: Oid)

  /** The `<` and `>` operators of a type. */
  datatype TypeOps = TypeOps(lt: Oid, gt: Oid)

  /** What may be shipped, which relations are the foreign ones, and the operators the
      type cache knows. */
  datatype Server = Server(relids: set<int>, functions: set<Oid>, operators: set<Oid>, types: set<Oid>,
                           typeOps: map<Oid, TypeOps>)

  datatype State = NoCollation | Safe | Unsafe

  /** foreign_loc_cxt */
  datatype Context = Context(collation: Oid, state: State)

  const EMPTY := Context(INVALID_OID, NoCollation)

  predicate IsForeign(v: Node, g: Server)
    requires v.Var?
  {
    v.varno in g.relids && v.levelsup == 0
  }

  predicate Shippable(n: Node, g: Server)
    requires n.Call?
  {
    if n.kind == FuncExpr || n.kind == Aggref then n.id in g.functions else n.id in g.operators
  }

  /** A sort operator must be shippable unless it is a default one of its column's type. */
  predicate SortShippable(s: SortClause, g: Server) {
    || (s.coltype in g.typeOps && (s.sortop == g.typeOps[s.coltype].lt || s.sortop == g.typeOps[s.coltype].gt))
    || s.sortop in g.operators
  }

  predicate SortsShippable(sorts: seq<SortClause>, g: Server) {
    forall i | 0 <= i < |sorts| :: SortShippable(sorts[i], g)
  }

  // ---- The rules ----

  /** Merging a node's collation into its parent's context. */
  function Merge(outer: Context, c: Context): Context {
    if c.state == NoCollation then outer
    else if outer.state == NoCollation || (c.state == Unsafe && outer.state == Safe) then c
    else if outer.state == Unsafe then outer
    else if c.collation == outer.collation then outer
    else if outer.collation == DEFAULT_COLLATION_OID then c
    else if c.collation != DEFAULT_COLLATION_OID then Context(outer.collation, Unsafe)
    else outer
  }

  /** Collation introduced by a value that is not a foreign column. */
  function Introduced(collid: Oid): Context {
    Context(collid, if collid == INVALID_OID || collid == DEFAULT_COLLATION_OID then NoCollation else Unsafe)
  }

  /** Result collation of a node over its inputs. */
  function Derived(inner: Context, collid: Oid): Context {
    Context(collid,
            if collid == INVALID_OID then NoCollation
            else if inner.state == Safe && collid == inner.collation then Safe
            else if collid == DEFAULT_COLLATION_OID then NoCollation
            else Unsafe)
  }

  /** A sensitive node is acceptable over these inputs. */
  predicate InputsAgree(inputcollid: Oid, inner: Context) {
    inputcollid == INVALID_OID || (inner.state == Safe && inputcollid == inner.collation)
  }

  /** What a node contributes, or None when the walker returns false. */
  function Contribution(n: Node, g: Server): Option<Context>
    decreases n, 1
  {
    if n.typ !in g.types then None else
    match n
    case Var(_, attno, _, collid, _) =>
      if IsForeign(n, g) then
        if attno < 0 && attno != CTID_ATTRIBUTE && attno != OID_ATTRIBUTE then None
        else Some(Context(collid, if collid != INVALID_OID then Safe else NoCollation))
      else Some(Introduced(collid))
    case Const(collid, _) => Some(Introduced(collid))
    case Param(isExtern, collid, _) => if isExtern then Some(Introduced(collid)) else None
    case Call(kind, id, args, sorts, inputcollid, collid, _) =>
      var inner := Combined(args, g);
      if !Shippable(n, g) || inner.None? || !InputsAgree(inputcollid, inner.value) then None
      else if kind == Aggref && !SortsShippable(sorts, g) then None
      else if kind == ScalarArrayOpExpr then Some(EMPTY)
      else Some(Derived(inner.value, collid))
    case ArrayRef(assigns, upper, lower, arr, collid, _) =>
      var u, l := Combined(upper, g), Combined(lower, g);
      var a := Contribution(arr, g);
      if assigns || u.None? || l.None? || a.None? then None
      else Some(Derived(Merge(Merge(Merge(EMPTY, u.value), l.value), a.value), collid))
    case RelabelType(arg, collid, _) =>
      var inner := Contribution(arg, g);
      if inner.None? then None else Some(Derived(Merge(EMPTY, inner.value), collid))
    case ArrayExpr(elements, collid, _) =>
      var inner := Combined(elements, g);
      if inner.None? then None else Some(Derived(inner.value, collid))
    case BoolExpr(conds, _) => if Combined(conds, g).None? then None else Some(EMPTY)
    case NullTest(tested, _) => if Contribution(tested, g).None? then None else Some(EMPTY)
    case Unsupported(_) => None
  }

  /** The context left by walking a list element by element. */
  function Combined(ns: seq<Node>, g: Server): Option<Context>
    decreases ns, 0
  {
    if ns == [] then Some(EMPTY)
    else
      var before := Combined(ns[..|ns| - 1], g);
      var last := Contribution(ns[|ns| - 1], g);
      if before.None? || last.None? then None else Some(Merge(before.value, last.value))
  }

  // ---- The walker itself ----

  class LocalContext {
    var collation: Oid
    var state: State

    constructor ()
      ensures Value() == EMPTY
    {
      collation, state := INVALID_OID, NoCollation;
    }

    function Value(): Context
      reads this
    {
      Context(collation, state)
    }

    /** The final block of the walker. */
    method MergeIn(c: Oid, s: State)
      modifies this
      ensures Value() == Merge(old(Value()), Context(c, s))
    {
      if (s == Safe && state == NoCollation) || (s == Unsafe && state != Unsafe) {
        collation, state := c, s;
      } else if s == state {
        match s {
          case NoCollation =>
          case Safe =>
            if c != collation {
              if collation == DEFAULT_COLLATION_OID {
                collation := c;
              } else if c != DEFAULT_COLLATION_OID {
                state := Unsafe;
              }
            }
          case Unsafe =>
        }
      }
    }
  }

  /** gcforeign_expr_walker on one node: outer is updated only on success. */
  method Walk(n: Node, g: Server, outer: LocalContext) returns (ok: bool)
    modifies outer
    ensures ok <==> Contribution(n, g).Some?
    ensures outer.Value() == if ok then Merge(old(outer.Value()), Contribution(n, g).value) else old(outer.Value())
    decreases n, 1
  {
    hide Merge, Introduced, Derived, InputsAgree;
    var inner := new LocalContext();
    var contribution: Context;
    match n {
      case Var(_, attno, _, collid, _) =>
        if IsForeign(n, g) {
          if attno < 0 && attno != CTID_ATTRIBUTE && attno != OID_ATTRIBUTE { return false; }
          contribution := Context(collid, if collid != INVALID_OID then Safe else NoCollation);
        } else {
          contribution := Introduced(collid);
        }
      case Const(collid, _) => contribution := Introduced(collid);
      case Param(isExtern, collid, _) =>
        if !isExtern { return false; }
        contribution := Introduced(collid);
      case Call(kind, id, args, sorts, inputcollid, collid, _) =>
        if !Shippable(n, g) { return false; }
        var walked := WalkList(args, g, inner);
        if !walked { return false; }
        if kind == Aggref {
          var sortable := WalkSorts(sorts, g);
          if !sortable { return false; }
        }
        if !InputsAgree(inputcollid, inner.Value()) { return false; }
        contribution := if kind == ScalarArrayOpExpr then EMPTY else Derived(inner.Value(), collid);
      case ArrayRef(assigns, upper, lower, arr, collid, _) =>
        if assigns { return false; }
        var walked := WalkSublist(upper, g, inner);
        if !walked { return false; }
        walked := WalkSublist(lower, g, inner);
        if !walked { return false; }
        walked := Walk(arr, g, inner);
        if !walked { return false; }
        contribution := Derived(inner.Value(), collid);
      case RelabelType(arg, collid, _) =>
        var walked := Walk(arg, g, inner);
        if !walked { return false; }
        contribution := Derived(inner.Value(), collid);
      case ArrayExpr(elements, collid, _) =>
        var walked := WalkList(elements, g, inner);
        if !walked { return false; }
        contribution := Derived(inner.Value(), collid);
      case BoolExpr(conds, _) =>
        var walked := WalkList(conds, g, inner);
        if !walked { return false; }
        contribution := EMPTY;
      case NullTest(tested, _) =>
        var walked := Walk(tested, g, inner);
        if !walked { return false; }
        contribution := EMPTY;
      case Unsupported(_) => return false;
    }
    if n.typ !in g.types { return false; }
    outer.MergeIn(contribution.collation, contribution.state);
    ok := true;
  }

  /** The loop over the sort operators of an aggregate. */
  method WalkSorts(sorts: seq<SortClause>, g: Server) returns (ok: bool)
    ensures ok <==> SortsShippable(sorts, g)
  {
    for i := 0 to |sorts|
      invariant SortsShippable(sorts[..i], g)
    {
      if !SortShippable(sorts[i], g) { return false; }
    }
    assert sorts[..|sorts|] == sorts;
    ok := true;
  }

  /** The elements of a list, each merged into one fresh context. */
  method WalkList(ns: seq<Node>, g: Server, inner: LocalContext) returns (ok: bool)
    requires inner.Value() == EMPTY
    modifies inner
    ensures ok <==> Combined(ns, g).Some?
    ensures ok ==> inner.Value() == Combined(ns, g).value
    decreases ns, 0
  {
    hide Merge, Contribution;
    assert ns[..0] == [];
    for i := 0 to |ns|
      invariant Combined(ns[..i], g) == Some(inner.Value())
    {
      assert ns[..i + 1][..i] == ns[..i] && ns[..i + 1][i] == ns[i];
      var walked := Walk(ns[i], g, inner);
      if !walked {
        RejectedListStays(ns, g, i);
        return false;
      }
    }
    assert ns[..|ns|] == ns;
    ok := true;
  }

  /** A list below another node has its own context, which bubbles up. */
  method WalkSublist(ns: seq<Node>, g: Server, outer: LocalContext) returns (ok: bool)
    modifies outer
    ensures ok <==> Combined(ns, g).Some?
    ensures ok ==> outer.Value() == Merge(old(outer.Value()), Combined(ns, g).value)
    decreases ns, 1
  {
    hide Merge, Contribution, Combined;
    var inner := new LocalContext();
    ok := WalkList(ns, g, inner);
    if ok { outer.MergeIn(inner.collation, inner.state); }
  }

  lemma {:induction false} RejectedListStays(ns: seq<Node>, g: Server, i: nat)
    requires i < |ns| && Contribution(ns[i], g).None?
    ensures Combined(ns, g).None?
    decreases |ns|
  {
    hide Contribution, Merge;
    if i < |ns| - 1 { RejectedListStays(ns[..|ns| - 1], g, i); }
  }
}
