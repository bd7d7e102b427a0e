/** How gcDeparseExpr in contrib/gauss_connector/deparse.cpp prints an expression
    and numbers the values to be sent along as remote parameters. */
module RemoteParams {
  import opened Options

  /** Expressions as they are printed outside coordinator queries; names, operator
      texts and type names are already looked up. */
  datatype Node =
    | Column(text: string)
    | SubqueryColumn(relno: nat, colno: nat)
    | OuterVar(varno: int, attno: int, typ: string)
    | Const(text: string)
    | Param(id: int, typ: string)
    | ArrayRef(arr: Node, lower: seq<Node>, upper: seq<Node>)
    | ImplicitCast(arg: Node)
    | ExplicitCast(arg: Node, typ: string)
    | Func(name: string, variadic: bool, args: seq<Node>)
    | Postfix(left: Node, op: string)
    | Prefix(op: string, right: Node)
    | Infix(left: Node, op: string, right: Node)
    | Distinct(left: Node, right: Node)
    | ScalarArrayOp(left: Node, op: string, useOr: bool, right: Node)
    | RelabelType(arg: Node, cast: Option<string>)
    | Junction(conjunction: bool, args: seq<Node>)
    | Not(arg: Node)
    | NullTest(arg: Node, isNull: bool, asRow: bool)
    | ArrayExpr(elements: seq<Node>, typ: string)
    | Aggref

  /** Output: plain text, $k::typ, or the placeholder printed by EXPLAIN. */
  datatype Token = Text(s: string) | Remote(k: nat, typ: string) | Placeholder(typ: string)

  /** What a node is printed as: texts and subexpressions in order. */
  datatype Piece = Say(s: string) | Sub(n: Node)

  predicate IsVar(n: Node) {
    n.Column? || n.SubqueryColumn? || n.OuterVar?
  }

  /** Values the remote side cannot compute: parameters and foreign columns of
      other relations. */
  predicate IsRemoteValue(n: Node) {
    n.OuterVar? || n.Param?
  }

  ghost predicate SubsOf(ps: seq<Piece>, ns: seq<Node>) {
    forall i | 0 <= i < |ps| && ps[i].Sub? :: ps[i].n in ns
  }

  /** The elements with a separator between them; last goes before the last one. */
  function Separated(ns: seq<Node>, sep: string, last: string): (ps: seq<Piece>)
    ensures SubsOf(ps, ns)
  {
    if ns == [] then []
    else if |ns| == 1 then (if last == "" then [] else [Say(last)]) + [Sub(ns[0])]
    else [Sub(ns[0]), Say(sep)] + Separated(ns[1..], sep, last)
  }

  function Subscripts(lower: seq<Node>, upper: seq<Node>): (ps: seq<Piece>)
    ensures SubsOf(ps, lower + upper)
  {
    if upper == [] then []
    else
      var rest := Subscripts(Rest(lower), Rest(upper));
      SubsOfRest(rest, lower, upper);
      Subscript(lower, upper) + rest
  }

  function Rest(ns: seq<Node>): seq<Node> {
    if ns == [] then [] else ns[1..]
  }

  /** The first pair of brackets. */
  function Subscript(lower: seq<Node>, upper: seq<Node>): (ps: seq<Piece>)
    requires upper != []
    ensures SubsOf(ps, lower + upper)
  {
    assert upper[0] == (lower + upper)[|lower|];
    if lower == [] then [Say("["), Sub(upper[0]), Say("]")]
    else
      assert lower[0] == (lower + upper)[0];
      [Say("["), Sub(lower[0]), Say(":"), Sub(upper[0]), Say("]")]
  }

  lemma SubsOfRest(ps: seq<Piece>, lower: seq<Node>, upper: seq<Node>)
    requires upper != [] && SubsOf(ps, Rest(lower) + Rest(upper))
    ensures SubsOf(ps, lower + upper)
  {
    forall i | 0 <= i < |ps| && ps[i].Sub? ensures ps[i].n in lower + upper {
      InRest(ps[i].n, lower, upper);
    }
  }

  lemma InRest(n: Node, lower: seq<Node>, upper: seq<Node>)
    requires n in Rest(lower) + Rest(upper)
    ensures n in lower + upper
  {
    if n in Rest(lower) { assert n in lower; } else { assert n in upper; }
  }

  function Digits(k: nat): string {
    if k < 10 then ["0123456789"[k]] else Digits(k / 10) + ["0123456789"[k % 10]]
  }

  ghost predicate Below(ps: seq<Piece>, n: Node) {
    forall i | 0 <= i < |ps| && ps[i].Sub? :: ps[i].n < n
  }

  /** Subexpressions between fixed texts. */
  function Enclosed(open: seq<Piece>, body: seq<Piece>, close: seq<Piece>, ghost n: Node): (ps: seq<Piece>)
    requires Below(open, n) && Below(body, n) && Below(close, n)
    ensures Below(ps, n)
  {
    open + body + close
  }

  lemma SubsBelow(ps: seq<Piece>, ns: seq<Node>, n: Node)
    requires SubsOf(ps, ns) && forall i | 0 <= i < |ns| :: ns[i] < n
    ensures Below(ps, n)
  {
  }

  /** Nodes with a list of subexpressions. */
  function ListPieces(n: Node): (ps: seq<Piece>)
    requires n.ArrayRef? || n.Func? || n.Junction? || n.ArrayExpr?
    ensures Below(ps, n)
  {
    match n
    case ArrayRef(arr, lower, upper) => ArrayRefPieces(n)
    case Func(name, variadic, args) =>
      var body := Separated(args, ", ", if variadic then "VARIADIC " else "");
      SubsBelow(body, args, n);
      Enclosed([Say(name), Say("(")], body, [Say(")")], n)
    case Junction(conjunction, args) =>
      var body := Separated(args, if conjunction then " AND " else " OR ", "");
      SubsBelow(body, args, n);
      Enclosed([Say("(")], body, [Say(")")], n)
    case ArrayExpr(elements, typ) =>
      var body := Separated(elements, ", ", "");
      SubsBelow(body, elements, n);
      Enclosed([Say("ARRAY[")], body, if elements == [] then [Say("]"), Say("::" + typ)] else [Say("]")], n)
  }

  function ArrayRefPieces(n: Node): (ps: seq<Piece>)
    requires n.ArrayRef?
    ensures Below(ps, n)
  {
    var body := Subscripts(n.lower, n.upper);
    SubsBelow(body, n.lower + n.upper, n);
    var arr := if IsVar(n.arr) then [Say("("), Sub(n.arr)] else [Say("("), Say("("), Sub(n.arr), Say(")")];
    Enclosed(arr, body, [Say(")")], n)
  }

  /** The per-node printers. */
  function Pieces(n: Node): (ps: seq<Piece>)
    ensures Below(ps, n)
  {
    match n
    case Column(text) => [Say(text)]
    case SubqueryColumn(relno, colno) => [Say("s" + Digits(relno) + ".c" + Digits(colno))]
    case OuterVar(_, _, _) => []
    case Const(text) => [Say(text)]
    case Param(_, _) => []
    case ImplicitCast(arg) => [Sub(arg)]
    case ExplicitCast(arg, typ) => [Sub(arg), Say("::" + typ)]
    case Postfix(left, op) => [Say("("), Sub(left), Say(" "), Say(op), Say(")")]
    case Prefix(op, right) => [Say("("), Say(op), Say(" "), Sub(right), Say(")")]
    case Infix(left, op, right) => [Say("("), Sub(left), Say(" "), Say(op), Say(" "), Sub(right), Say(")")]
    case Distinct(left, right) => [Say("("), Sub(left), Say(" IS DISTINCT FROM "), Sub(right), Say(")")]
    case ScalarArrayOp(left, op, useOr, right) =>
      [Say("("), Sub(left), Say(" "), Say(op), Say(if useOr then " ANY (" else " ALL ("), Sub(right), Say(")"), Say(")")]
    case RelabelType(arg, cast) => if cast.None? then [Sub(arg)] else [Sub(arg), Say("::" + cast.value)]
    case Not(arg) => [Say("(NOT "), Sub(arg), Say(")")]
    case NullTest(arg, isNull, asRow) =>
      [Say("("), Sub(arg),
       Say(if asRow then (if isNull then " IS NOT DISTINCT FROM NULL)" else " IS DISTINCT FROM NULL)")
           else if isNull then " IS NULL)" else " IS NOT NULL)")]
    case Aggref => []
    case _ => ListPieces(n)
  }

  // ---- Printing with a growing parameter list ----

  /** Position of the first equal element, or one past the end. */
  function IndexOf(n: Node, params: seq<Node>): (i: nat)
    ensures i <= |params|
    ensures i < |params| ==> params[i] == n
    ensures forall k | 0 <= k < i :: params[k] != n
  {
    if params == [] then 0 else if params[0] == n then 0 else 1 + IndexOf(n, params[1..])
  }

  function WithParam(n: Node, params: seq<Node>): seq<Node> {
    if n in params then params else params + [n]
  }

  datatype Out = Out(tokens: seq<Token>, params: seq<Node>)

  /** The text of n and the parameter list afterwards. */
  ghost function Print(n: Node, params: seq<Node>): Out
    decreases n
  {
    if IsRemoteValue(n) then Out([Remote(IndexOf(n, params) + 1, n.typ)], WithParam(n, params))
    else PrintPieces(n, Pieces(n), params)
  }

  ghost function PrintPieces(bound: Node, ps: seq<Piece>, params: seq<Node>): Out
    requires Below(ps, bound)
    decreases bound, |ps|
  {
    if ps == [] then Out([], params)
    else
      var before := PrintPieces(bound, ps[..|ps| - 1], params);
      var last := PrintPiece(bound, ps[|ps| - 1], before.params);
      Out(before.tokens + last.tokens, last.params)
  }

  ghost function PrintPiece(bound: Node, p: Piece, params: seq<Node>): Out
    requires p.Sub? ==> p.n < bound
    decreases bound, 0
  {
    match p
    case Say(s) => Out([Text(s)], params)
    case Sub(n) => Print(n, params)
  }

  // ---- EXPLAIN ----

  function Masked(t: Token): Token {
    if t.Remote? then Placeholder(t.typ) else t
  }

  /** Tokens as EXPLAIN prints them. */
  function MaskedAll(ts: seq<Token>): seq<Token> {
    if ts == [] then [] else MaskedAll(ts[..|ts| - 1]) + [Masked(ts[|ts| - 1])]
  }

  /** In place of every number the placeholder of its type, and nothing else changed. */
  lemma {:induction false} MaskedAt(ts: seq<Token>, i: nat)
    requires i < |ts|
    ensures |MaskedAll(ts)| == |ts|
    ensures MaskedAll(ts)[i] == match ts[i]
                                case Remote(_, typ) => Placeholder(typ)
                                case other => other
    decreases |ts|
  {
    var init := ts[..|ts| - 1];
    if init != [] {
      MaskedAt(init, if i < |init| then i else 0);
    } else {
      assert MaskedAll(init) == [];
    }
  }

  lemma {:induction false} MaskedConcat(a: seq<Token>, b: seq<Token>)
    ensures MaskedAll(a + b) == MaskedAll(a) + MaskedAll(b)
    decreases |b|
  {
    if b == [] {
      assert a + b == a;
    } else {
      assert (a + b)[..|a + b| - 1] == a + b[..|b| - 1];
      MaskedConcat(a, b[..|b| - 1]);
    }
  }

  lemma MaskedOne(t: Token)
    ensures MaskedAll([t]) == [Masked(t)]
  {
    assert [t][..0] == [];
  }

  /** Without numbers, the text does not depend on the parameter list. */
  lemma {:induction false} MaskedIgnoresList(n: Node, p: seq<Node>, q: seq<Node>)
    ensures MaskedAll(Print(n, p).tokens) == MaskedAll(Print(n, q).tokens)
    decreases n
  {
    hide Pieces;
    if IsRemoteValue(n) {
      MaskedOne(Print(n, p).tokens[0]);
      MaskedOne(Print(n, q).tokens[0]);
    } else {
      MaskedPiecesIgnoreList(n, Pieces(n), p, q);
    }
  }

  lemma {:induction false} MaskedPiecesIgnoreList(bound: Node, ps: seq<Piece>, p: seq<Node>, q: seq<Node>)
    requires Below(ps, bound)
    ensures MaskedAll(PrintPieces(bound, ps, p).tokens) == MaskedAll(PrintPieces(bound, ps, q).tokens)
    decreases bound, |ps|
  {
    hide Print, MaskedAll;
    if ps != [] {
      var init, last := ps[..|ps| - 1], ps[|ps| - 1];
      MaskedPiecesIgnoreList(bound, init, p, q);
      var a, b := PrintPieces(bound, init, p), PrintPieces(bound, init, q);
      MaskedConcat(a.tokens, PrintPiece(bound, last, a.params).tokens);
      MaskedConcat(b.tokens, PrintPiece(bound, last, b.params).tokens);
      if last.Sub? { MaskedIgnoresList(last.n, a.params, b.params); }
    }
  }

  // ---- The printer as the source runs it ----

  /** deparse_expr_cxt: the output buffer and the parameter list, absent in EXPLAIN. */
  class Deparser {
    var buf: seq<Token>
    var params: seq<Node>
    const collecting: bool

    constructor (collecting: bool, params: seq<Node>)
      ensures buf == [] && this.params == params && this.collecting == collecting
    {
      buf, this.params, this.collecting := [], params, collecting;
    }

    /** The search of gcDeparseParam and gcDeparseVar. */
    method AppendRemoteValue(n: Node)
      requires IsRemoteValue(n)
      modifies this
      ensures Out(buf, params) == After(collecting, old(buf), old(params), Print(n, old(params)))
    {
      hide Print, IndexOf, MaskedAll;
      PrintsValue(n, params);
      if !collecting {
        MaskedOne(Remote(IndexOf(n, params) + 1, n.typ));
        buf := buf + [Placeholder(n.typ)];
        return;
      }
      var pindex := 0;
      var found := false;
      while !found && pindex < |params|
        invariant 0 <= pindex <= |params| && params == old(params) && buf == old(buf)
        invariant found ==> 0 < pindex && params[pindex - 1] == n && forall k | 0 <= k < pindex - 1 :: params[k] != n
        invariant !found ==> forall k | 0 <= k < pindex :: params[k] != n
      {
        if params[pindex] == n { found := true; }
        pindex := pindex + 1;
      }
      FirstIndex(n, params, if found then pindex - 1 else pindex);
      if !found {
        pindex := pindex + 1;
        params := params + [n];
      }
      buf := buf + [Remote(pindex, n.typ)];
    }

    /** gcDeparseExpr; in EXPLAIN mode the list stays as it is. */
    method DeparseExpr(n: Node)
      modifies this
      ensures Out(buf, params) == After(collecting, old(buf), old(params), Print(n, old(params)))
      decreases n, 1
    {
      hide *;
      if IsRemoteValue(n) {
        AppendRemoteValue(n);
        return;
      }
      var ps := Pieces(n);
      ghost var before, start := buf, params;
      NothingPrinted(collecting, before, start, n);
      assert ps[..0] == [];
      for i := 0 to |ps|
        invariant Below(ps, n) && Below(ps[..i], n)
        invariant Out(buf, params) == After(collecting, before, start, PrintPieces(n, ps[..i], start))
      {
        OneMorePrinted(collecting, before, start, n, ps, i);
        DeparsePiece(n, ps[i]);
      }
      assert ps[..|ps|] == ps;
      PrintIsPieces(n, start);
    }

    method DeparsePiece(bound: Node, p: Piece)
      requires p.Sub? ==> p.n < bound
      modifies this
      ensures Out(buf, params) == After(collecting, old(buf), old(params), PrintPiece(bound, p, old(params)))
      decreases bound, 0
    {
      hide Print, MaskedAll;
      match p
      case Say(s) =>
        MaskedOne(Text(s));
        buf := buf + [Text(s)];
      case Sub(n) =>
        DeparseExpr(n);
    }
  }

  lemma {:induction false} PrintsValue(n: Node, params: seq<Node>)
    requires IsRemoteValue(n)
    ensures Print(n, params) == Out([Remote(IndexOf(n, params) + 1, n.typ)], WithParam(n, params))
  {
  }

  /** The output and list once `out` is printed after `before`. */
  ghost function After(collecting: bool, before: seq<Token>, start: seq<Node>, out: Out): Out {
    if collecting then Out(before + out.tokens, out.params) else Out(before + MaskedAll(out.tokens), start)
  }

  lemma {:induction false} NothingPrinted(collecting: bool, before: seq<Token>, start: seq<Node>, n: Node)
    ensures Below([], n) && After(collecting, before, start, PrintPieces(n, [], start)) == Out(before, start)
  {
  }

  lemma {:induction false} PrintIsPieces(n: Node, params: seq<Node>)
    requires !IsRemoteValue(n)
    ensures Print(n, params) == PrintPieces(n, Pieces(n), params)
  {
  }

  lemma {:induction false} OneMorePrinted(collecting: bool, before: seq<Token>, start: seq<Node>, n: Node, ps: seq<Piece>, i: nat)
    requires Below(ps, n) && i < |ps|
    ensures Below(ps[..i], n) && Below(ps[..i + 1], n) && (ps[i].Sub? ==> ps[i].n < n)
    ensures var so := After(collecting, before, start, PrintPieces(n, ps[..i], start));
            After(collecting, so.tokens, so.params, PrintPiece(n, ps[i], so.params))
            == After(collecting, before, start, PrintPieces(n, ps[..i + 1], start))
  {
    hide Print, PrintPiece, PrintPieces, MaskedAll, Below;
    PrefixesBelow(n, ps, i);
    UnfoldPrint(n, ps, i, start);
    var so := PrintPieces(n, ps[..i], start);
    var last := PrintPiece(n, ps[i], so.params);
    MaskedConcat(so.tokens, last.tokens);
    MaskedPieceIgnoresList(n, ps[i], start, so.params);
    Associative(before, so.tokens, last.tokens);
    Associative(before, MaskedAll(so.tokens), MaskedAll(last.tokens));
  }

  lemma PrefixesBelow(n: Node, ps: seq<Piece>, i: nat)
    requires Below(ps, n) && i < |ps|
    ensures Below(ps[..i], n) && Below(ps[..i + 1], n) && (ps[i].Sub? ==> ps[i].n < n)
  {
  }

  lemma {:induction false} UnfoldPrint(n: Node, ps: seq<Piece>, i: nat, params: seq<Node>)
    requires Below(ps, n) && i < |ps| && Below(ps[..i], n) && Below(ps[..i + 1], n)
    ensures var so := PrintPieces(n, ps[..i], params);
            var last := PrintPiece(n, ps[i], so.params);
            PrintPieces(n, ps[..i + 1], params) == Out(so.tokens + last.tokens, last.params)
  {
    hide Print, PrintPiece, Pieces;
    assert ps[..i + 1][..i] == ps[..i] && ps[..i + 1][i] == ps[i];
  }

  lemma Associative(a: seq<Token>, b: seq<Token>, c: seq<Token>)
    ensures a + b + c == a + (b + c)
  {
  }

  lemma {:induction false} MaskedPieceIgnoresList(bound: Node, p: Piece, params: seq<Node>, q: seq<Node>)
    requires p.Sub? ==> p.n < bound
    ensures MaskedAll(PrintPiece(bound, p, params).tokens) == MaskedAll(PrintPiece(bound, p, q).tokens)
  {
    hide Print, MaskedAll;
    if p.Sub? { MaskedIgnoresList(p.n, params, q); }
  }

  lemma {:induction false} FirstIndex(n: Node, params: seq<Node>, i: nat)
    requires i <= |params| && (forall k | 0 <= k < i :: params[k] != n) && (i < |params| ==> params[i] == n)
    ensures IndexOf(n, params) == i
    ensures n in params <==> i < |params|
  {
  }

  // ---- Properties of whole deparses ----

  ghost predicate NoDuplicates(params: seq<Node>) {
    forall i, j | 0 <= i < j < |params| :: params[i] != params[j]
  }

  /** The list only grows at its end and stays free of duplicates. */
  lemma {:induction false} ListOnlyGrows(n: Node, params: seq<Node>)
    ensures params <= Print(n, params).params
    ensures NoDuplicates(params) ==> NoDuplicates(Print(n, params).params)
    decreases n
  {
    hide Pieces;
    if !IsRemoteValue(n) { ListOnlyGrowsPieces(n, Pieces(n), params); }
  }

  lemma {:induction false} ListOnlyGrowsPieces(bound: Node, ps: seq<Piece>, params: seq<Node>)
    requires Below(ps, bound)
    ensures params <= PrintPieces(bound, ps, params).params
    ensures NoDuplicates(params) ==> NoDuplicates(PrintPieces(bound, ps, params).params)
    decreases bound, |ps|
  {
    hide NoDuplicates, Print;
    if ps != [] {
      var init, last := ps[..|ps| - 1], ps[|ps| - 1];
      ListOnlyGrowsPieces(bound, init, params);
      if last.Sub? { ListOnlyGrows(last.n, PrintPieces(bound, init, params).params); }
    }
  }

  /** The remote values among the pieces an expression is printed from. */
  ghost function PrintedValues(n: Node): seq<Node>
    decreases n
  {
    if IsRemoteValue(n) then [n] else PrintedValuesOf(n, Pieces(n))
  }

  ghost function PrintedValuesOf(bound: Node, ps: seq<Piece>): seq<Node>
    requires Below(ps, bound)
    decreases bound, |ps|
  {
    if ps == [] then []
    else
      var last := ps[|ps| - 1];
      PrintedValuesOf(bound, ps[..|ps| - 1]) + if last.Sub? then PrintedValues(last.n) else []
  }

  /** The remote references among the tokens, in order. */
  ghost function References(tokens: seq<Token>): seq<Token> {
    if tokens == [] then []
    else
      var last := tokens[|tokens| - 1];
      References(tokens[..|tokens| - 1]) + if last.Remote? then [last] else []
  }

  lemma {:induction false} ReferencesConcat(a: seq<Token>, b: seq<Token>)
    ensures References(a + b) == References(a) + References(b)
    decreases |b|
  {
    if b == [] {
      assert a + b == a;
    } else {
      assert (a + b)[..|a + b| - 1] == a + b[..|b| - 1];
      ReferencesConcat(a, b[..|b| - 1]);
    }
  }

  /** Reference i of the tokens is $k where element k of the list is value i. */
  ghost predicate Denote(refs: seq<Token>, values: seq<Node>, params: seq<Node>) {
    && |refs| == |values|
    && forall i | 0 <= i < |refs| ::
         refs[i].Remote? && 1 <= refs[i].k <= |params| && params[refs[i].k - 1] == values[i]
  }

  lemma DenoteConcat(r: seq<Token>, v: seq<Node>, p: seq<Node>, r': seq<Token>, v': seq<Node>, p': seq<Node>)
    requires Denote(r, v, p) && Denote(r', v', p') && p <= p'
    ensures Denote(r + r', v + v', p')
  {
  }

  /** Every printed $k denotes element k of the finished list: the very value that
      stands at that place of the expression. */
  lemma {:induction false} NumbersDenotePrinted(n: Node, params: seq<Node>)
    ensures Denote(References(Print(n, params).tokens), PrintedValues(n), Print(n, params).params)
    decreases n
  {
    hide Pieces, PrintPieces, PrintedValuesOf, References, Denote;
    if IsRemoteValue(n) {
      NumberDenotesValue(n, params);
    } else {
      NumbersDenotePrintedOf(n, Pieces(n), params);
    }
  }

  lemma {:induction false} NumberDenotesValue(n: Node, params: seq<Node>)
    requires IsRemoteValue(n)
    ensures Denote(References([Remote(IndexOf(n, params) + 1, n.typ)]), [n], WithParam(n, params))
  {
    hide IndexOf, References;
    OneReference(Remote(IndexOf(n, params) + 1, n.typ));
  }

  lemma {:induction false} OneReference(t: Token)
    requires t.Remote?
    ensures References([t]) == [t]
  {
    assert [t][..0] == [];
  }

  lemma {:induction false} NumbersDenotePrintedOf(bound: Node, ps: seq<Piece>, params: seq<Node>)
    requires Below(ps, bound)
    ensures var out := PrintPieces(bound, ps, params);
            Denote(References(out.tokens), PrintedValuesOf(bound, ps), out.params)
    decreases bound, |ps|
  {
    hide Print, PrintedValues, Denote;
    if ps == [] {
      DenoteNothing(params);
    } else {
      var init, last := ps[..|ps| - 1], ps[|ps| - 1];
      NumbersDenotePrintedOf(bound, init, params);
      var before := PrintPieces(bound, init, params);
      var tail := PrintPiece(bound, last, before.params);
      ReferencesConcat(before.tokens, tail.tokens);
      match last
      case Say(s) =>
        assert [Text(s)][..0] == [];
        assert References([Text(s)]) == [];
        DenoteNothing(before.params);
        DenoteConcat(References(before.tokens), PrintedValuesOf(bound, init), before.params, [], [], before.params);
      case Sub(n) =>
        NumbersDenotePrinted(n, before.params);
        ListOnlyGrows(n, before.params);
        DenoteConcat(References(before.tokens), PrintedValuesOf(bound, init), before.params,
                     References(tail.tokens), PrintedValues(n), tail.params);
    }
  }

  lemma DenoteNothing(params: seq<Node>)
    ensures Denote([], [], params)
  {
  }

  /** Printing again over the finished list, or any extension of it, appends nothing
      and prints the same tokens. */
  lemma {:induction false} ReprintIsStable(n: Node, params: seq<Node>, finished: seq<Node>)
    requires Print(n, params).params <= finished
    ensures Print(n, finished) == Out(Print(n, params).tokens, finished)
    decreases n
  {
    hide Pieces;
    if IsRemoteValue(n) {
      var i := IndexOf(n, params);
      FirstIndex(n, params, i);
      var now := WithParam(n, params);
      assert now[i] == n && forall k | 0 <= k < i :: now[k] == params[k] != n;
      assert finished[i] == n && forall k | 0 <= k < i :: finished[k] == now[k];
      FirstIndex(n, finished, i);
    } else {
      ReprintPiecesIsStable(n, Pieces(n), params, finished);
    }
  }

  lemma {:induction false} ReprintPiecesIsStable(bound: Node, ps: seq<Piece>, params: seq<Node>, finished: seq<Node>)
    requires Below(ps, bound) && PrintPieces(bound, ps, params).params <= finished
    ensures PrintPieces(bound, ps, finished) == Out(PrintPieces(bound, ps, params).tokens, finished)
    decreases bound, |ps|
  {
    hide Print;
    if ps != [] {
      var init, last := ps[..|ps| - 1], ps[|ps| - 1];
      var middle := PrintPieces(bound, init, params).params;
      if last.Sub? {
        ListOnlyGrows(last.n, middle);
        ReprintIsStable(last.n, middle, finished);
      }
      ReprintPiecesIsStable(bound, init, params, finished);
    }
  }

  function Value(s: string): nat
    requires forall i | 0 <= i < |s| :: '0' <= s[i] <= '9'
  {
    if s == "" then 0 else 10 * Value(s[..|s| - 1]) + (s[|s| - 1] - '0') as nat
  }

  /** Digits are decimal. */
  lemma {:induction false} DigitsAreDecimal(k: nat)
    ensures (forall i | 0 <= i < |Digits(k)| :: '0' <= Digits(k)[i] <= '9') && Value(Digits(k)) == k
  {
    if k >= 10 {
      DigitsAreDecimal(k / 10);
      var s := Digits(k);
      assert s[..|s| - 1] == Digits(k / 10);
    } else {
      var s := Digits(k);
      assert s[..|s| - 1] == "";
    }
  }
}
