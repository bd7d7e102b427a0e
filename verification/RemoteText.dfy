/** What the printed text of an expression is: the expression written out in SQL order,
    with each remote value as its number in the finished list. */
module RemoteText {
  import opened RemoteParams

  // ---- Writing out, without pieces, buffer or growing list ----

  /** The parts of n in the order SQL has them: say for the words, value for the remote
      values. */
  ghost function Write<T>(n: Node, say: string -> seq<T>, value: Node -> seq<T>): seq<T>
    decreases n
  {
    match n
    case Column(text) => say(text)
    case SubqueryColumn(relno, colno) => say("s" + Digits(relno) + ".c" + Digits(colno))
    case OuterVar(_, _, _) => value(n)
    case Const(text) => say(text)
    case Param(_, _) => value(n)
    case ArrayRef(arr, lower, upper) =>
      var target := Write(arr, say, value);
      say("(") + (if IsVar(arr) then target else say("(") + target + say(")"))
      + Brackets(WriteAll(lower, say, value), WriteAll(upper, say, value), say) + say(")")
    case ImplicitCast(arg) => Write(arg, say, value)
    case ExplicitCast(arg, typ) => Write(arg, say, value) + say("::" + typ)
    case Func(name, variadic, args) =>
      say(name) + say("(") + WriteList(args, ", ", if variadic then "VARIADIC " else "", say, value) + say(")")
    case Postfix(left, op) => say("(") + Write(left, say, value) + say(" ") + say(op) + say(")")
    case Prefix(op, right) => say("(") + say(op) + say(" ") + Write(right, say, value) + say(")")
    case Infix(left, op, right) =>
      say("(") + Write(left, say, value) + say(" ") + say(op) + say(" ") + Write(right, say, value) + say(")")
    case Distinct(left, right) =>
      say("(") + Write(left, say, value) + say(" IS DISTINCT FROM ") + Write(right, say, value) + say(")")
    case ScalarArrayOp(left, op, useOr, right) =>
      say("(") + Write(left, say, value) + say(" ") + say(op) + say(if useOr then " ANY (" else " ALL (")
      + Write(right, say, value) + say(")") + say(")")
    case RelabelType(arg, cast) =>
      Write(arg, say, value) + if cast.Some? then say("::" + cast.value) else []
    case Junction(conjunction, args) =>
      say("(") + WriteList(args, if conjunction then " AND " else " OR ", "", say, value) + say(")")
    case Not(arg) => say("(NOT ") + Write(arg, say, value) + say(")")
    case NullTest(arg, true, false) => say("(") + Write(arg, say, value) + say(" IS NULL)")
    case NullTest(arg, false, false) => say("(") + Write(arg, say, value) + say(" IS NOT NULL)")
    case NullTest(arg, true, true) => say("(") + Write(arg, say, value) + say(" IS NOT DISTINCT FROM NULL)")
    case NullTest(arg, false, true) => say("(") + Write(arg, say, value) + say(" IS DISTINCT FROM NULL)")
    case ArrayExpr(elements, typ) =>
      say("ARRAY[") + WriteList(elements, ", ", "", say, value) + say("]")
      + if elements == [] then say("::" + typ) else []
    case Aggref => []
  }

  /** All of ns with sep between them; last, unless empty, before the last one. */
  ghost function WriteList<T>(ns: seq<Node>, sep: string, last: string, say: string -> seq<T>,
                              value: Node -> seq<T>): seq<T>
    decreases ns
  {
    if ns == [] then []
    else if |ns| == 1 then (if last == "" then [] else say(last)) + Write(ns[0], say, value)
    else Write(ns[0], say, value) + say(sep) + WriteList(ns[1..], sep, last, say, value)
  }

  ghost function WriteAll<T>(ns: seq<Node>, say: string -> seq<T>, value: Node -> seq<T>): seq<seq<T>>
    decreases ns
  {
    if ns == [] then [] else [Write(ns[0], say, value)] + WriteAll(ns[1..], say, value)
  }

  /** One pair of brackets for each upper bound, with a lower bound while there are any. */
  ghost function Brackets<T>(lowers: seq<seq<T>>, uppers: seq<seq<T>>, say: string -> seq<T>): seq<T> {
    if uppers == [] then []
    else
      say("[") + (if lowers == [] then [] else lowers[0] + say(":")) + uppers[0] + say("]")
      + Brackets(if lowers == [] then [] else lowers[1..], uppers[1..], say)
  }

  // ---- Pieces written out ----

  ghost function WritePiece<T>(p: Piece, say: string -> seq<T>, value: Node -> seq<T>): seq<T> {
    match p
    case Say(s) => say(s)
    case Sub(n) => Write(n, say, value)
  }

  ghost function WritePieces<T>(ps: seq<Piece>, say: string -> seq<T>, value: Node -> seq<T>): seq<T> {
    if ps == [] then [] else WritePieces(ps[..|ps| - 1], say, value) + WritePiece(ps[|ps| - 1], say, value)
  }

  lemma {:induction false} WriteConcat<T>(ps: seq<Piece>, qs: seq<Piece>, say: string -> seq<T>, value: Node -> seq<T>)
    ensures WritePieces(ps + qs, say, value) == WritePieces(ps, say, value) + WritePieces(qs, say, value)
    decreases |qs|
  {
    hide WritePiece;
    if qs == [] {
      assert ps + qs == ps;
    } else {
      assert (ps + qs)[..|ps + qs| - 1] == ps + qs[..|qs| - 1];
      WriteConcat(ps, qs[..|qs| - 1], say, value);
    }
  }

  lemma {:induction false} WriteOne<T>(p: Piece, say: string -> seq<T>, value: Node -> seq<T>)
    ensures WritePieces([p], say, value) == WritePiece(p, say, value)
  {
    hide WritePiece;
    assert [p][..0] == [];
    assert WritePieces([p][..0], say, value) == [];
  }

  lemma {:induction false} WriteNext<T>(ps: seq<Piece>, p: Piece, say: string -> seq<T>, value: Node -> seq<T>)
    ensures WritePieces(ps + [p], say, value) == WritePieces(ps, say, value) + WritePiece(p, say, value)
  {
    hide WritePiece;
    assert (ps + [p])[..|ps|] == ps;
  }

  lemma WriteTwo<T>(a: Piece, b: Piece,
    say: string -> seq<T>, value: Node -> seq<T>)
    ensures WritePieces([a, b], say, value) ==
            WritePiece(a, say, value) + WritePiece(b, say, value)
  {
    hide WritePiece, WritePieces;
    WriteOne(a, say, value);
    WriteNext([a], b, say, value);
    assert [a] + [b] == [a, b];
  }

  lemma WriteThree<T>(a: Piece, b: Piece, c: Piece,
    say: string -> seq<T>, value: Node -> seq<T>)
    ensures WritePieces([a, b, c], say, value) ==
            WritePiece(a, say, value) + WritePiece(b, say, value) + WritePiece(c, say, value)
  {
    hide WritePiece, WritePieces;
    WriteTwo(a, b, say, value);
    WriteNext([a, b], c, say, value);
    assert [a, b] + [c] == [a, b, c];
  }

  lemma WriteFour<T>(a: Piece, b: Piece, c: Piece, d: Piece,
    say: string -> seq<T>, value: Node -> seq<T>)
    ensures WritePieces([a, b, c, d], say, value) ==
            WritePiece(a, say, value) + WritePiece(b, say, value) + WritePiece(c, say, value) + WritePiece(d, say, value)
  {
    hide WritePiece, WritePieces;
    WriteThree(a, b, c, say, value);
    WriteNext([a, b, c], d, say, value);
    assert [a, b, c] + [d] == [a, b, c, d];
  }

  lemma WriteFive<T>(a: Piece, b: Piece, c: Piece, d: Piece, e: Piece,
    say: string -> seq<T>, value: Node -> seq<T>)
    ensures WritePieces([a, b, c, d, e], say, value) ==
            WritePiece(a, say, value) + WritePiece(b, say, value) + WritePiece(c, say, value) + WritePiece(d, say, value) + WritePiece(e, say, value)
  {
    hide WritePiece, WritePieces;
    WriteFour(a, b, c, d, say, value);
    WriteNext([a, b, c, d], e, say, value);
    assert [a, b, c, d] + [e] == [a, b, c, d, e];
  }

  lemma WriteSix<T>(a: Piece, b: Piece, c: Piece, d: Piece, e: Piece, f: Piece,
    say: string -> seq<T>, value: Node -> seq<T>)
    ensures WritePieces([a, b, c, d, e, f], say, value) ==
            WritePiece(a, say, value) + WritePiece(b, say, value) + WritePiece(c, say, value) + WritePiece(d, say, value) + WritePiece(e, say, value) + WritePiece(f, say, value)
  {
    hide WritePiece, WritePieces;
    WriteFive(a, b, c, d, e, say, value);
    WriteNext([a, b, c, d, e], f, say, value);
    assert [a, b, c, d, e] + [f] == [a, b, c, d, e, f];
  }

  lemma WriteSeven<T>(a: Piece, b: Piece, c: Piece, d: Piece, e: Piece, f: Piece, g: Piece,
    say: string -> seq<T>, value: Node -> seq<T>)
    ensures WritePieces([a, b, c, d, e, f, g], say, value) ==
            WritePiece(a, say, value) + WritePiece(b, say, value) + WritePiece(c, say, value) + WritePiece(d, say, value) + WritePiece(e, say, value) + WritePiece(f, say, value) + WritePiece(g, say, value)
  {
    hide WritePiece, WritePieces;
    WriteSix(a, b, c, d, e, f, say, value);
    WriteNext([a, b, c, d, e, f], g, say, value);
    assert [a, b, c, d, e, f] + [g] == [a, b, c, d, e, f, g];
  }

  lemma WriteEight<T>(a: Piece, b: Piece, c: Piece, d: Piece, e: Piece, f: Piece, g: Piece, h: Piece,
    say: string -> seq<T>, value: Node -> seq<T>)
    ensures WritePieces([a, b, c, d, e, f, g, h], say, value) ==
            WritePiece(a, say, value) + WritePiece(b, say, value) + WritePiece(c, say, value) + WritePiece(d, say, value) + WritePiece(e, say, value) + WritePiece(f, say, value) + WritePiece(g, say, value) + WritePiece(h, say, value)
  {
    hide WritePiece, WritePieces;
    WriteSeven(a, b, c, d, e, f, g, say, value);
    WriteNext([a, b, c, d, e, f, g], h, say, value);
    assert [a, b, c, d, e, f, g] + [h] == [a, b, c, d, e, f, g, h];
  }

  /** Commas and connectives. */
  lemma {:induction false} SeparatedWrites<T>(ns: seq<Node>, sep: string, last: string,
                                              say: string -> seq<T>, value: Node -> seq<T>)
    ensures WritePieces(Separated(ns, sep, last), say, value) == WriteList(ns, sep, last, say, value)
    decreases |ns|
  {
    hide Write, WritePieces;
    WriteNone(say, value);
    if |ns| == 1 {
      assert Separated(ns, sep, last) == if last == "" then [Sub(ns[0])] else [Say(last), Sub(ns[0])];
      WriteOne(Sub(ns[0]), say, value);
      WriteTwo(Say(last), Sub(ns[0]), say, value);
    } else if |ns| > 1 {
      WriteTwo(Sub(ns[0]), Say(sep), say, value);
      SeparatedWrites(ns[1..], sep, last, say, value);
      WriteConcat([Sub(ns[0]), Say(sep)], Separated(ns[1..], sep, last), say, value);
    }
  }

  lemma WriteNone<T>(say: string -> seq<T>, value: Node -> seq<T>)
    ensures WritePieces([], say, value) == []
  {
  }

  lemma {:induction false} SubscriptsWrite<T>(lower: seq<Node>, upper: seq<Node>,
                                              say: string -> seq<T>, value: Node -> seq<T>)
    ensures WritePieces(Subscripts(lower, upper), say, value)
         == Brackets(WriteAll(lower, say, value), WriteAll(upper, say, value), say)
    decreases |upper|
  {
    hide Write, WritePieces, Subscript;
    WriteNone(say, value);
    if upper != [] {
      SubscriptsWrite(Rest(lower), Rest(upper), say, value);
      WriteConcat(Subscript(lower, upper), Subscripts(Rest(lower), Rest(upper)), say, value);
      SubscriptWrites(lower, upper, say, value);
    }
  }

  lemma {:induction false} SubscriptWrites<T>(lower: seq<Node>, upper: seq<Node>,
                                              say: string -> seq<T>, value: Node -> seq<T>)
    requires upper != []
    ensures WritePieces(Subscript(lower, upper), say, value)
         == say("[") + (if lower == [] then [] else Write(lower[0], say, value) + say(":"))
            + Write(upper[0], say, value) + say("]")
  {
    hide Write, WritePieces;
    if lower == [] {
      WriteThree(Say("["), Sub(upper[0]), Say("]"), say, value);
    } else {
      WriteFive(Say("["), Sub(lower[0]), Say(":"), Sub(upper[0]), Say("]"), say, value);
    }
  }

  lemma {:induction false} ListWrites<T>(n: Node, say: string -> seq<T>, value: Node -> seq<T>)
    requires n.Func? || n.Junction? || n.ArrayExpr?
    ensures WritePieces(Pieces(n), say, value) == Write(n, say, value)
  {
    hide WritePieces, WriteList, Separated, Below, SubsOf;
    match n
    case Func(name, variadic, args) =>
      var last := if variadic then "VARIADIC " else "";
      SeparatedWrites(args, ", ", last, say, value);
      EnclosedWrites([Say(name), Say("(")], Separated(args, ", ", last), [Say(")")], say, value);
      WriteTwo(Say(name), Say("("), say, value);
      WriteOne(Say(")"), say, value);
    case Junction(conjunction, args) =>
      var sep := if conjunction then " AND " else " OR ";
      SeparatedWrites(args, sep, "", say, value);
      EnclosedWrites([Say("(")], Separated(args, sep, ""), [Say(")")], say, value);
      WriteOne(Say("("), say, value);
      WriteOne(Say(")"), say, value);
    case ArrayExpr(elements, typ) =>
      SeparatedWrites(elements, ", ", "", say, value);
      var close := if elements == [] then [Say("]"), Say("::" + typ)] else [Say("]")];
      EnclosedWrites([Say("ARRAY[")], Separated(elements, ", ", ""), close, say, value);
      WriteOne(Say("ARRAY["), say, value);
      WriteOne(Say("]"), say, value);
      WriteTwo(Say("]"), Say("::" + typ), say, value);
  }

  lemma {:induction false} EnclosedWrites<T>(open: seq<Piece>, body: seq<Piece>, close: seq<Piece>,
                          say: string -> seq<T>, value: Node -> seq<T>)
    ensures WritePieces(open + body + close, say, value)
         == WritePieces(open, say, value) + WritePieces(body, say, value) + WritePieces(close, say, value)
  {
    hide WritePieces;
    WriteConcat(open, body, say, value);
    WriteConcat(open + body, close, say, value);
  }

  lemma {:induction false} ArrayRefWrites<T>(n: Node, say: string -> seq<T>, value: Node -> seq<T>)
    requires n.ArrayRef?
    ensures WritePieces(Pieces(n), say, value) == Write(n, say, value)
  {
    hide WritePieces, Subscripts, Below, SubsOf, Brackets, WriteAll;
    var arr := if IsVar(n.arr) then [Say("("), Sub(n.arr)] else [Say("("), Say("("), Sub(n.arr), Say(")")];
    SubscriptsWrite(n.lower, n.upper, say, value);
    EnclosedWrites(arr, Subscripts(n.lower, n.upper), [Say(")")], say, value);
    TargetWrites(n.arr, say, value);
    WriteOne(Say(")"), say, value);
  }

  lemma {:induction false} TargetWrites<T>(arr: Node, say: string -> seq<T>, value: Node -> seq<T>)
    ensures var target := Write(arr, say, value);
            WritePieces(if IsVar(arr) then [Say("("), Sub(arr)] else [Say("("), Say("("), Sub(arr), Say(")")], say, value)
            == say("(") + if IsVar(arr) then target else say("(") + target + say(")")
  {
    hide Write, WritePieces, IsVar;
    WriteTwo(Say("("), Sub(arr), say, value);
    WriteFour(Say("("), Say("("), Sub(arr), Say(")"), say, value);
  }

  lemma {:induction false} OperatorWrites<T>(n: Node, say: string -> seq<T>, value: Node -> seq<T>)
    requires n.Postfix? || n.Prefix? || n.Infix? || n.Distinct? || n.ScalarArrayOp?
    ensures WritePieces(Pieces(n), say, value) == Write(n, say, value)
  {
    hide WritePieces, ListPieces, Below;
    match n
    case Postfix(left, op) => WriteFive(Say("("), Sub(left), Say(" "), Say(op), Say(")"), say, value);
    case Prefix(op, right) => WriteFive(Say("("), Say(op), Say(" "), Sub(right), Say(")"), say, value);
    case Infix(left, op, right) =>
      WriteSeven(Say("("), Sub(left), Say(" "), Say(op), Say(" "), Sub(right), Say(")"), say, value);
    case Distinct(left, right) =>
      WriteFive(Say("("), Sub(left), Say(" IS DISTINCT FROM "), Sub(right), Say(")"), say, value);
    case ScalarArrayOp(left, op, useOr, right) =>
      WriteEight(Say("("), Sub(left), Say(" "), Say(op), Say(if useOr then " ANY (" else " ALL ("),
                 Sub(right), Say(")"), Say(")"), say, value);
  }

  /** The pieces of a node are the node written out. */
  lemma {:induction false} PiecesWrite<T>(n: Node, say: string -> seq<T>, value: Node -> seq<T>)
    requires !IsRemoteValue(n)
    ensures WritePieces(Pieces(n), say, value) == Write(n, say, value)
  {
    hide WritePieces, ListPieces, Below;
    match n
    case Column(text) => WriteOne(Say(text), say, value);
    case SubqueryColumn(relno, colno) => WriteOne(Say("s" + Digits(relno) + ".c" + Digits(colno)), say, value);
    case Const(text) => WriteOne(Say(text), say, value);
    case ImplicitCast(arg) => WriteOne(Sub(arg), say, value);
    case ExplicitCast(arg, typ) => WriteTwo(Sub(arg), Say("::" + typ), say, value);
    case Postfix(_, _) => OperatorWrites(n, say, value);
    case Prefix(_, _) => OperatorWrites(n, say, value);
    case Infix(_, _, _) => OperatorWrites(n, say, value);
    case Distinct(_, _) => OperatorWrites(n, say, value);
    case ScalarArrayOp(_, _, _, _) => OperatorWrites(n, say, value);
    case RelabelType(arg, cast) =>
      WriteOne(Sub(arg), say, value);
      if cast.Some? { WriteTwo(Sub(arg), Say("::" + cast.value), say, value); }
    case Not(arg) => WriteThree(Say("(NOT "), Sub(arg), Say(")"), say, value);
    case NullTest(arg, isNull, asRow) =>
      WriteThree(Say("("), Sub(arg),
                 Say(if asRow then (if isNull then " IS NOT DISTINCT FROM NULL)" else " IS DISTINCT FROM NULL)")
                     else if isNull then " IS NULL)" else " IS NOT NULL)"), say, value);
    case Aggref => WriteNone(say, value);
    case ArrayRef(_, _, _) => ArrayRefWrites(n, say, value);
    case Func(_, _, _) => ListWrites(n, say, value);
    case Junction(_, _) => ListWrites(n, say, value);
    case ArrayExpr(_, _) => ListWrites(n, say, value);
  }

  // ---- The text ----

  function Words(s: string): seq<Token> {
    [Text(s)]
  }

  /** $k for the value at place k of the list. */
  ghost function Numbered(params: seq<Node>): Node -> seq<Token> {
    v => if IsRemoteValue(v) then [Remote(IndexOf(v, params) + 1, v.typ)] else []
  }

  /** n in SQL, its remote values numbered by their places in the list. */
  ghost function Sql(n: Node, params: seq<Node>): seq<Token> {
    Write(n, Words, Numbered(params))
  }

  /** The remote values of n from left to right. */
  ghost function Values(n: Node): seq<Node> {
    Write(n, NoWords, Itself)
  }

  function NoWords(s: string): seq<Node> {
    []
  }

  function Itself(v: Node): seq<Node> {
    [v]
  }

  lemma {:induction false} PrintIsSql(n: Node, params: seq<Node>)
    requires Print(n, params).params == params
    ensures Print(n, params).tokens == Sql(n, params)
    decreases n
  {
    hide Pieces, WritePieces, PrintPieces;
    if !IsRemoteValue(n) {
      PrintPiecesIsSql(n, Pieces(n), params);
      PiecesWrite(n, Words, Numbered(params));
    }
  }

  lemma {:induction false} PrintPiecesIsSql(bound: Node, ps: seq<Piece>, params: seq<Node>)
    requires Below(ps, bound) && PrintPieces(bound, ps, params).params == params
    ensures PrintPieces(bound, ps, params).tokens == WritePieces(ps, Words, Numbered(params))
    decreases bound, |ps|
  {
    hide Print, Write, Numbered;
    if ps != [] {
      var init, last := ps[..|ps| - 1], ps[|ps| - 1];
      var middle := PrintPieces(bound, init, params).params;
      ListOnlyGrowsPieces(bound, init, params);
      if last.Sub? { ListOnlyGrows(last.n, middle); }
      assert middle == params;
      PrintPiecesIsSql(bound, init, params);
      if last.Sub? { PrintIsSql(last.n, params); }
    }
  }

  /** What is printed, starting from any list, is the expression in SQL with its remote
      values numbered by the finished list. */
  lemma {:induction false} PrintsSql(n: Node, params: seq<Node>)
    ensures Print(n, params).tokens == Sql(n, Print(n, params).params)
  {
    hide Print, Sql;
    var finished := Print(n, params).params;
    ReprintIsStable(n, params, finished);
    PrintIsSql(n, finished);
  }

  lemma {:induction false} ValuesArePrinted(n: Node)
    ensures Values(n) == PrintedValues(n)
    decreases n
  {
    hide Pieces, WritePieces, PrintedValuesOf;
    if !IsRemoteValue(n) {
      PiecesOfValues(n, Pieces(n));
      PiecesWrite(n, NoWords, Itself);
    }
  }

  lemma {:induction false} PiecesOfValues(bound: Node, ps: seq<Piece>)
    requires Below(ps, bound)
    ensures WritePieces(ps, NoWords, Itself) == PrintedValuesOf(bound, ps)
    decreases bound, |ps|
  {
    hide PrintedValues, Write;
    if ps != [] {
      PiecesOfValues(bound, ps[..|ps| - 1]);
      if ps[|ps| - 1].Sub? { ValuesArePrinted(ps[|ps| - 1].n); }
    }
  }

  /** Every printed $k denotes element k of the finished list: the very value that
      stands at that place of the expression, from left to right. */
  lemma {:induction false} NumbersDenoteValues(n: Node, params: seq<Node>)
    ensures Denote(References(Print(n, params).tokens), Values(n), Print(n, params).params)
  {
    hide Print, Values, Denote, References;
    NumbersDenotePrinted(n, params);
    ValuesArePrinted(n);
  }
}
