/** Key algebra of fixed-size btree_gist keys
    (contrib/btree_gist/btree_utils_num.cpp): closed intervals of an ordered
    type whose distance is the absolute difference. */
module NumKey {
  import opened Entries

  datatype Interval = Interval(lower: real, upper: real)

  datatype Strategy = Less | LessEqual | Equal | GreaterEqual | Greater | NotEqual

  /** gbt_num_consistent. */
  predicate Consistent(key: Interval, q: real, strategy: Strategy, isLeaf: bool) {
    match strategy
    case LessEqual => q >= key.lower
    case Less => if isLeaf then q > key.lower else q >= key.lower
    case Equal => if isLeaf then q == key.lower else key.lower <= q <= key.upper
    case Greater => if isLeaf then q < key.upper else q <= key.upper
    case GreaterEqual => q <= key.upper
    case NotEqual => !(q == key.lower && q == key.upper)
  }

  /** Row semantics of the six operators, independent of any key. */
  ghost predicate Satisfies(v: real, q: real, strategy: Strategy) {
    match strategy
    case Less => v < q
    case LessEqual => v <= q
    case Equal => v == q
    case GreaterEqual => v >= q
    case Greater => v > q
    case NotEqual => v != q
  }

  lemma LeafTestIsExact(v: real, q: real, strategy: Strategy)
    ensures Consistent(Interval(v, v), q, strategy, true) <==> Satisfies(v, q, strategy)
  {
  }

  /** Inner keys do not tell the strict comparisons from the others. */
  function Relaxed(strategy: Strategy): Strategy {
    match strategy
    case Less => LessEqual
    case Greater => GreaterEqual
    case _ => strategy
  }

  /** An inner key is descended into exactly when a value in its interval would satisfy
      the query, up to equality for the strict comparisons. */
  lemma InnerTestIsExact(key: Interval, q: real, strategy: Strategy)
    requires key.lower <= key.upper
    ensures Consistent(key, q, strategy, false) <==> exists v :: Contains(key, v) && Satisfies(v, q, Relaxed(strategy))
  {
    assert Contains(key, key.lower) && Contains(key, key.upper);
    if Consistent(key, q, strategy, false) {
      var v := match strategy
        case Less | LessEqual => key.lower
        case Equal => q
        case GreaterEqual | Greater => key.upper
        case NotEqual => if q == key.lower then key.upper else key.lower;
      assert Contains(key, v) && Satisfies(v, q, Relaxed(strategy));
    }
  }

  function Abs(x: real): real {
    if x < 0.0 then -x else x
  }

  /** gbt_num_distance. */
  function Distance(key: Interval, q: real): real {
    if q <= key.lower then Abs(q - key.lower)
    else if q >= key.upper then Abs(q - key.upper)
    else 0.0
  }

  /** The key distance is the distance to the nearest point of the interval. */
  lemma DistanceIsNearest(key: Interval, q: real)
    requires key.lower <= key.upper
    ensures forall x | Contains(key, x) :: Distance(key, q) <= Abs(q - x)
    ensures exists x :: Contains(key, x) && Distance(key, q) == Abs(q - x)
  {
    var x := if q <= key.lower then key.lower else if q >= key.upper then key.upper else q;
    assert Contains(key, x) && Distance(key, q) == Abs(q - x);
  }

  ghost predicate Contains(key: Interval, x: real) {
    key.lower <= x <= key.upper
  }

  ghost predicate Encloses(outer: Interval, inner: Interval) {
    outer.lower <= inner.lower && inner.upper <= outer.upper
  }

  /** Smallest interval around the given ones. */
  ghost predicate IsHull(out: Interval, parts: seq<Interval>) {
    && (forall i | 0 <= i < |parts| :: Encloses(out, parts[i]))
    && (exists i :: 0 <= i < |parts| && parts[i].lower == out.lower)
    && (exists i :: 0 <= i < |parts| && parts[i].upper == out.upper)
  }

  // ---- Routines ----

  /** gbt_num_bin_union, in place on the running union. */
  class Datum {
    var present: bool
    var lower: real
    var upper: real
    ghost var parts: seq<Interval>

    ghost predicate Valid()
      reads this
    {
      (present <==> parts != []) && (present ==> IsHull(Interval(lower, upper), parts))
    }

    constructor ()
      ensures Valid() && parts == []
    {
      present, lower, upper, parts := false, 0.0, 0.0, [];
    }

    method BinUnion(e: Interval)
      requires Valid()
      modifies this
      ensures Valid() && parts == old(parts) + [e]
    {
      if !present {
        present, lower, upper := true, e.lower, e.upper;
      } else {
        if lower > e.lower { lower := e.lower; }
        if upper < e.upper { upper := e.upper; }
      }
      parts := parts + [e];
      HullGrows(old(parts), old(Interval(lower, upper)), e, Interval(lower, upper));
    }
  }

  lemma HullGrows(parts: seq<Interval>, was: Interval, e: Interval, now: Interval)
    requires parts == [] ==> now == e
    requires parts != [] ==> IsHull(was, parts)
    requires parts != [] ==> now.lower == (if was.lower > e.lower then e.lower else was.lower)
    requires parts != [] ==> now.upper == (if was.upper < e.upper then e.upper else was.upper)
    ensures IsHull(now, parts + [e])
  {
    var all := parts + [e];
    assert all[|parts|] == e;
    if parts != [] {
      var i :| 0 <= i < |parts| && parts[i].lower == was.lower;
      var j :| 0 <= j < |parts| && parts[j].upper == was.upper;
      assert all[i] == parts[i] && all[j] == parts[j];
    }
  }

  /** gbt_num_union. */
  method Union(entries: seq<Interval>) returns (out: Interval)
    requires entries != []
    ensures IsHull(out, entries)
  {
    out := entries[0];
    HullGrows([], out, entries[0], out);
    assert entries[..1] == [] + [entries[0]];
    for i := 1 to |entries|
      invariant IsHull(out, entries[..i])
    {
      ghost var was := out;
      var c := entries[i];
      if out.lower > c.lower { out := out.(lower := c.lower); }
      if out.upper < c.upper { out := out.(upper := c.upper); }
      HullGrows(entries[..i], was, c, out);
      assert entries[..i + 1] == entries[..i] + [c];
    }
    assert entries[..|entries|] == entries;
  }

  /** The key comparison used for sorting: lower bounds first, then upper ones. */
  ghost predicate SortsBefore(a: Interval, b: Interval) {
    a.lower < b.lower || (a.lower == b.lower && a.upper <= b.upper)
  }

  lemma PositionInRange(order: seq<nat>, entries: seq<Interval>, i: nat)
    requires InRange(order, entries) && i < |order|
    ensures order[i] < |entries|
  {
  }

  lemma NoneAt(entries: seq<Interval>)
    ensures InRange([], entries) && At(entries, []) == []
  {
  }

  /** The loop that deals sorted positions to the two sides. */
  method DealOut(entries: seq<Interval>, order: seq<nat>)
    returns (left: seq<nat>, right: seq<nat>, ldatum: Datum, rdatum: Datum)
    requires InRange(order, entries)
    ensures left + right == order && |left| == |order| / 2
    ensures InRange(left, entries) && InRange(right, entries)
    ensures fresh(ldatum) && ldatum.Valid() && ldatum.parts == At(entries, left)
    ensures fresh(rdatum) && rdatum.Valid() && rdatum.parts == At(entries, right)
  {
    hide IsHull, InRange, At;
    NoneAt(entries);
    left, right := [], [];
    ldatum := new Datum();
    rdatum := new Datum();
    var maxoff := |order|;
    for i := 1 to maxoff + 1
      invariant left + right == order[..i - 1]
      invariant i - 1 <= maxoff / 2 ==> right == [] && |left| == i - 1
      invariant i - 1 > maxoff / 2 ==> |left| == maxoff / 2
      invariant InRange(left, entries) && InRange(right, entries)
      invariant fresh(ldatum) && fresh(rdatum) && ldatum != rdatum
      invariant ldatum.Valid() && ldatum.parts == At(entries, left)
      invariant rdatum.Valid() && rdatum.parts == At(entries, right)
    {
      var p := order[i - 1];
      PositionInRange(order, entries, i - 1);
      assert order[..i] == order[..i - 1] + [p];
      if i <= maxoff / 2 {
        AtNext(entries, left, p);
        ldatum.BinUnion(entries[p]);
        left := left + [p];
      } else {
        AtNext(entries, right, p);
        rdatum.BinUnion(entries[p]);
        right := right + [p];
      }
    }
    assert order[..maxoff] == order;
  }

  lemma SeparatedByLower(entries: seq<Interval>, left: seq<nat>, right: seq<nat>)
    requires InRange(left, entries) && InRange(right, entries)
    requires Separated(At(entries, left), At(entries, right), SortsBefore)
    ensures forall i, j | 0 <= i < |left| && 0 <= j < |right| :: entries[left[i]].lower <= entries[right[j]].lower
  {
    var l, r := At(entries, left), At(entries, right);
    forall i, j | 0 <= i < |left| && 0 <= j < |right| ensures entries[left[i]].lower <= entries[right[j]].lower {
      assert SortsBefore(l[i], r[j]);
    }
  }

  /** gbt_num_picksplit over positions 1..; order is what qsort made of them. */
  method PickSplit(entries: seq<Interval>, order: seq<nat>)
    returns (left: seq<nat>, right: seq<nat>, ldatum: Datum, rdatum: Datum)
    requires |entries| >= 2 && Sorted(entries, SortsBefore, order)
    ensures left + right == order && |left| <= |right| <= |left| + 1
    ensures InRange(left, entries) && InRange(right, entries)
    ensures Separated(At(entries, left), At(entries, right), SortsBefore)
    ensures forall i, j | 0 <= i < |left| && 0 <= j < |right| :: entries[left[i]].lower <= entries[right[j]].lower
    ensures fresh(ldatum) && ldatum.Valid() && ldatum.parts == At(entries, left)
    ensures fresh(rdatum) && rdatum.Valid() && rdatum.parts == At(entries, right)
  {
    hide SortsBefore;
    hide IsHull;
    left, right, ldatum, rdatum := DealOut(entries, order);
    SidesInOrder(entries, SortsBefore, order, left, right);
    SeparatedByLower(entries, left, right);
  }

  // ---- Histories of keys ----

  /** How a key came about: a stored value, or the union or split side of other
      keys. Growing a parent by an inserted entry is the union of the two. */
  datatype History = Leaf(v: real) | Formed(key: Interval, parts: seq<History>)

  ghost function Key(h: History): Interval {
    match h
    case Leaf(v) => Interval(v, v)
    case Formed(key, _) => key
  }

  ghost predicate Built(h: History) {
    match h
    case Leaf(_) => true
    case Formed(key, parts) =>
      && (forall c | c in parts :: Built(c))
      && IsHull(key, seq(|parts|, i requires 0 <= i < |parts| => Key(parts[i])))
  }

  ghost predicate Within(d: History, h: History) {
    d == h || (h.Formed? && exists i :: 0 <= i < |h.parts| && Within(d, h.parts[i]))
  }

  lemma {:induction false} AncestorEncloses(d: History, h: History)
    requires Built(h) && Within(d, h)
    ensures Encloses(Key(h), Key(d)) && Built(d)
  {
    if d != h {
      var i :| 0 <= i < |h.parts| && Within(d, h.parts[i]);
      AncestorEncloses(d, h.parts[i]);
      var keys := seq(|h.parts|, i requires 0 <= i < |h.parts| => Key(h.parts[i]));
      assert keys[i] == Key(h.parts[i]);
      assert Encloses(h.key, keys[i]);
    }
  }

  lemma {:induction false} KeyNotEmpty(h: History)
    requires Built(h)
    ensures Key(h).lower <= Key(h).upper
  {
    if h.Formed? {
      var keys := seq(|h.parts|, i requires 0 <= i < |h.parts| => Key(h.parts[i]));
      var i :| 0 <= i < |keys| && keys[i].lower == h.key.lower;
      KeyNotEmpty(h.parts[i]);
      assert keys[i] == Key(h.parts[i]) && Encloses(h.key, keys[i]);
    }
  }

  /** A row that satisfies the query is accepted by every key above it. */
  lemma {:induction false} NoRowLost(h: History, v: real, q: real, strategy: Strategy)
    requires Built(h) && Within(Leaf(v), h) && Satisfies(v, q, strategy)
    ensures Consistent(Key(h), q, strategy, false)
  {
    AncestorEncloses(Leaf(v), h);
  }

  /** Nearest-neighbour search may prune by key distance: it never grows downward. */
  lemma {:induction false} DistanceNeverExceedsDescendant(d: History, h: History, q: real)
    requires Built(h) && Within(d, h)
    ensures Distance(Key(h), q) <= Distance(Key(d), q)
  {
    AncestorEncloses(d, h);
    KeyNotEmpty(d);
  }
}
