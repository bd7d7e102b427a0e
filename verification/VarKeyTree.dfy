/** Whole histories of bytea keys: any nesting of unions and of splits, of pages of
    leaf entries or of internal ones. */
module VarKeyTree {
  import opened ByteString
  import opened VarKey

  /** How a key came about. A split side joins its entries and is truncated at a
      length chosen together with its sibling. */
  datatype History =
    | Leaf(v: Bytes)
    | Union(parts: seq<History>)
    | SplitSide(parts: seq<History>, cpfLength: nat)

  ghost function KeyOf(h: History): Range
    decreases h, 0
  {
    match h
    case Leaf(v) => Range(v, v)
    case Union(parts) => if parts == [] then Range([], []) else UnionKey(KeysOf(parts))
    case SplitSide(parts, n) => if parts == [] then Range([], []) else NodeTruncate(JoinAll(KeysOf(parts)), n)
  }

  ghost function KeysOf(hs: seq<History>): (ks: seq<Range>)
    ensures |ks| == |hs|
    decreases hs, 1
  {
    if hs == [] then [] else KeysOf(hs[..|hs| - 1]) + [KeyOf(hs[|hs| - 1])]
  }

  /** Nothing is formed from nothing, and the length of a split side comes from the
      longer common prefix of the two sides. */
  ghost predicate Proper(h: History) {
    match h
    case Leaf(_) => true
    case Union(parts) => parts != [] && AllProper(parts)
    case SplitSide(parts, n) => parts != [] && AllProper(parts) && n >= Shared(JoinAll(KeysOf(parts))) + 1
  }

  ghost predicate AllProper(hs: seq<History>) {
    forall i | 0 <= i < |hs| :: Proper(hs[i])
  }

  lemma {:induction false} KeysOfAt(hs: seq<History>, i: nat)
    requires i < |hs|
    ensures KeysOf(hs)[i] == KeyOf(hs[i])
  {
    if i < |hs| - 1 {
      KeysOfAt(hs[..|hs| - 1], i);
      assert hs[..|hs| - 1][i] == hs[i];
    }
  }

  /** v is one of the values stored below the key. */
  ghost predicate Below(v: Bytes, h: History) {
    match h
    case Leaf(w) => v == w
    case Union(parts) => exists i :: 0 <= i < |parts| && Below(v, parts[i])
    case SplitSide(parts, _) => exists i :: 0 <= i < |parts| && Below(v, parts[i])
  }

  /** The untruncated key of a union or a split side. */
  ghost function Joined(h: History): Range
    requires Proper(h) && !h.Leaf?
  {
    JoinAll(KeysOf(h.parts))
  }

  ghost predicate AllLeaves(hs: seq<History>) {
    forall i | 0 <= i < |hs| :: hs[i].Leaf?
  }

  /** A side of a split of internal entries. */
  ghost predicate IsInternalSplit(h: History) {
    h.SplitSide? && !AllLeaves(h.parts)
  }

  lemma {:induction false} JoinAllBounds(ks: seq<Range>, i: nat)
    requires i < |ks|
    ensures Leq(JoinAll(ks).lower, ks[i].lower) && Leq(ks[i].upper, JoinAll(ks).upper)
  {
    if |ks| == 1 {
      CompareIsOrder(ks[0].lower, ks[0].lower);
      CompareIsOrder(ks[0].upper, ks[0].upper);
    } else {
      var init, last := ks[..|ks| - 1], ks[|ks| - 1];
      JoinBounds(JoinAll(init), last);
      if i < |ks| - 1 {
        assert init[i] == ks[i];
        JoinAllBounds(init, i);
        Between(JoinAll(ks).lower, JoinAll(init).lower, ks[i].lower);
        Between(ks[i].upper, JoinAll(init).upper, JoinAll(ks).upper);
      }
    }
  }

  lemma {:induction false} KeyOrdered(h: History)
    requires Proper(h)
    ensures Ordered(KeyOf(h))
    decreases h, 0
  {
    hide Compare, JoinAll, CommonPrefix;
    match h
    case Leaf(v) => LeafCovers(v);
    case Union(parts) =>
      KeysOrdered(parts);
      JoinAllOrdered(KeysOf(parts));
      TruncateBoth(JoinAll(KeysOf(parts)).lower, JoinAll(KeysOf(parts)).upper, Shared(JoinAll(KeysOf(parts))) + 2);
    case SplitSide(parts, n) =>
      KeysOrdered(parts);
      JoinAllOrdered(KeysOf(parts));
      TruncateBoth(JoinAll(KeysOf(parts)).lower, JoinAll(KeysOf(parts)).upper, n + 1);
  }

  lemma {:induction false} KeysOrdered(hs: seq<History>)
    requires AllProper(hs)
    ensures forall k | k in KeysOf(hs) :: Ordered(k)
    decreases hs, 1
  {
    if hs != [] {
      KeysOrdered(hs[..|hs| - 1]);
      KeyOrdered(hs[|hs| - 1]);
    }
  }

  lemma {:induction false} JoinedOrdered(h: History)
    requires Proper(h) && !h.Leaf?
    ensures Ordered(Joined(h))
  {
    hide JoinAll, Ordered;
    KeysOrdered(h.parts);
    JoinAllOrdered(KeysOf(h.parts));
  }

  /** Every value below is near the key, whatever splits came before. */
  lemma {:induction false} KeyIsNear(h: History, v: Bytes)
    requires Proper(h) && Below(v, h)
    ensures Near(KeyOf(h), v)
    ensures !h.Leaf? ==> Near(Joined(h), v)
  {
    hide JoinAll, Covers, Near, Ordered;
    if h.Leaf? {
      LeafCovers(v);
      CoversIsNear(KeyOf(h), v);
    } else {
      var i :| 0 <= i < |h.parts| && Below(v, h.parts[i]);
      KeyIsNear(h.parts[i], v);
      KeysOfAt(h.parts, i);
      KeysOrdered(h.parts);
      JoinAllKeepsNear(KeysOf(h.parts), i, v);
      JoinedOrdered(h);
      TruncationKeepsNear(Joined(h), v, if h.Union? then Shared(Joined(h)) + 1 else h.cpfLength);
    }
  }

  /** Between the bounds of a page of leaves lies each of them. */
  lemma {:induction false} LeavesWithin(h: History, v: Bytes)
    requires Proper(h) && !h.Leaf? && AllLeaves(h.parts) && Below(v, h)
    ensures Leq(Joined(h).lower, v) && Leq(v, Joined(h).upper)
  {
    hide JoinAll, Leq;
    var i :| 0 <= i < |h.parts| && Below(v, h.parts[i]);
    KeysOfAt(h.parts, i);
    JoinAllBounds(KeysOf(h.parts), i);
  }

  /** Every key but that of an internal split covers every value below it, even when
      internal splits lie below it. */
  lemma {:induction false} KeyCovers(h: History, v: Bytes)
    requires Proper(h) && Below(v, h) && !IsInternalSplit(h)
    ensures Covers(KeyOf(h), v)
  {
    hide JoinAll, Covers, Near, Ordered;
    if h.Leaf? {
      LeafCovers(v);
    } else {
      JoinedOrdered(h);
      KeyIsNear(h, v);
      if h.Union? {
        TruncationCovers(Joined(h), v);
      } else {
        LeavesWithin(h, v);
        LongTruncationCovers(Joined(h), v, h.cpfLength);
      }
    }
  }
}
