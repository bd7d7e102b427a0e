/** The row-at-a-time scan over a remote cursor that delivers batches
    (contrib/gauss_connector/gc_fdw.cpp). Remote commands are taken to succeed. */
module ForeignScan {
  import opened Options

  function Least(a: nat, b: nat): nat {
    if a < b then a else b
  }

  /** The remote side: the query's rows, a cursor position and how many fetches
      the cursor has served. */
  class RemoteCursor<Row> {
    const rows: seq<Row>
    var position: nat
    var fetches: nat

    constructor (rows: seq<Row>)
      ensures this.rows == rows && position == 0 && fetches == 0
    {
      this.rows := rows;
      position, fetches := 0, 0;
    }

    /** DECLARE ... CURSOR */
    method Declare()
      modifies this
      ensures position == 0 && fetches == 0
    {
      position, fetches := 0, 0;
    }

    /** FETCH n */
    method Fetch(n: nat) returns (batch: seq<Row>)
      requires position <= |rows|
      modifies this
      ensures position == Least(old(position) + n, |rows|) && fetches == old(fetches) + 1
      ensures batch == rows[old(position)..position]
    {
      var stop := Least(position + n, |rows|);
      batch := rows[position..stop];
      position := stop;
      fetches := fetches + 1;
    }
  }

  /** GcFdwScanState, as far as the scan uses it. */
  class ScanState<Row> {
    const remote: RemoteCursor<Row>
    const fetchSize: nat
    const currentIdx: int
    const maxIdx: int
    const replicated: bool
    var cursorExists: bool
    var tuples: seq<Row>
    var numTuples: nat
    var nextTuple: nat
    var eofReached: bool

    /** GcFdwCanSkip: this node contributes nothing to the scan. */
    function CanSkip(): bool {
      currentIdx == -1 || currentIdx >= maxIdx || (replicated && currentIdx != 0)
    }

    /** Rows handed out since the scan began or restarted. */
    ghost function Returned(): int
      reads this, remote
    {
      if cursorExists then remote.position - numTuples + nextTuple else 0
    }

    /** The batch in memory is the last one fetched. */
    ghost predicate HoldsBatch()
      reads this, remote
    {
      && fetchSize >= 1
      && (cursorExists ==>
            && !CanSkip()
            && remote.position <= |remote.rows|
            && numTuples == |tuples| && nextTuple <= numTuples <= remote.position
            && tuples == remote.rows[remote.position - numTuples..remote.position]
            && (eofReached ==>
                  && remote.position == |remote.rows|
                  && remote.fetches == |remote.rows| / fetchSize + 1
                  && numTuples == |remote.rows| % fetchSize)
            && (!eofReached ==>
                  && remote.position == remote.fetches * fetchSize
                  && numTuples == (if remote.fetches == 0 then 0 else fetchSize)))
    }

    /** Between calls no batch is left untouched, except the one that found the end. */
    ghost predicate Valid()
      reads this, remote
    {
      HoldsBatch() && (cursorExists && !eofReached && remote.fetches > 0 ==> nextTuple > 0)
    }

    constructor (remote: RemoteCursor<Row>, fetchSize: nat, currentIdx: int, maxIdx: int, replicated: bool)
      requires fetchSize >= 1
      ensures Valid() && Returned() == 0 && !cursorExists
      ensures this.remote == remote && this.fetchSize == fetchSize
      ensures this.currentIdx == currentIdx && this.maxIdx == maxIdx && this.replicated == replicated
    {
      this.remote, this.fetchSize := remote, fetchSize;
      this.currentIdx, this.maxIdx, this.replicated := currentIdx, maxIdx, replicated;
      cursorExists, tuples, numTuples, nextTuple, eofReached := false, [], 0, 0, false;
    }

    /** create_cursor */
    method CreateCursor()
      requires Valid() && !cursorExists && !CanSkip()
      modifies this, remote
      ensures Valid() && cursorExists && Returned() == 0 && remote.fetches == 0
      ensures nextTuple == numTuples && !eofReached
    {
      remote.Declare();
      cursorExists, tuples, numTuples, nextTuple, eofReached := true, [], 0, 0, false;
    }

    /** fetch_more_data, called when the batch is used up. */
    method FetchMoreData()
      requires Valid() && cursorExists && nextTuple == numTuples && !eofReached
      modifies this, remote
      ensures HoldsBatch() && cursorExists && nextTuple == 0 && Returned() == old(Returned())
      ensures remote.fetches == old(remote.fetches) + 1
      ensures numTuples == 0 ==> eofReached
    {
      FetchArithmetic(remote.position, remote.fetches, fetchSize, |remote.rows|);
      tuples := remote.Fetch(fetchSize);
      numTuples, nextTuple := |tuples|, 0;
      eofReached := numTuples < fetchSize;
    }

    /** gcIteratePBEForeignScan: the next row, or the empty slot. */
    method Iterate() returns (slot: Option<Row>)
      requires Valid()
      modifies this, remote
      ensures Valid()
      ensures CanSkip() ==> slot == None && !cursorExists && remote.fetches == old(remote.fetches)
      ensures !CanSkip() && old(Returned()) < |remote.rows| ==>
                slot == Some(remote.rows[old(Returned())]) && Returned() == old(Returned()) + 1
      ensures !CanSkip() && old(Returned()) >= |remote.rows| ==>
                && slot == None && Returned() == |remote.rows| && cursorExists && eofReached
                && remote.fetches == |remote.rows| / fetchSize + 1
      ensures !CanSkip() ==> cursorExists && remote.fetches == FetchesAfter(Returned(), slot.None?)
    {
      hide HoldsBatch, Returned;
      Started();
      if !cursorExists {
        if CanSkip() { return None; }
        CreateCursor();
        Started();
      }
      if nextTuple >= numTuples {
        if !eofReached { FetchMoreData(); }
        if nextTuple >= numTuples {
          AtEnd();
          return None;
        }
      }
      slot := HandOut();
    }

    lemma Started()
      requires HoldsBatch()
      ensures fetchSize >= 1
      ensures if cursorExists then !CanSkip() && nextTuple <= numTuples else Returned() == 0
    {
    }

    /** Nothing is left once the last batch is used up. */
    lemma AtEnd()
      requires HoldsBatch() && cursorExists && eofReached && nextTuple >= numTuples
      ensures Returned() == |remote.rows| && remote.fetches == |remote.rows| / fetchSize + 1
      ensures !CanSkip() && fetchSize >= 1
    {
    }

    /** The end of gcIteratePBEForeignScan: the next row of the batch. */
    method HandOut() returns (slot: Option<Row>)
      requires HoldsBatch() && cursorExists && nextTuple < numTuples
      modifies this
      ensures Valid() && cursorExists
      ensures old(Returned()) < |remote.rows| && slot == Some(remote.rows[old(Returned())])
      ensures Returned() == old(Returned()) + 1
      ensures remote.fetches == FetchesAfter(Returned(), false)
    {
      slot := Some(tuples[nextTuple]);
      nextTuple := nextTuple + 1;
      CountArithmetic(remote.position, numTuples, nextTuple, remote.fetches, fetchSize, |remote.rows|, eofReached);
    }

    /** Fetches needed for r rows, and one that finds the end when it is asked for. */
    ghost function FetchesAfter(r: int, ended: bool): int
      requires fetchSize >= 1
    {
      if ended then |remote.rows| / fetchSize + 1 else (r - 1) / fetchSize + 1
    }

    /** gcReScanPBEForeignScan */
    method ReScan()
      requires Valid()
      modifies this
      ensures Valid() && !cursorExists && Returned() == 0
    {
      if !cursorExists { return; }
      cursorExists := false;
      tuples, numTuples, nextTuple, eofReached := [], 0, 0, false;
    }
  }

  /** A fetch from position r = f * size that meets the end is number n / size + 1. */
  lemma FetchArithmetic(r: int, f: int, size: int, n: int)
    requires size >= 1 && f >= 0 && r == f * size && r <= n
    ensures r + size > n ==> f == n / size && n - r == n % size
    ensures r + size <= n ==> r + size == (f + 1) * size
  {
    assert (f + 1) * size == f * size + size;
    if r + size > n {
      DivisionIs(n, size, f, n - r);
    }
  }

  lemma DivisionIs(n: int, size: int, q: int, r: int)
    requires size >= 1 && 0 <= r < size && n == q * size + r
    ensures n / size == q && n % size == r
  {
    assert n == (n / size) * size + n % size;
    var d := n / size - q;
    assert d * size == r - n % size;
    if d >= 1 { MultipleGrows(d, size); }
    if d <= -1 { MultipleGrows(-d, size); }
  }

  lemma MultipleGrows(d: int, size: int)
    requires d >= 1 && size >= 1
    ensures d * size >= size && -d * size <= -size
  {
  }

  /** The row at index r - 1 lies in batch number (r - 1) / size. */
  lemma CountArithmetic(position: int, num: int, next: int, fetches: int, size: int, n: int, eof: bool)
    requires size >= 1 && 1 <= next <= num <= position && fetches >= 0 && 0 <= n
    requires eof ==> position == n && fetches == n / size + 1 && num == n % size
    requires !eof ==> position == fetches * size && num == size
    ensures fetches == (position - num + next - 1) / size + 1
  {
    if eof {
      assert n == (n / size) * size + n % size;
      DivisionIs(n - num + next - 1, size, n / size, next - 1);
    } else {
      assert (fetches - 1) * size == fetches * size - size;
      DivisionIs(position - num + next - 1, size, fetches - 1, next - 1);
    }
  }

  /** What k calls must deliver. */
  ghost function Expected<Row>(rows: seq<Row>, skip: bool, i: nat): Option<Row> {
    if !skip && i < |rows| then Some(rows[i]) else None
  }

  /** Any number of calls on a fresh or restarted scan: the rows in order, then the
      empty slot for ever, with no fetch after the one that found the end. */
  method Drain<Row>(scan: ScanState<Row>, k: nat) returns (slots: seq<Option<Row>>)
    requires scan.Valid() && scan.Returned() == 0 && !scan.cursorExists
    modifies scan, scan.remote
    ensures scan.Valid() && |slots| == k
    ensures forall i | 0 <= i < k :: slots[i] == Expected(scan.remote.rows, scan.CanSkip(), i)
    ensures !scan.CanSkip() && k > 0 ==>
              var n := |scan.remote.rows|;
              scan.remote.fetches == (if k <= n then (k - 1) / scan.fetchSize + 1 else n / scan.fetchSize + 1)
    ensures scan.CanSkip() ==> scan.remote.fetches == old(scan.remote.fetches)
  {
    slots := [];
    ghost var n := |scan.remote.rows|;
    for c := 0 to k
      invariant scan.Valid() && |slots| == c
      invariant forall i | 0 <= i < c :: slots[i] == Expected(scan.remote.rows, scan.CanSkip(), i)
      invariant scan.CanSkip() ==> !scan.cursorExists && scan.remote.fetches == old(scan.remote.fetches)
      invariant !scan.CanSkip() ==> scan.Returned() == Least(c, n)
      invariant !scan.CanSkip() && c > 0 ==>
                  scan.remote.fetches == if c <= n then (c - 1) / scan.fetchSize + 1 else n / scan.fetchSize + 1
    {
      var slot := scan.Iterate();
      slots := slots + [slot];
    }
  }

  /** Restarting replays the stream from its first row, with its own count of fetches. */
  method DrainTwice<Row>(scan: ScanState<Row>, k: nat, l: nat)
    returns (first: seq<Option<Row>>, second: seq<Option<Row>>)
    requires scan.Valid() && scan.Returned() == 0 && !scan.cursorExists
    modifies scan, scan.remote
    ensures scan.Valid() && |first| == k && |second| == l
    ensures forall i | 0 <= i < k :: first[i] == Expected(scan.remote.rows, scan.CanSkip(), i)
    ensures forall i | 0 <= i < l :: second[i] == Expected(scan.remote.rows, scan.CanSkip(), i)
    ensures !scan.CanSkip() && l > 0 ==>
              var n := |scan.remote.rows|;
              scan.remote.fetches == (if l <= n then (l - 1) / scan.fetchSize + 1 else n / scan.fetchSize + 1)
    ensures scan.CanSkip() ==> scan.remote.fetches == old(scan.remote.fetches)
  {
    first := Drain(scan, k);
    scan.ReScan();
    second := Drain(scan, l);
  }

  // ---- All nodes of a table ----

  /** One scan read to its first empty slot. */
  method ReadAll<Row>(scan: ScanState<Row>) returns (rows: seq<Row>)
    requires scan.Valid() && !scan.cursorExists
    modifies scan, scan.remote
    ensures scan.Valid()
    ensures rows == if scan.CanSkip() then [] else scan.remote.rows
    ensures scan.currentIdx == -1 || scan.currentIdx >= scan.maxIdx ==> rows == []
  {
    ghost var all := scan.remote.rows;
    assert scan.Returned() == 0;
    rows := [];
    var slot := scan.Iterate();
    while slot.Some?
      invariant scan.Valid()
      invariant scan.CanSkip() ==> slot.None? && rows == []
      invariant !scan.CanSkip() ==> rows <= all
      invariant !scan.CanSkip() && slot.Some? ==>
                  |rows| < |all| && slot.value == all[|rows|] && scan.Returned() == |rows| + 1
      invariant !scan.CanSkip() && slot.None? ==> rows == all
      decreases |all| - |rows|, if slot.Some? then 1 else 0
    {
      rows := rows + [slot.value];
      slot := scan.Iterate();
    }
  }

  ghost function Concat<Row>(parts: seq<seq<Row>>): seq<Row> {
    if parts == [] then [] else Concat(parts[..|parts| - 1]) + parts[|parts| - 1]
  }

  /** The rows of all nodes in node order. */
  ghost function NodeRows<Row>(scans: seq<ScanState<Row>>): (parts: seq<seq<Row>>)
    ensures |parts| == |scans| && forall i | 0 <= i < |parts| :: parts[i] == scans[i].remote.rows
  {
    seq(|scans|, i requires 0 <= i < |scans| => scans[i].remote.rows)
  }

  /** One fresh scan for every node of a table, node i at index i. */
  ghost predicate IsCluster<Row>(scans: seq<ScanState<Row>>, replicated: bool)
    reads set i | 0 <= i < |scans| :: scans[i], set i | 0 <= i < |scans| :: scans[i].remote
  {
    && (forall i | 0 <= i < |scans| ::
          && scans[i].Valid() && !scans[i].cursorExists
          && scans[i].currentIdx == i && scans[i].maxIdx == |scans| && scans[i].replicated == replicated)
    && (forall i, j | 0 <= i < j < |scans| :: scans[i] != scans[j] && scans[i].remote != scans[j].remote)
    && (replicated ==> forall i | 0 <= i < |scans| :: scans[i].remote.rows == scans[0].remote.rows)
  }

  /** Reading every node's scan gives a replicated table's rows once, and of any other
      table all rows of all nodes. */
  method ReadCluster<Row>(scans: seq<ScanState<Row>>, replicated: bool) returns (rows: seq<Row>)
    requires scans != [] && IsCluster(scans, replicated)
    modifies set i | 0 <= i < |scans| :: scans[i], set i | 0 <= i < |scans| :: scans[i].remote
    ensures rows == if replicated then scans[0].remote.rows else Concat(NodeRows(scans))
  {
    rows := [];
    ghost var parts := NodeRows(scans);
    assert parts[..0] == [];
    for i := 0 to |scans|
      invariant forall j | i <= j < |scans| :: scans[j].Valid() && !scans[j].cursorExists
      invariant rows == if replicated then (if i == 0 then [] else scans[0].remote.rows) else Concat(parts[..i])
    {
      var more := ReadAll(scans[i]);
      assert parts[..i + 1][..i] == parts[..i];
      rows := rows + more;
    }
    assert parts[..|scans|] == parts;
  }
}
