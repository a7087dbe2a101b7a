/** What a whole window of the interleaver does: arrival order does not matter, and a drain reads it column by column. */
module InterleaverWindows {
  import opened Types
  import opened Arithmetic
  import opened Interleaving

  // ---------------------------------------------------------------------------
  // Filling
  // ---------------------------------------------------------------------------

  datatype Arrival = Arrival(sym: Symbol, now: int)

  /** The window after a sequence of pushes into an empty one. */
  ghost function PushAll(g: Geometry, ps: seq<Arrival>): (w: Window)
    requires ValidGeometry(g)
    ensures WellFormed(g, w)
  {
    if ps == [] then
      EmptyIsWellFormed(g);
      EmptyWindow
    else
      var p := ps[|ps| - 1];
      var w := PushAll(g, ps[..|ps| - 1]);
      PushKeeps(g, w, p.sym, p.now);
      Push(g, w, p.sym, p.now).0
  }

  lemma EmptyIsWellFormed(g: Geometry)
    requires ValidGeometry(g)
    ensures WellFormed(g, EmptyWindow)
  {
  }

  /** The first symbol that arrived for each (block key, fec_id). */
  ghost function First(ps: seq<Arrival>): map<(uint32, uint32), Symbol> {
    if ps == [] then map[]
    else
      WithFirst(First(ps[..|ps| - 1]), ps[|ps| - 1].sym)
  }

  /** The block keys in order of first arrival. */
  ghost function Keys(ps: seq<Arrival>): (keys: seq<uint32>)
    ensures Distinct(keys)
  {
    if ps == [] then []
    else
      WithKey(Keys(ps[..|ps| - 1]), ps[|ps| - 1].sym.packetId)
  }

  /** The cells of one block among the first arrivals. */
  ghost function CellsOf(m: map<(uint32, uint32), Symbol>, key: uint32): map<int, Symbol> {
    map p | p in m && p.0 == key :: p.1 := m[p]
  }

  /** The window holds exactly the given first arrivals. */
  ghost predicate HoldsExactly(rows: seq<Row>, keys: seq<uint32>, m: map<(uint32, uint32), Symbol>) {
    && |rows| == |keys|
    && forall r :: 0 <= r < |keys| ==> rows[r].key == keys[r] && rows[r].cells == CellsOf(m, keys[r])
  }

  ghost predicate Distinct(keys: seq<uint32>) {
    forall i, j :: 0 <= i < j < |keys| ==> keys[i] != keys[j]
  }

  ghost function WithKey(keys: seq<uint32>, k: uint32): seq<uint32> {
    if k in keys then keys else keys + [k]
  }

  ghost function WithFirst(m: map<(uint32, uint32), Symbol>, s: Symbol): map<(uint32, uint32), Symbol> {
    if (s.packetId, s.fecId) in m then m else m[(s.packetId, s.fecId) := s]
  }

  lemma CellsAfter(m: map<(uint32, uint32), Symbol>, s: Symbol, key: uint32)
    ensures CellsOf(m[(s.packetId, s.fecId) := s], key) ==
            if key == s.packetId then CellsOf(m, key)[s.fecId := s] else CellsOf(m, key)
  {
    var m' := m[(s.packetId, s.fecId) := s];
    var a, b := CellsOf(m', key), if key == s.packetId then CellsOf(m, key)[s.fecId := s] else CellsOf(m, key);
    forall c: int
      ensures c in a <==> c in b
      ensures c in a ==> a[c] == b[c]
    {
      if c in a { assert (key, c) in m'; }
      if c in b && !(key == s.packetId && c == s.fecId) { assert (key, c) in m; }
    }
  }

  /** An unused key has no cells. */
  lemma {:induction false} KeysCover(ps: seq<Arrival>)
    ensures forall p :: p in First(ps) ==> p.0 in Keys(ps)
    ensures forall p :: p in First(ps) ==> exists i :: 0 <= i < |ps| && ps[i].sym == First(ps)[p] && p == (ps[i].sym.packetId, ps[i].sym.fecId)
  {
    if ps != [] {
      var before := ps[..|ps| - 1];
      KeysCover(before);
      forall p | p in First(ps)
        ensures exists i :: 0 <= i < |ps| && ps[i].sym == First(ps)[p] && p == (ps[i].sym.packetId, ps[i].sym.fecId)
      {
        if p in First(before) {
          var i :| 0 <= i < |before| && before[i].sym == First(before)[p] && p == (before[i].sym.packetId, before[i].sym.fecId);
          assert ps[i] == before[i];
        } else {
          assert ps[|ps| - 1].sym == First(ps)[p];
        }
      }
    }
  }

  /** Giving a key a row. */
  lemma ResolveHolds(rows: seq<Row>, keys: seq<uint32>, m: map<(uint32, uint32), Symbol>, key: uint32)
    requires HoldsExactly(rows, keys, m) && forall p :: p in m ==> p.0 in keys
    ensures HoldsExactly(RowsFor(rows, key), WithKey(keys, key), m)
    ensures FindRow(rows, key) < |keys| <==> key in keys
    ensures RowsFor(rows, key)[FindRow(rows, key)].key == key
  {
    if FindRow(rows, key) == |keys| {
      assert CellsOf(m, key) == map[];
    }
  }

  /** Storing a first arrival in its row. */
  lemma StoreHolds(rows: seq<Row>, keys: seq<uint32>, m: map<(uint32, uint32), Symbol>, r: nat, s: Symbol)
    requires HoldsExactly(rows, keys, m) && Distinct(keys) && r < |rows| && rows[r].key == s.packetId
    ensures HoldsExactly(WithCell(rows, r, s), keys, m[(s.packetId, s.fecId) := s])
  {
    var rows' := WithCell(rows, r, s);
    forall i | 0 <= i < |keys|
      ensures rows'[i].key == keys[i] && rows'[i].cells == CellsOf(m[(s.packetId, s.fecId) := s], keys[i])
    {
      CellsAfter(m, s, keys[i]);
    }
  }

  /** One push into a window that holds exactly the earlier arrivals. */
  lemma PushHolds(g: Geometry, w: Window, keys: seq<uint32>, m: map<(uint32, uint32), Symbol>, s: Symbol, now: int)
    requires !w.ready && HoldsExactly(w.rows, keys, m) && Distinct(keys)
    requires forall p :: p in m ==> p.0 in keys
    requires s.fecId < g.n && |WithKey(keys, s.packetId)| <= g.depth
    ensures HoldsExactly(Push(g, w, s, now).0.rows, WithKey(keys, s.packetId), WithFirst(m, s))
    ensures Push(g, w, s, now).0.ready <==> Push(g, w, s, now).1 == 1
    ensures Push(g, w, s, now).1 >= 0
  {
    hide CellsOf;
    ResolveHolds(w.rows, keys, m, s.packetId);
    var rows, r := RowsFor(w.rows, s.packetId), FindRow(w.rows, s.packetId);
    assert s.fecId in rows[r].cells <==> (s.packetId, s.fecId) in m by { InCells(m, s.packetId, s.fecId); }
    StoreHolds(rows, WithKey(keys, s.packetId), m, r, s);
  }

  lemma InCells(m: map<(uint32, uint32), Symbol>, key: uint32, f: uint32)
    ensures f in CellsOf(m, key) <==> (key, f) in m
    ensures f in CellsOf(m, key) ==> CellsOf(m, key)[f] == m[(key, f)]
  {
    if (key, f) in m { assert (key, f).0 == key; }
  }

  // ---------------------------------------------------------------------------
  // Completion
  // ---------------------------------------------------------------------------

  /** Cells held by the first k rows. */
  function TotalCells(rows: seq<Row>, k: nat): (t: nat)
    requires k <= |rows|
  {
    if k == 0 then 0 else TotalCells(rows, k - 1) + |rows[k - 1].cells|
  }

  lemma {:induction false} TotalUpdate(rows: seq<Row>, rows': seq<Row>, r: nat, k: nat)
    requires k <= |rows| && |rows'| == |rows| && r < |rows|
    requires forall i :: 0 <= i < |rows| && i != r ==> rows'[i] == rows[i]
    ensures TotalCells(rows', k) == TotalCells(rows, k) + if r < k then |rows'[r].cells| - |rows[r].cells| else 0
  {
    if k > 0 { TotalUpdate(rows, rows', r, k - 1); }
  }

  lemma {:induction false} TotalPrefix(rows: seq<Row>, rows': seq<Row>, k: nat)
    requires k <= |rows| && k <= |rows'| && forall i :: 0 <= i < k ==> rows[i] == rows'[i]
    ensures TotalCells(rows, k) == TotalCells(rows', k)
  {
    if k > 0 { TotalPrefix(rows, rows', k - 1); }
  }

  /** k rows of at most n cells hold at most n * k cells, and that many only when all are full. */
  lemma {:induction false} TotalBound(rows: seq<Row>, n: nat, k: nat)
    requires k <= |rows| && forall r :: 0 <= r < k ==> |rows[r].cells| <= n
    ensures TotalCells(rows, k) <= n * k
    ensures TotalCells(rows, k) == n * k <==> forall r :: 0 <= r < k ==> |rows[r].cells| == n
  {
    if k > 0 {
      TotalBound(rows, n, k - 1);
      Distribute(n, k - 1);
    }
  }

  /** A window is complete exactly when it holds depth * n cells. */
  lemma CompleteIffTotal(g: Geometry, rows: seq<Row>)
    requires ValidGeometry(g) && |rows| <= g.depth
    requires forall r, c :: 0 <= r < |rows| && c in rows[r].cells ==> 0 <= c < g.n
    ensures Complete(g, rows) <==> TotalCells(rows, |rows|) == g.n * g.depth
  {
    forall r | 0 <= r < |rows|
      ensures |rows[r].cells| <= g.n
      ensures |rows[r].cells| == g.n <==> forall c :: 0 <= c < g.n ==> c in rows[r].cells
    {
      KeysBound(rows[r].cells, g.n);
    }
    TotalBound(rows, g.n, |rows|);
    if |rows| < g.depth {
      MulMono(g.n, |rows| + 1, g.depth);
      Distribute(g.n, |rows|);
    }
  }

  lemma PushTotal(g: Geometry, w: Window, s: Symbol, now: int)
    requires !w.ready && s.fecId < g.n && |RowsFor(w.rows, s.packetId)| <= g.depth
    ensures var rows, rows' := w.rows, Push(g, w, s, now).0.rows;
            var r := FindRow(rows, s.packetId);
            TotalCells(rows', |rows'|) == TotalCells(rows, |rows|) +
              if s.fecId in RowsFor(rows, s.packetId)[r].cells then 0 else 1
  {
    var mid, r := RowsFor(w.rows, s.packetId), FindRow(w.rows, s.packetId);
    TotalPrefix(w.rows, mid, |w.rows|);
    if s.fecId !in mid[r].cells {
      TotalUpdate(mid, WithCell(mid, r, s), r, |mid|);
    }
  }

  /** The window holds exactly these first arrivals, and is ready exactly when they fill the matrix. */
  ghost predicate Represents(g: Geometry, w: Window, keys: seq<uint32>, m: map<(uint32, uint32), Symbol>) {
    && HoldsExactly(w.rows, keys, m)
    && TotalCells(w.rows, |w.rows|) == |m|
    && (w.ready <==> |m| == g.n * g.depth)
  }

  lemma FillStep(g: Geometry, w: Window, keys: seq<uint32>, m: map<(uint32, uint32), Symbol>, s: Symbol, now: int)
    requires ValidGeometry(g) && WellFormed(g, w) && !w.ready && Represents(g, w, keys, m)
    requires Distinct(keys) && s.fecId < g.n && |WithKey(keys, s.packetId)| <= g.depth
    requires forall p :: p in m ==> p.0 in keys
    ensures Represents(g, Push(g, w, s, now).0, WithKey(keys, s.packetId), WithFirst(m, s))
    ensures Push(g, w, s, now).1 == if |WithFirst(m, s)| == g.n * g.depth then 1 else 0
  {
    hide CellsOf;
    PushKeeps(g, w, s, now);
    PushHolds(g, w, keys, m, s, now);
    PushReturns(g, w, s, now);
    var w' := Push(g, w, s, now).0;
    assert TotalCells(w'.rows, |w'.rows|) == |WithFirst(m, s)| by {
      ResolveHolds(w.rows, keys, m, s.packetId);
      InCells(m, s.packetId, s.fecId);
      PushTotal(g, w, s, now);
    }
    hide Push;
    CompleteIffTotal(g, w'.rows);
    ReadyIffComplete(g, w');
  }

  /**
   For every arrival order, duplicates included, of symbols of at most depth blocks: the window holds
   the first arrival of each (key, fec_id), rows in order of first arrival, and it becomes ready
   exactly at the depth * n-th distinct symbol.
   */
  lemma {:induction false} FillTheorem(g: Geometry, ps: seq<Arrival>)
    requires ValidGeometry(g) && |Keys(ps)| <= g.depth
    requires forall i :: 0 <= i < |ps| ==> ps[i].sym.fecId < g.n
    requires ps != [] ==> |First(ps[..|ps| - 1])| < g.n * g.depth
    ensures Represents(g, PushAll(g, ps), Keys(ps), First(ps))
    ensures ps != [] ==>
              var p := ps[|ps| - 1];
              Push(g, PushAll(g, ps[..|ps| - 1]), p.sym, p.now).1 == if |First(ps)| == g.n * g.depth then 1 else 0
  {
    if ps == [] {
      AreaPositive(g);
    } else {
      hide CellsOf, Push, TotalCells, FindRow;
      var before, p := ps[..|ps| - 1], ps[|ps| - 1];
      FillTheorem(g, before);
      KeysCover(before);
      FillStep(g, PushAll(g, before), Keys(before), First(before), p.sym, p.now);
    }
  }

  lemma AreaPositive(g: Geometry)
    requires ValidGeometry(g)
    ensures g.n * g.depth > 0
  {
  }

  lemma ReadyIffComplete(g: Geometry, w: Window)
    requires WellFormed(g, w)
    ensures w.ready <==> Complete(g, w.rows)
  {
    CompleteIffFull(g, w.rows);
  }

  lemma PushReturns(g: Geometry, w: Window, s: Symbol, now: int)
    ensures Push(g, w, s, now).1 <= 1
  {
  }

  // ---------------------------------------------------------------------------
  // Draining
  // ---------------------------------------------------------------------------

  /** The matrix in drain order: item i is the cell at row i mod depth, column i div depth. */
  ghost function Drained(g: Geometry, rows: seq<Row>): (d: seq<Symbol>)
    requires ValidGeometry(g) && Complete(g, rows)
    ensures |d| == g.n * g.depth
  {
    seq(g.n * g.depth, i requires 0 <= i < g.n * g.depth => DrainItem(g, rows, i))
  }

  ghost function DrainItem(g: Geometry, rows: seq<Row>, i: nat): Symbol
    requires ValidGeometry(g) && Complete(g, rows) && i < g.n * g.depth
  {
    DivBound(g.depth, g.n, i);
    rows[i % g.depth].cells[i / g.depth]
  }

  /** What repeated pops return until the window resets. */
  ghost function DrainFrom(g: Geometry, w: Window): (d: seq<Symbol>)
    requires ValidGeometry(g) && WellFormed(g, w) && w.ready
    decreases g.n - w.popCol, g.depth - w.popRow
  {
    PopKeeps(g, w);
    var (w', sym, rc) := Pop(g, w);
    if rc == 1 then [sym] else [sym] + DrainFrom(g, w')
  }

  /** The position of the next pop in drain order. */
  ghost function Position(g: Geometry, w: Window): nat {
    w.popCol * g.depth + w.popRow
  }

  lemma PositionBound(g: Geometry, w: Window)
    requires WellFormed(g, w) && w.ready
    ensures Position(g, w) < g.n * g.depth
    ensures Position(g, w) + 1 == g.n * g.depth <==> w.popCol + 1 == g.n && w.popRow + 1 == g.depth
  {
    var c, r, d := w.popCol, w.popRow, g.depth;
    assert (c + 1) * d == c * d + d;
    if c + 1 < g.n {
      MulMono(d, c + 2, g.n);
      assert (c + 2) * d == (c + 1) * d + d;
    }
  }

  /** Every pop takes the cell at the current position, moves to the next, and ends the window at the last. */
  lemma PopAdvances(g: Geometry, w: Window)
    requires ValidGeometry(g) && WellFormed(g, w) && w.ready
    ensures var (w', sym, rc) := Pop(g, w);
            && Position(g, w) < g.n * g.depth
            && sym == DrainItem(g, w.rows, Position(g, w))
            && (rc == 1 <==> Position(g, w) + 1 == g.n * g.depth)
            && (rc == 1 ==> w' == EmptyWindow)
            && (rc != 1 ==> w'.ready && w'.rows == w.rows && Position(g, w') == Position(g, w) + 1)
            && Pending(g, w') == Pending(g, w) - 1
  {
    PositionBound(g, w);
    DivModOf(g.depth, w.popCol, w.popRow);
    NextPosition(g, w);
  }

  lemma NextPosition(g: Geometry, w: Window)
    requires ValidGeometry(g) && WellFormed(g, w) && w.ready
    ensures (w.popCol + 1) * g.depth == w.popCol * g.depth + g.depth
    ensures Pending(g, w) == g.n * g.depth - Position(g, w)
  {
    assert g.depth * g.n == g.n * g.depth;
  }

  lemma {:induction false} DrainSuffix(g: Geometry, w: Window)
    requires ValidGeometry(g) && WellFormed(g, w) && w.ready
    ensures Position(g, w) < g.n * g.depth
    ensures DrainFrom(g, w) == Drained(g, w.rows)[Position(g, w)..]
    decreases g.n - w.popCol, g.depth - w.popRow
  {
    PopAdvances(g, w);
    PopKeeps(g, w);
    var (w', sym, rc) := Pop(g, w);
    var d, i := Drained(g, w.rows), Position(g, w);
    assert d[i..] == [d[i]] + d[i + 1..];
    if rc != 1 {
      DrainSuffix(g, w');
    }
  }

  /** Draining a window that has just become ready emits every cell once, in column-major order. */
  lemma DrainTheorem(g: Geometry, w: Window)
    requires ValidGeometry(g) && WellFormed(g, w) && w.ready && w.popCol == w.popRow == 0
    ensures DrainFrom(g, w) == Drained(g, w.rows)
  {
    DrainSuffix(g, w);
    assert Position(g, w) == 0;
  }

  /** Distinct positions of a drain are distinct cells. */
  lemma DrainCells(g: Geometry, i: nat, j: nat)
    requires ValidGeometry(g) && i < g.n * g.depth && j < g.n * g.depth && i != j
    ensures i % g.depth != j % g.depth || i / g.depth != j / g.depth
  {
    DivBound(g.depth, g.n, i);
    DivBound(g.depth, g.n, j);
  }

  /** The (key, fec_id) transmitted at position i. */
  ghost function Cell(g: Geometry, keys: seq<uint32>, i: nat): (p: (uint32, uint32))
    requires ValidGeometry(g) && |keys| == g.depth && i < g.n * g.depth
  {
    DivBound(g.depth, g.n, i);
    (keys[i % g.depth], i / g.depth)
  }

  lemma ItemIsFirst(g: Geometry, rows: seq<Row>, keys: seq<uint32>, m: map<(uint32, uint32), Symbol>, i: nat)
    requires ValidGeometry(g) && Complete(g, rows) && HoldsExactly(rows, keys, m) && i < g.n * g.depth
    ensures Cell(g, keys, i) in m && Drained(g, rows)[i] == m[Cell(g, keys, i)]
  {
    DivBound(g.depth, g.n, i);
    InCells(m, keys[i % g.depth], i / g.depth);
  }

  /** For every arrival order of all the symbols of depth blocks, the drain emits each (key, fec_id) exactly once. */
  lemma FillThenDrain(g: Geometry, ps: seq<Arrival>)
    requires ValidGeometry(g) && |Keys(ps)| <= g.depth && ps != []
    requires forall i :: 0 <= i < |ps| ==> ps[i].sym.fecId < g.n
    requires |First(ps[..|ps| - 1])| < g.n * g.depth == |First(ps)|
    ensures PushAll(g, ps).ready && |Keys(ps)| == g.depth
    ensures |DrainFrom(g, PushAll(g, ps))| == g.n * g.depth
    ensures forall i: nat :: i < g.n * g.depth ==>
              Cell(g, Keys(ps), i) in First(ps) && DrainFrom(g, PushAll(g, ps))[i] == First(ps)[Cell(g, Keys(ps), i)]
    ensures forall i: nat, j: nat :: i < j < g.n * g.depth ==> Cell(g, Keys(ps), i) != Cell(g, Keys(ps), j)
  {
    FillTheorem(g, ps);
    hide PushAll, First, Keys, CellsOf, Drained, DrainFrom;
    StillAtStart(g, ps);
    var w := PushAll(g, ps);
    DrainTheorem(g, w);
    forall i: nat | i < g.n * g.depth
      ensures Cell(g, Keys(ps), i) in First(ps) && Drained(g, w.rows)[i] == First(ps)[Cell(g, Keys(ps), i)]
    {
      ItemIsFirst(g, w.rows, Keys(ps), First(ps), i);
    }
    forall i: nat, j: nat | i < j < g.n * g.depth
      ensures Cell(g, Keys(ps), i) != Cell(g, Keys(ps), j)
    {
      CellsDiffer(g, Keys(ps), i, j);
    }
  }

  lemma CellsDiffer(g: Geometry, keys: seq<uint32>, i: nat, j: nat)
    requires ValidGeometry(g) && |keys| == g.depth && Distinct(keys) && i < j < g.n * g.depth
    ensures Cell(g, keys, i) != Cell(g, keys, j)
  {
    DivBound(g.depth, g.n, i);
    DivBound(g.depth, g.n, j);
    DrainCells(g, i, j);
  }

  /** Pushes never move the drain position away from the start. */
  lemma {:induction false} StillAtStart(g: Geometry, ps: seq<Arrival>)
    requires ValidGeometry(g)
    ensures PushAll(g, ps).popCol == PushAll(g, ps).popRow == 0
  {
    if ps != [] { StillAtStart(g, ps[..|ps| - 1]); }
  }
}
