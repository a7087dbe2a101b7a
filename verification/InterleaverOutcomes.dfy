/** What one push and one tick of the interleaver do, case by case, and when a window is due. */
module InterleaverOutcomes {
  import opened Types
  import opened Arithmetic
  import opened Interleaving
  import BurstBound

  /** The block has a row. */
  ghost predicate HasRow(rows: seq<Row>, key: uint32) {
    exists r :: 0 <= r < |rows| && rows[r].key == key
  }

  /** The block's row has this cell. */
  ghost predicate HasCell(rows: seq<Row>, key: uint32, f: int) {
    exists r :: 0 <= r < |rows| && rows[r].key == key && f in rows[r].cells
  }

  lemma FoundRow(rows: seq<Row>, key: uint32)
    ensures HasRow(rows, key) <==> FindRow(rows, key) < |rows|
  {
  }

  lemma FoundCell(rows: seq<Row>, key: uint32, f: int)
    requires BurstBound.DistinctKeys(rows)
    ensures HasCell(rows, key, f) <==> FindRow(rows, key) < |rows| && f in rows[FindRow(rows, key)].cells
  {
  }

  /** Row r has gained this cell; nothing else has changed. */
  ghost predicate Gains(rows: seq<Row>, rows': seq<Row>, sym: Symbol) {
    exists r :: 0 <= r < |rows'| && rows'[r].key == sym.packetId && (r < |rows| || (r == |rows| && |rows'| == |rows| + 1))
      && (r < |rows| ==> |rows'| == |rows|)
      && rows'[r].cells == (if r < |rows| then rows[r].cells else map[])[sym.fecId := sym]
      && forall q :: 0 <= q < |rows| && q != r ==> rows'[q] == rows[q]
  }

  /**
   A push is rejected exactly when the window is being drained, the column is out of range, or the block has no row and
   all rows are taken; a cell that is there already is kept; any other cell is stored, the first one of a window sets its
   time, and the one that completes the window makes it ready.
   */
  lemma PushOutcome(g: Geometry, w: Window, sym: Symbol, now: int)
    requires ValidGeometry(g) && WellFormed(g, w) && BurstBound.DistinctKeys(w.rows)
    ensures var (w', rc) := Push(g, w, sym, now);
      if w.ready || sym.fecId >= g.n || (!HasRow(w.rows, sym.packetId) && |w.rows| == g.depth) then w' == w && rc == -1
      else if HasCell(w.rows, sym.packetId, sym.fecId) then w' == w && rc == 0
      else
        && Gains(w.rows, w'.rows, sym) && w'.start == (if w.rows == [] then now else w.start)
        && rc == (if Complete(g, w'.rows) then 1 else 0) && w'.ready == Complete(g, w'.rows) && w'.popCol == w'.popRow == 0
  {
    FoundRow(w.rows, sym.packetId);
    FoundCell(w.rows, sym.packetId, sym.fecId);
    hide HasRow, HasCell, BurstBound.DistinctKeys;
    var r := FindRow(w.rows, sym.packetId);
    if !(w.ready || sym.fecId >= g.n || (r == |w.rows| && r >= g.depth)) {
      if r < |w.rows| {
        if sym.fecId !in w.rows[r].cells { PushStores(g, w, sym, now); }
      } else {
        PushStores(g, w, sym, now);
      }
    }
  }

  lemma PushStores(g: Geometry, w: Window, sym: Symbol, now: int)
    requires ValidGeometry(g) && WellFormed(g, w) && !w.ready && sym.fecId < g.n
    requires var r := FindRow(w.rows, sym.packetId); if r < |w.rows| then sym.fecId !in w.rows[r].cells else r < g.depth
    ensures var (w', rc) := Push(g, w, sym, now);
      && Gains(w.rows, w'.rows, sym) && w'.start == (if w.rows == [] then now else w.start)
      && rc == (if Complete(g, w'.rows) then 1 else 0) && w'.ready == Complete(g, w'.rows) && w'.popCol == w'.popRow == 0
  {
    var r, rows := FindRow(w.rows, sym.packetId), RowsFor(w.rows, sym.packetId);
    FullRowsAppend(w.rows, g.n, Row(sym.packetId, map[]));
    StoreCell(g, rows, r, sym);
    var rows' := WithCell(rows, r, sym);
    assert rows'[r].cells == (if r < |w.rows| then w.rows[r].cells else map[])[sym.fecId := sym];
    assert Gains(w.rows, rows', sym);
    hide Gains;
    if Complete(g, rows') { KeysBound(rows'[r].cells, g.n); }
  }

  // ---------------------------------------------------------------------------
  // Ticks
  // ---------------------------------------------------------------------------

  /** Some row has all its cells. */
  ghost predicate SomeRowFull(g: Geometry, rows: seq<Row>) {
    exists r :: 0 <= r < |rows| && AllCells(g, rows[r])
  }

  ghost predicate AllCells(g: Geometry, row: Row) {
    forall c :: 0 <= c < g.n ==> c in row.cells
  }

  lemma {:induction false} NoneFull(rows: seq<Row>, n: nat, k: nat)
    requires k <= |rows|
    ensures CountFull(rows, n, k) == 0 <==> forall r :: 0 <= r < k ==> |rows[r].cells| != n
  {
    if k > 0 { NoneFull(rows, n, k - 1); }
  }

  lemma FullIff(g: Geometry, rows: seq<Row>)
    requires forall r, c :: 0 <= r < |rows| && c in rows[r].cells ==> 0 <= c < g.n
    ensures SomeRowFull(g, rows) <==> FullRows(rows, g.n) >= 1
  {
    NoneFull(rows, g.n, |rows|);
    forall r | 0 <= r < |rows| ensures |rows[r].cells| == g.n <==> AllCells(g, rows[r]) { KeysBound(rows[r].cells, g.n); }
    hide AllCells;
  }

  /** What a flushed window holds: the cells that were there, and padding under the row's key, or key 0. */
  ghost predicate Flushed(g: Geometry, rows: seq<Row>, rows': seq<Row>) {
    && ValidGeometry(g) && |rows'| == g.depth
    && forall r, c :: 0 <= r < g.depth && 0 <= c < g.n ==>
         && rows'[r].key == (if r < |rows| then rows[r].key else 0) && c in rows'[r].cells
         && rows'[r].cells[c] == if r < |rows| && c in rows[r].cells then rows[r].cells[c]
                                 else Symbol(rows'[r].key, c, c, g.n, 0, 0, Zeros(g.size))
  }

  lemma FillFlushes(g: Geometry, rows: seq<Row>)
    requires ValidGeometry(g) && |rows| <= g.depth
    requires forall r, c :: 0 <= r < |rows| && c in rows[r].cells ==> 0 <= c < g.n
    ensures Flushed(g, rows, FillAll(g, rows))
  {
    var rows' := FillAll(g, rows);
    forall r, c | 0 <= r < g.depth && 0 <= c < g.n
      ensures rows'[r].key == (if r < |rows| then rows[r].key else 0) && c in rows'[r].cells
      ensures rows'[r].cells[c] == if r < |rows| && c in rows[r].cells then rows[r].cells[c]
                                   else Symbol(rows'[r].key, c, c, g.n, 0, 0, Zeros(g.size))
    {
      if r < |rows| { KeysBound(rows[r].cells, g.n); }
    }
  }

  /** A tick flushes exactly when flushing is on, nothing is being drained, some row is full, and the window is old enough. */
  lemma TickOutcome(g: Geometry, w: Window, now: int)
    requires ValidGeometry(g) && WellFormed(g, w)
    ensures var (w', rc) := Tick(g, w, now);
      if g.flush > 0 && !w.ready && SomeRowFull(g, w.rows) && now - w.start >= g.flush then
        rc == 1 && w'.ready && w'.popCol == w'.popRow == 0 && Flushed(g, w.rows, w'.rows)
      else w' == w && rc == 0
  {
    FullIff(g, w.rows);
    FillFlushes(g, w.rows);
    hide Flushed, SomeRowFull, FillAll;
  }
}
