/** The matrix interleaver (src/interleaver.c): rows are blocks in arrival order, columns are fec_ids, read by column. */
module Interleaving {
  import opened Types
  import opened Arithmetic

  datatype Geometry = Geometry(depth: nat, n: nat, size: nat, flush: nat)

  ghost predicate ValidGeometry(g: Geometry) {
    1 <= g.depth && 1 <= g.n <= MAX_SYMBOLS_PER_BLOCK && 0 < g.size
  }

  /** One assigned row: the block key and the cells received so far, by column. */
  datatype Row = Row(key: uint32, cells: map<int, Symbol>)

  /** The window as a value: assigned rows in arrival order, and the next cell to drain. */
  datatype Window = Window(rows: seq<Row>, start: int, ready: bool, popCol: nat, popRow: nat)

  const EmptyWindow := Window([], 0, false, 0, 0)

  // ---------------------------------------------------------------------------
  // Specification of the operations
  // ---------------------------------------------------------------------------

  /** The first row at or after i with the key, or |rows| when there is none. */
  function FindFrom(rows: seq<Row>, key: uint32, i: nat): (r: nat)
    requires i <= |rows|
    ensures i <= r <= |rows|
    ensures r < |rows| ==> rows[r].key == key
    ensures forall j :: i <= j < r ==> rows[j].key != key
    decreases |rows| - i
  {
    if i == |rows| || rows[i].key == key then i else FindFrom(rows, key, i + 1)
  }

  function FindRow(rows: seq<Row>, key: uint32): (r: nat)
    ensures r <= |rows|
  {
    FindFrom(rows, key, 0)
  }

  /** How many of the first k rows hold n cells. */
  function CountFull(rows: seq<Row>, n: nat, k: nat): (c: nat)
    requires k <= |rows|
    ensures c <= k
  {
    if k == 0 then 0 else CountFull(rows, n, k - 1) + if |rows[k - 1].cells| == n then 1 else 0
  }

  function FullRows(rows: seq<Row>, n: nat): (c: nat)
    ensures c <= |rows|
  {
    CountFull(rows, n, |rows|)
  }

  /** The rows once the key has one: a new row goes last. */
  function RowsFor(rows: seq<Row>, key: uint32): (rows': seq<Row>)
    ensures FindRow(rows, key) < |rows'|
  {
    if FindRow(rows, key) == |rows| then rows + [Row(key, map[])] else rows
  }

  /** The rows after `sym` is stored in row r. */
  function WithCell(rows: seq<Row>, r: nat, sym: Symbol): (rows': seq<Row>)
    requires r < |rows|
    ensures |rows'| == |rows|
  {
    rows[r := Row(rows[r].key, rows[r].cells[sym.fecId := sym])]
  }

  function Push(g: Geometry, w: Window, sym: Symbol, now: int): (res: (Window, int)) {
    var r := FindRow(w.rows, sym.packetId);
    if w.ready || sym.fecId >= g.n || (r == |w.rows| && r >= g.depth) then (w, -1)
    else
      var rows := RowsFor(w.rows, sym.packetId);
      var start := if w.rows == [] then now else w.start;
      if sym.fecId in rows[r].cells then (w.(rows := rows, start := start), 0)
      else
        var rows' := WithCell(rows, r, sym);
        if |rows'[r].cells| == g.n && FullRows(rows', g.n) == g.depth
        then (Window(rows', start, true, 0, 0), 1)
        else (w.(rows := rows', start := start), 0)
  }

  /** The cell written by a forced flush. */
  function PadCell(g: Geometry, key: uint32, col: nat): Symbol
    requires ValidGeometry(g) && col < g.n
  {
    Symbol(key, col, col, g.n, 0, 0, Zeros(g.size))
  }

  function FillRow(g: Geometry, row: Row): (r: Row)
    requires ValidGeometry(g)
    ensures r.key == row.key
  {
    Row(row.key, map c | 0 <= c < g.n :: if c in row.cells then row.cells[c] else PadCell(g, row.key, c))
  }

  /** All depth rows after a forced flush: unassigned rows take key 0. */
  function FillAll(g: Geometry, rows: seq<Row>): (r: seq<Row>)
    requires ValidGeometry(g)
  {
    seq(g.depth, i requires 0 <= i =>
      if i < |rows| && |rows[i].cells| >= g.n then rows[i]
      else FillRow(g, if i < |rows| then rows[i] else Row(0, map[])))
  }

  function Tick(g: Geometry, w: Window, now: int): (res: (Window, int))
    requires ValidGeometry(g)
  {
    if g.flush == 0 || w.ready || w.rows == [] || FullRows(w.rows, g.n) < 1
       || Elapsed(w.start, now) < g.flush
    then (w, 0)
    else (Window(FillAll(g, w.rows), w.start, true, 0, 0), 1)
  }

  /** The invariant of every reachable window. */
  ghost predicate WellFormed(g: Geometry, w: Window) {
    && |w.rows| <= g.depth
    && (forall r, c :: 0 <= r < |w.rows| && c in w.rows[r].cells ==> 0 <= c < g.n)
    && (w.ready ==> Complete(g, w.rows) && w.popCol < g.n && w.popRow < g.depth)
    && (!w.ready ==> w.popCol == w.popRow == 0 && FullRows(w.rows, g.n) < g.depth)
  }

  /** Every cell of every row is present. */
  ghost predicate Complete(g: Geometry, rows: seq<Row>) {
    |rows| == g.depth && forall r, c :: 0 <= r < g.depth && 0 <= c < g.n ==> c in rows[r].cells
  }

  /** Pop: the next cell, the successor window, and 1 on the last cell. */
  function Pop(g: Geometry, w: Window): (res: (Window, Symbol, int))
    requires ValidGeometry(g) && WellFormed(g, w) && w.ready
  {
    var sym := w.rows[w.popRow].cells[w.popCol];
    if w.popRow + 1 < g.depth then (w.(popRow := w.popRow + 1), sym, 0)
    else if w.popCol + 1 < g.n then (w.(popRow := 0, popCol := w.popCol + 1), sym, 0)
    else (EmptyWindow, sym, 1)
  }

  /** Symbols left in a ready window. */
  function Pending(g: Geometry, w: Window): (p: int) {
    if !w.ready then 0 else g.depth * g.n - (w.popCol * g.depth + w.popRow)
  }

  // ---------------------------------------------------------------------------
  // Counting facts
  // ---------------------------------------------------------------------------

  /** The count reaches k exactly when the first k rows are all full. */
  lemma {:induction false} AllFull(rows: seq<Row>, n: nat, k: nat)
    requires k <= |rows|
    ensures CountFull(rows, n, k) == k <==> forall r :: 0 <= r < k ==> |rows[r].cells| == n
  {
    if k > 0 {
      AllFull(rows, n, k - 1);
    }
  }

  /** The count depends on the first k rows only. */
  lemma {:induction false} CountFullSame(rows: seq<Row>, rows': seq<Row>, n: nat, k: nat)
    requires k <= |rows| && k <= |rows'| && forall r :: 0 <= r < k ==> rows[r] == rows'[r]
    ensures CountFull(rows, n, k) == CountFull(rows', n, k)
  {
    if k > 0 {
      CountFullSame(rows, rows', n, k - 1);
    }
  }

  /** Replacing row r changes the count by that row's own change. */
  lemma {:induction false} CountFullUpdate(rows: seq<Row>, n: nat, r: nat, row: Row, k: nat)
    requires r < k <= |rows|
    ensures CountFull(rows[r := row], n, k) ==
            CountFull(rows, n, k) - (if |rows[r].cells| == n then 1 else 0) + (if |row.cells| == n then 1 else 0)
  {
    if r == k - 1 {
      CountFullSame(rows, rows[r := row], n, r);
    } else {
      CountFullUpdate(rows, n, r, row, k - 1);
    }
  }

  lemma FullRowsAppend(rows: seq<Row>, n: nat, row: Row)
    ensures FullRows(rows + [row], n) == FullRows(rows, n) + if |row.cells| == n then 1 else 0
  {
    CountFullSame(rows, rows + [row], n, |rows|);
  }

  lemma CompleteIffFull(g: Geometry, rows: seq<Row>)
    requires |rows| <= g.depth
    requires forall r, c :: 0 <= r < |rows| && c in rows[r].cells ==> 0 <= c < g.n
    ensures FullRows(rows, g.n) == g.depth <==> Complete(g, rows)
  {
    AllFull(rows, g.n, |rows|);
    forall r | 0 <= r < |rows|
      ensures |rows[r].cells| == g.n <==> forall c :: 0 <= c < g.n ==> c in rows[r].cells
    {
      KeysBound(rows[r].cells, g.n);
    }
  }

  // ---------------------------------------------------------------------------
  // Every operation keeps the window well formed
  // ---------------------------------------------------------------------------

  /** Storing one new cell: the counters move by at most one row. */
  lemma StoreCell(g: Geometry, rows: seq<Row>, r: nat, sym: Symbol)
    requires r < |rows| <= g.depth && 0 <= sym.fecId < g.n && sym.fecId !in rows[r].cells
    requires forall r, c :: 0 <= r < |rows| && c in rows[r].cells ==> 0 <= c < g.n
    ensures var rows' := WithCell(rows, r, sym);
            var full := |rows'[r].cells| == g.n;
            && |rows'[r].cells| == |rows[r].cells| + 1 <= g.n
            && FullRows(rows', g.n) == FullRows(rows, g.n) + (if full then 1 else 0)
            && (FullRows(rows', g.n) == g.depth <==> Complete(g, rows'))
  {
    var row := Row(rows[r].key, rows[r].cells[sym.fecId := sym]);
    KeysBound(row.cells, g.n);
    CountFullUpdate(rows, g.n, r, row, |rows|);
    CompleteIffFull(g, rows[r := row]);
  }

  /** Storing a new cell keeps the window well formed, ready exactly when it completes the matrix. */
  lemma StoreKeeps(g: Geometry, w: Window, r: nat, sym: Symbol)
    requires ValidGeometry(g) && WellFormed(g, w) && !w.ready
    requires r < |w.rows| && sym.fecId < g.n && sym.fecId !in w.rows[r].cells
    ensures var rows := WithCell(w.rows, r, sym);
            var full := |rows[r].cells| == g.n && FullRows(rows, g.n) == g.depth;
            && WellFormed(g, w.(rows := rows, ready := full))
            && FullRows(rows, g.n) == FullRows(w.rows, g.n) + (if |rows[r].cells| == g.n then 1 else 0)
  {
    StoreCell(g, w.rows, r, sym);
  }

  lemma PushKeeps(g: Geometry, w: Window, sym: Symbol, now: int)
    requires ValidGeometry(g) && WellFormed(g, w)
    ensures WellFormed(g, Push(g, w, sym, now).0)
  {
    var r := FindRow(w.rows, sym.packetId);
    if !(w.ready || sym.fecId >= g.n || (r == |w.rows| && r >= g.depth)) {
      var rows := RowsFor(w.rows, sym.packetId);
      var start := if w.rows == [] then now else w.start;
      FullRowsAppend(w.rows, g.n, Row(sym.packetId, map[]));
      if sym.fecId !in rows[r].cells {
        StoreKeeps(g, w.(rows := rows, start := start), r, sym);
      }
    }
  }

  lemma TickKeeps(g: Geometry, w: Window, now: int)
    requires ValidGeometry(g) && WellFormed(g, w)
    ensures WellFormed(g, Tick(g, w, now).0)
    ensures Tick(g, w, now).1 == 1 <==> Tick(g, w, now).0.ready && !w.ready
  {
    hide FillAll, WellFormed;
    if !w.ready { FilledRows(g, w); }
  }

  /** A forced flush completes every row. */
  lemma FilledRows(g: Geometry, w: Window)
    requires ValidGeometry(g) && WellFormed(g, w) && !w.ready
    ensures WellFormed(g, Window(FillAll(g, w.rows), w.start, true, 0, 0))
    ensures |FillAll(g, w.rows)| == g.depth && FullRows(FillAll(g, w.rows), g.n) == g.depth
  {
    var rows := FillAll(g, w.rows);
    forall r | 0 <= r < g.depth
      ensures forall c :: 0 <= c < g.n <==> c in rows[r].cells
    {
      if r < |w.rows| && |w.rows[r].cells| >= g.n { KeysBound(w.rows[r].cells, g.n); }
    }
    CompleteIffFull(g, rows);
  }

  lemma PopKeeps(g: Geometry, w: Window)
    requires ValidGeometry(g) && WellFormed(g, w) && w.ready
    ensures WellFormed(g, Pop(g, w).0)
  {
  }

  // ---------------------------------------------------------------------------
  // The implementation
  // ---------------------------------------------------------------------------

  /** Per-row metadata (slot_meta_t): how many cells have arrived, and which. */
  datatype SlotMeta = SlotMeta(symbolCount: int, receivedMask: seq<bool>)

  function BlankMeta(n: nat): (m: SlotMeta)
    ensures |m.receivedMask| == n && m.symbolCount == 0
    ensures forall c :: 0 <= c < n ==> !m.receivedMask[c]
  {
    SlotMeta(0, seq(n, _ => false))
  }

  class Interleaver {
    const g: Geometry
    const matrix: array2<Symbol>
    const slots: array<SlotMeta>
    const rowKey: array<uint32>
    const rowAssigned: array<bool>
    var windowBlockCount: int
    var windowStart: int
    var windowHasData: bool
    var completeSlots: int
    var popCol: int
    var popRow: int
    var ready: bool

    /** The abstract window; unmarked cells of the matrix are not part of it. */
    ghost var w: Window
    ghost const Repr: set<object>

    ghost predicate Shape() {
      && ValidGeometry(g)
      && Repr == {this, matrix, slots, rowKey, rowAssigned}
      && matrix.Length0 == g.depth && matrix.Length1 == g.n
      && slots.Length == rowKey.Length == rowAssigned.Length == g.depth
    }

    /** Slot r and its matrix row represent the received cells of `row`. */
    ghost predicate Holds(r: int, row: Row)
      requires Shape() && 0 <= r < g.depth
      reads matrix, slots
    {
      && |slots[r].receivedMask| == g.n
      && slots[r].symbolCount == |row.cells|
      && (forall c :: 0 <= c < g.n ==> (slots[r].receivedMask[c] <==> c in row.cells))
      && (forall c :: 0 <= c < g.n && c in row.cells ==> matrix[r, c] == row.cells[c])
    }

    /** The arrays represent exactly these rows; the remaining slots are blank. */
    ghost predicate Rows(rows: seq<Row>)
      requires Shape()
      reads matrix, slots, rowKey, rowAssigned
    {
      && |rows| <= g.depth
      && (forall r :: 0 <= r < |rows| ==> Holds(r, rows[r]))
      && (forall r :: 0 <= r < |rows| ==> rowAssigned[r] && rowKey[r] == rows[r].key)
      && (forall r :: |rows| <= r < g.depth ==> slots[r] == BlankMeta(g.n) && !rowAssigned[r])
    }

    ghost predicate Counters()
      requires Shape()
      reads this
    {
      && 0 <= windowBlockCount <= g.depth
      && |w.rows| == (if ready then g.depth else windowBlockCount)
      && w.ready == ready && w.start == windowStart
      && w.popCol == popCol && w.popRow == popRow
      && (windowHasData <==> w.rows != [])
      && completeSlots == FullRows(w.rows, g.n)
    }

    ghost predicate Valid()
      reads this, Repr
    {
      Shape() && WellFormed(g, w) && Rows(w.rows) && Counters()
    }

    constructor (g: Geometry)
      requires ValidGeometry(g)
      ensures Valid() && fresh(Repr) && this.g == g && w == EmptyWindow
    {
      this.g := g;
      var blank := Symbol(0, 0, 0, 0, 0, 0, []);
      var cells := new Symbol[g.depth, g.n]((_, _) => blank);
      var metas := new SlotMeta[g.depth](_ => BlankMeta(g.n));
      var keys := new uint32[g.depth](_ => 0);
      var inUse := new bool[g.depth](_ => false);
      matrix, slots, rowKey, rowAssigned := cells, metas, keys, inUse;
      windowBlockCount, windowStart, windowHasData := 0, 0, false;
      completeSlots, popCol, popRow, ready := 0, 0, 0, false;
      w := EmptyWindow;
      Repr := {this, cells, metas, keys, inUse};
      new;
    }

    /** interleaver_create: no object for invalid parameters. */
    static method Create(depth: int, symbolsPerBlock: int, symbolSize: int, flushTimeout: int) returns (self: Interleaver?)
      ensures self == null <==>
                depth < 1 || symbolsPerBlock < 1 || symbolsPerBlock > MAX_SYMBOLS_PER_BLOCK
                || symbolSize <= 0 || flushTimeout < 0
      ensures self != null ==>
                && fresh(self) && fresh(self.Repr) && self.Valid() && self.w == EmptyWindow
                && self.g == Geometry(depth, symbolsPerBlock, symbolSize, flushTimeout)
    {
      if depth < 1 || symbolsPerBlock < 1 || symbolsPerBlock > MAX_SYMBOLS_PER_BLOCK
         || symbolSize <= 0 || flushTimeout < 0
      {
        return null;
      }
      self := new Interleaver(Geometry(depth, symbolsPerBlock, symbolSize, flushTimeout));
    }

    /** reset_window: everything but the matrix is cleared. */
    method ResetWindow()
      requires Shape()
      modifies Repr
      ensures Valid() && w == EmptyWindow
    {
      forall r | 0 <= r < g.depth { slots[r] := BlankMeta(g.n); }
      forall r | 0 <= r < g.depth { rowKey[r] := 0; }
      forall r | 0 <= r < g.depth { rowAssigned[r] := false; }
      windowBlockCount, windowStart, windowHasData := 0, 0, false;
      completeSlots, popCol, popRow, ready := 0, 0, 0, false;
      w := EmptyWindow;
    }

    /** find_row_for_block_key: -1 when no assigned row has the key. */
    method FindRowForBlockKey(key: uint32) returns (row: int)
      requires Valid()
      ensures row == if FindRow(w.rows, key) < |w.rows| then FindRow(w.rows, key) else -1
    {
      row := 0;
      while row < g.depth
        invariant 0 <= row <= g.depth
        invariant forall j :: 0 <= j < row && j < |w.rows| ==> w.rows[j].key != key
      {
        if rowAssigned[row] && rowKey[row] == key {
          return;
        }
        row := row + 1;
      }
      row := -1;
    }

    /** assign_row_for_block_key: the next row in arrival order, or -1 when the window is full. */
    method AssignRowForBlockKey(key: uint32) returns (row: int)
      requires Shape() && Rows(w.rows) && |w.rows| == windowBlockCount
      modifies this`windowBlockCount, this`w, rowKey, rowAssigned
      ensures Rows(w.rows) && |w.rows| == windowBlockCount
      ensures row == if |old(w.rows)| < g.depth then |old(w.rows)| else -1
      ensures w == if row < 0 then old(w) else old(w).(rows := old(w.rows) + [Row(key, map[])])
    {
      if windowBlockCount >= g.depth {
        return -1;
      }
      row := windowBlockCount % g.depth;
      SmallMod(windowBlockCount, g.depth);
      rowKey[row] := key;
      rowAssigned[row] := true;
      windowBlockCount := windowBlockCount + 1;
      w := w.(rows := w.rows + [Row(key, map[])]);
      assert Holds(row, Row(key, map[]));
    }

    /** Write a cell that has not been received: the row gains exactly that cell. */
    method WriteCell(row: nat, sym: Symbol)
      requires Shape() && Rows(w.rows) && row < |w.rows| && sym.fecId < g.n
      requires sym.fecId !in w.rows[row].cells
      modifies matrix, slots, this`w
      ensures Shape() && Rows(w.rows)
      ensures w == old(w).(rows := WithCell(old(w.rows), row, sym))
    {
      ghost var rows := w.rows;
      assert Holds(row, rows[row]);
      matrix[row, sym.fecId] := sym;
      slots[row] := SlotMeta(slots[row].symbolCount + 1, slots[row].receivedMask[sym.fecId := true]);
      w := w.(rows := WithCell(rows, row, sym));
      assert Holds(row, w.rows[row]);
      forall r | 0 <= r < |rows| && r != row
        ensures Holds(r, w.rows[r])
      {
        assert old(Holds(r, rows[r]));
      }
    }

    /** resolve_row, and the start of the window's clock: -1 when the key has no row and none is left. */
    method ResolveRow(key: uint32, now: int) returns (row: int)
      requires Valid() && !ready
      modifies this`windowBlockCount, this`windowStart, this`windowHasData, this`w, rowKey, rowAssigned
      ensures Valid()
      ensures var r := FindRow(old(w.rows), key);
              if r == |old(w.rows)| >= g.depth then row == -1 && w == old(w)
              else row == r && w == old(w).(rows := RowsFor(old(w.rows), key),
                                            start := if old(w.rows) == [] then now else old(w.start))
    {
      hide FullRows, Interleaver.Rows;
      ghost var w0 := w;
      row := FindRowForBlockKey(key);
      if row < 0 {
        row := AssignRowForBlockKey(key);
        if row < 0 {
          return;
        }
        FullRowsAppend(w0.rows, g.n, Row(key, map[]));
      }
      if !windowHasData {
        windowStart := now;
        windowHasData := true;
        w := w.(start := now);
      }
    }

    /** interleaver_push_symbol. */
    method PushSymbol(sym: Symbol, now: int) returns (rc: int)
      requires Valid()
      modifies Repr
      ensures Valid()
      ensures (w, rc) == Push(g, old(w), sym, now)
    {
      if ready || sym.fecId >= g.n {
        return -1;
      }
      var row := ResolveRow(sym.packetId, now);
      if row < 0 {
        return -1;
      }
      assert Holds(row, w.rows[row]);
      if slots[row].receivedMask[sym.fecId] {
        return 0;
      }
      rc := StoreNewCell(row, sym);
    }

    /** The tail of interleaver_push_symbol: store the cell and detect a complete window. */
    method StoreNewCell(row: nat, sym: Symbol) returns (rc: int)
      requires Valid() && !ready && row < |w.rows| && sym.fecId < g.n
      requires sym.fecId !in w.rows[row].cells
      modifies Repr
      ensures Valid()
      ensures var rows := WithCell(old(w.rows), row, sym);
              var full := |rows[row].cells| == g.n && FullRows(rows, g.n) == g.depth;
              w == old(w).(rows := rows, ready := full) && rc == if full then 1 else 0
    {
      hide WithCell, FullRows, Interleaver.Rows;
      StoreKeeps(g, w, row, sym);
      WriteCell(row, sym);
      RowIs(row);
      if slots[row].symbolCount == g.n {
        rc := CountCompleteRow();
      } else {
        rc := 0;
      }
    }

    /** What Rows says about one assigned row. */
    lemma RowIs(row: nat)
      requires Shape() && Rows(w.rows) && row < |w.rows|
      ensures Holds(row, w.rows[row])
    {
    }

    /** One more row is complete; the window is ready when it was the last. */
    method CountCompleteRow() returns (rc: int)
      requires Shape() && !ready && !w.ready && FullRows(w.rows, g.n) == completeSlots + 1
      modifies this`completeSlots, this`ready, this`popCol, this`popRow, this`w
      ensures completeSlots == FullRows(w.rows, g.n)
      ensures ready == (completeSlots == g.depth) && rc == (if ready then 1 else 0)
      ensures w == old(w).(ready := ready)
      ensures if ready then popCol == popRow == 0 else popCol == old(popCol) && popRow == old(popRow)
    {
      completeSlots := completeSlots + 1;
      if completeSlots == g.depth {
        ready := true;
        popCol := 0;
        popRow := 0;
        w := w.(ready := true);
        return 1;
      }
      return 0;
    }

    /** force_fill_row: every missing cell of the row becomes padding under the row's key, 0 if unassigned. */
    method ForceFillRow(row: nat, ghost r: Row)
      requires Shape() && row < g.depth && Holds(row, r)
      requires r.key == if rowAssigned[row] then rowKey[row] else 0
      modifies matrix, slots, rowKey, rowAssigned
      ensures Holds(row, FillRow(g, r)) && rowAssigned[row] && rowKey[row] == r.key
      ensures forall i :: 0 <= i < g.depth && i != row ==>
                slots[i] == old(slots[i]) && rowAssigned[i] == old(rowAssigned[i]) && rowKey[i] == old(rowKey[i])
      ensures forall i, q: Row :: 0 <= i < g.depth && i != row && old(Holds(i, q)) ==> Holds(i, q)
    {
      var blockKey := if rowAssigned[row] then rowKey[row] else 0;
      FillCells(row, blockKey, r);
      slots[row] := SlotMeta(g.n, slots[row].receivedMask);
      if !rowAssigned[row] {
        rowAssigned[row] := true;
        rowKey[row] := blockKey;
      }
      KeysBound(FillRow(g, r).cells, g.n);
    }

    /** The column loop of force_fill_row. */
    method FillCells(row: nat, blockKey: uint32, ghost r: Row)
      requires Shape() && row < g.depth && Holds(row, r) && r.key == blockKey
      modifies matrix, slots
      ensures |slots[row].receivedMask| == g.n
      ensures forall c :: 0 <= c < g.n ==> slots[row].receivedMask[c] && matrix[row, c] == FillRow(g, r).cells[c]
      ensures forall i :: 0 <= i < g.depth && i != row ==> slots[i] == old(slots[i])
      ensures forall i, c :: 0 <= i < g.depth && i != row && 0 <= c < g.n ==> matrix[i, c] == old(matrix[i, c])
    {
      ghost var full := FillRow(g, r).cells;
      for col := 0 to g.n
        invariant |slots[row].receivedMask| == g.n
        invariant forall c :: 0 <= c < col ==> slots[row].receivedMask[c] && matrix[row, c] == full[c]
        invariant forall c :: col <= c < g.n ==> (slots[row].receivedMask[c] <==> c in r.cells)
        invariant forall c :: col <= c < g.n && c in r.cells ==> matrix[row, c] == r.cells[c]
        invariant forall i :: 0 <= i < g.depth && i != row ==> slots[i] == old(slots[i])
        invariant forall i, c :: 0 <= i < g.depth && i != row && 0 <= c < g.n ==> matrix[i, c] == old(matrix[i, c])
      {
        if !slots[row].receivedMask[col] {
          matrix[row, col] := PadCell(g, blockKey, col);
          slots[row] := slots[row].(receivedMask := slots[row].receivedMask[col := true]);
        }
      }
    }

    /** interleaver_tick: a forced flush once a complete row has waited for the timeout. */
    method TickWindow(now: int) returns (rc: int)
      requires Valid()
      modifies Repr
      ensures Valid()
      ensures (w, rc) == Tick(g, old(w), now)
    {
      if g.flush == 0 {
        return 0;
      }
      if ready || !windowHasData || completeSlots < 1 {
        return 0;
      }
      if Elapsed(windowStart, now) < g.flush {
        return 0;
      }
      Flush();
      return 1;
    }

    /** The forced flush: every row is filled, and draining starts over. */
    method Flush()
      requires Valid() && !ready && windowHasData
      modifies Repr
      ensures Valid() && w == Window(FillAll(g, old(w.rows)), old(w.start), true, 0, 0)
    {
      hide FillAll, FullRows, Interleaver.Rows, FillRow;
      FilledRows(g, w);
      PadRows();
      w := Window(FillAll(g, w.rows), w.start, true, 0, 0);
      completeSlots := g.depth;
      ready := true;
      popCol := 0;
      popRow := 0;
    }

    /** The row loop of interleaver_tick. */
    method PadRows()
      requires Shape() && Rows(w.rows)
      modifies matrix, slots, rowKey, rowAssigned
      ensures Rows(FillAll(g, w.rows))
    {
      hide FillRow;
      ghost var rows := w.rows;
      ghost var full := FillAll(g, rows);
      for row := 0 to g.depth
        invariant forall r :: 0 <= r < row ==> Holds(r, full[r]) && rowAssigned[r] && rowKey[r] == full[r].key
        invariant forall r :: row <= r < |rows| ==> Holds(r, rows[r]) && rowAssigned[r] && rowKey[r] == rows[r].key
        invariant forall r :: row <= r < g.depth && |rows| <= r ==> !rowAssigned[r]
        invariant forall r :: row <= r < g.depth && |rows| <= r ==> slots[r] == BlankMeta(g.n)
      {
        ghost var r := if row < |rows| then rows[row] else Row(0, map[]);
        assert Holds(row, r);
        if slots[row].symbolCount < g.n {
          ForceFillRow(row, r);
        }
      }
    }

    /** interleaver_pop_ready_symbol: -1 when not ready, 1 on the last cell of the window. */
    method PopReadySymbol() returns (sym: Symbol, rc: int)
      requires Valid()
      modifies Repr
      ensures Valid()
      ensures if !old(w.ready) then rc == -1 && w == old(w) else (w, sym, rc) == Pop(g, old(w))
    {
      if !ready {
        return Symbol(0, 0, 0, 0, 0, 0, []), -1;
      }
      sym := matrix[popRow, popCol];
      assert Holds(popRow, w.rows[popRow]);
      popRow := popRow + 1;
      if popRow == g.depth {
        popRow := 0;
        popCol := popCol + 1;
      }
      if popCol == g.n {
        ResetWindow();
        return sym, 1;
      }
      w := w.(popRow := popRow, popCol := popCol);
      return sym, 0;
    }

    /** interleaver_symbols_pending. */
    method SymbolsPending() returns (count: int)
      requires Valid()
      ensures count == Pending(g, w)
    {
      if !ready {
        return 0;
      }
      var drained := popCol * g.depth + popRow;
      return g.depth * g.n - drained;
    }
  }
}
