/** The interleaver is only ever given whole blocks: between steps it is never ready, and a flush pads whole rows only. */
module WholeBlocks {
  import opened Types
  import opened Interleaving
  import opened TxSpec

  ghost predicate FullRow(g: Geometry, row: Row) {
    |row.cells| == g.n && forall c :: 0 <= c < g.n <==> c in row.cells
  }

  /** Every assigned row is complete, and at least one row is unassigned. */
  ghost predicate Whole(g: Geometry, w: Window) {
    && !w.ready && w.popCol == w.popRow == 0 && |w.rows| < g.depth
    && forall r :: 0 <= r < |w.rows| ==> FullRow(g, w.rows[r])
  }

  /** The first i symbols of a block as a row. */
  function RowPrefix(syms: seq<Symbol>, id: uint32, i: nat): Row
    requires i <= |syms|
  {
    Row(id, map c | 0 <= c < i :: syms[c])
  }

  function RowOf(syms: seq<Symbol>, id: uint32): Row {
    RowPrefix(syms, id, |syms|)
  }

  /** A block's symbols, in column order. */
  ghost predicate BlockLike(g: Geometry, syms: seq<Symbol>, id: uint32) {
    |syms| == g.n && forall c :: 0 <= c < |syms| ==> syms[c].packetId == id && syms[c].fecId == c
  }

  ghost predicate Unused(w: Window, id: uint32) {
    forall r :: 0 <= r < |w.rows| ==> w.rows[r].key != id
  }

  /** The window with the first i symbols of a further block in it. */
  function PartWay(g: Geometry, w: Window, syms: seq<Symbol>, id: uint32, i: nat, now: int): Window
    requires i <= |syms|
  {
    Window(w.rows + [RowPrefix(syms, id, i)], if w.rows == [] then now else w.start,
           i == g.n && |w.rows| + 1 == g.depth, 0, 0)
  }

  lemma {:induction false} PrefixSize(syms: seq<Symbol>, id: uint32, i: nat)
    requires i <= |syms|
    ensures |RowPrefix(syms, id, i).cells| == i
  {
    var m := RowPrefix(syms, id, i).cells;
    if i == 0 {
      assert m == map[];
    } else {
      PrefixSize(syms, id, i - 1);
      assert m == RowPrefix(syms, id, i - 1).cells[i - 1 := syms[i - 1]];
    }
  }

  /** Complete rows, plus one row with i cells. */
  lemma CountRows(g: Geometry, w: Window, syms: seq<Symbol>, id: uint32, i: nat)
    requires Whole(g, w) && i <= |syms| == g.n
    ensures FullRows(w.rows + [RowPrefix(syms, id, i)], g.n) == |w.rows| + if i == g.n then 1 else 0
  {
    AllFull(w.rows, g.n, |w.rows|);
    PrefixSize(syms, id, i);
    FullRowsAppend(w.rows, g.n, RowPrefix(syms, id, i));
  }

  /** Where the block's key is found once it has a row. */
  lemma {:induction false} FoundLast(rows: seq<Row>, row: Row, i: nat)
    requires i <= |rows| && forall r :: 0 <= r < |rows| ==> rows[r].key != row.key
    ensures FindFrom(rows + [row], row.key, i) == |rows|
    ensures FindFrom(rows, row.key, i) == |rows|
    decreases |rows| - i
  {
    if i < |rows| { FoundLast(rows, row, i + 1); }
  }

  lemma StoreNext(g: Geometry, w: Window, syms: seq<Symbol>, id: uint32, i: nat)
    requires i < |syms| == g.n && BlockLike(g, syms, id)
    ensures WithCell(w.rows + [RowPrefix(syms, id, i)], |w.rows|, syms[i]) == w.rows + [RowPrefix(syms, id, i + 1)]
    ensures i !in RowPrefix(syms, id, i).cells
  {
    assert RowPrefix(syms, id, i).cells[i := syms[i]] == RowPrefix(syms, id, i + 1).cells;
  }

  /** The first symbol of a block takes the next row. */
  lemma PushFirst(g: Geometry, w: Window, syms: seq<Symbol>, id: uint32, now: int)
    requires ValidGeometry(g) && 2 <= g.n && Whole(g, w) && BlockLike(g, syms, id) && Unused(w, id)
    ensures Push(g, w, syms[0], now) == (PartWay(g, w, syms, id, 1, now), 0)
  {
    FoundLast(w.rows, Row(id, map[]), 0);
    StoreNext(g, w, syms, id, 0);
    assert RowPrefix(syms, id, 0) == Row(id, map[]);
    CountRows(g, w, syms, id, 1);
    PrefixSize(syms, id, 1);
  }

  /** Each further symbol fills the next column. */
  lemma PushNext(g: Geometry, w: Window, syms: seq<Symbol>, id: uint32, i: nat, now: int)
    requires ValidGeometry(g) && Whole(g, w) && BlockLike(g, syms, id) && Unused(w, id) && 1 <= i < g.n
    ensures var (w', rc) := Push(g, PartWay(g, w, syms, id, i, now), syms[i], now);
      w' == PartWay(g, w, syms, id, i + 1, now) && rc >= 0
  {
    FoundLast(w.rows, RowPrefix(syms, id, i), 0);
    StoreNext(g, w, syms, id, i);
    CountRows(g, w, syms, id, i + 1);
    PrefixSize(syms, id, i + 1);
  }

  /** An accepted push goes on with the next symbol. */
  lemma PushOn(cfg: TxConfig, w: Window, syms: seq<Symbol>, i: nat, now: int)
    requires ValidTx(cfg) && WellFormed(TxGeometry(cfg), w) && FitsAll(cfg, w.rows) && AllFit(cfg, syms)
    requires i < |syms| && Push(TxGeometry(cfg), w, syms[i], now).1 >= 0
    ensures var w' := Push(TxGeometry(cfg), w, syms[i], now).0;
      && WellFormed(TxGeometry(cfg), w') && FitsAll(cfg, w'.rows)
      && PushFrom(cfg, w, syms, i, now) == PushFrom(cfg, w', syms, i + 1, now)
  {
    hide Push, WellFormed, FitsAll;
    PushKeeps(TxGeometry(cfg), w, syms[i], now);
    PushFits(cfg, w, syms[i], now);
  }

  lemma BlockLength(g: Geometry, syms: seq<Symbol>, id: uint32)
    requires BlockLike(g, syms, id)
    ensures |syms| == g.n
  {
  }

  /** Pushing a whole block adds its row, rejects nothing, and makes the window ready when that was the last row. */
  lemma {:induction false} PushBlock(cfg: TxConfig, w: Window, syms: seq<Symbol>, id: uint32, i: nat, now: int)
    requires ValidTx(cfg) && AllFit(cfg, syms) && FitsAll(cfg, w.rows)
    requires var g := TxGeometry(cfg); Whole(g, w) && BlockLike(g, syms, id) && Unused(w, id)
    requires 1 <= i <= |syms|
    requires var p := PartWay(TxGeometry(cfg), w, syms, id, i, now);
      WellFormed(TxGeometry(cfg), p) && FitsAll(cfg, p.rows)
    ensures PushFrom(cfg, PartWay(TxGeometry(cfg), w, syms, id, i, now), syms, i, now)
         == (PartWay(TxGeometry(cfg), w, syms, id, |syms|, now), true)
    decreases |syms| - i
  {
    var g := TxGeometry(cfg);
    if i < |syms| {
      hide Push, PartWay, Whole, FullRow, WellFormed, FitsAll, BlockLike, Unused, PushFrom, RowOf, RowPrefix;
      BlockLength(g, syms, id);
      PushNext(g, w, syms, id, i, now);
      PushOn(cfg, PartWay(g, w, syms, id, i, now), syms, i, now);
      PushBlock(cfg, w, syms, id, i + 1, now);
    }
  }

  lemma PushWhole(cfg: TxConfig, w: Window, syms: seq<Symbol>, id: uint32, now: int)
    requires ValidTx(cfg) && AllFit(cfg, syms) && FitsAll(cfg, w.rows) && WellFormed(TxGeometry(cfg), w)
    requires var g := TxGeometry(cfg); Whole(g, w) && BlockLike(g, syms, id) && Unused(w, id)
    ensures PushFrom(cfg, w, syms, 0, now) == (PartWay(TxGeometry(cfg), w, syms, id, |syms|, now), true)
  {
    var g := TxGeometry(cfg);
    hide Push, PartWay, Whole, FullRow, WellFormed, FitsAll, BlockLike, Unused, PushFrom, RowOf, RowPrefix;
    BlockLength(g, syms, id);
    PushFirst(g, w, syms, id, now);
    PushOn(cfg, w, syms, 0, now);
    PushBlock(cfg, w, syms, id, 1, now);
  }

  // ---------------------------------------------------------------------------
  // Flushing
  // ---------------------------------------------------------------------------

  /** The row a forced flush makes of an unassigned one: every cell is padding with key and length zero. */
  function PaddingRow(g: Geometry): Row
    requires ValidGeometry(g)
  {
    FillRow(g, Row(0, map[]))
  }

  lemma PaddingIsErased(g: Geometry, c: nat)
    requires ValidGeometry(g) && c < g.n
    ensures c in PaddingRow(g).cells && PaddingRow(g).cells[c] == Symbol(0, c, c, g.n, 0, 0, Zeros(g.size))
  {
  }

  /** The rows followed by padding rows up to depth. */
  function Padded(g: Geometry, rows: seq<Row>): (r: seq<Row>)
    requires ValidGeometry(g) && |rows| <= g.depth
    ensures |r| == g.depth
  {
    rows + seq(g.depth - |rows|, _ => PaddingRow(g))
  }

  /** A flush of whole rows keeps them as they are and pads the rest. */
  lemma TickWhole(g: Geometry, w: Window, now: int)
    requires ValidGeometry(g) && Whole(g, w)
    ensures Tick(g, w, now) ==
      if g.flush == 0 || w.rows == [] || Elapsed(w.start, now) < g.flush then (w, 0)
      else (Window(Padded(g, w.rows), w.start, true, 0, 0), 1)
  {
    AllFull(w.rows, g.n, |w.rows|);
    assert FillAll(g, w.rows) == Padded(g, w.rows);
  }
}
