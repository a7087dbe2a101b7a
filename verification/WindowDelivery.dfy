/**
 The receive pipeline over one whole window that arrives in order, without loss and within the
 timers: every block completes at its last column, is decoded at once, and leaves no trace.
 */
module WindowDelivery {
  import opened Types
  import opened Interleaving
  import opened DeinterleaverSpec
  import opened DeinterleaverMap
  import opened WindowRecovery
  import FecWrapper
  import opened TxSpec
  import opened TxHistory
  import opened RxSpec

  /** How many cells of row r have arrived once (col, row) is the next. */
  function Got(r: nat, col: nat, row: nat): nat {
    col + if r < row then 1 else 0
  }

  /** The first i cells of a row. */
  function Prefix(row: Row, i: nat): map<int, Symbol>
    requires forall f :: 0 <= f < i ==> f in row.cells
  {
    map f | 0 <= f < i :: row.cells[f]
  }

  /** Row r is under way: begun and not complete. */
  predicate UnderWay(g: Geometry, rows: seq<Row>, r: nat, col: nat, row: nat)
    requires r < |rows|
  {
    rows[r].key != 0 && 0 < Got(r, col, row) < g.n
  }

  /** The entry of a row under way: its cells so far, all arrived since t0. */
  ghost predicate Entry(g: Geometry, rows: seq<Row>, b: Received, r: nat, col: nat, row: nat, t0: int)
    requires Complete(g, rows) && r < g.depth && Got(r, col, row) <= g.n
  {
    !b.ready && b.symbols == Prefix(rows[r], Got(r, col, row)) && t0 <= b.first && t0 <= b.last
  }

  /** Exactly the rows under way have entries. */
  ghost predicate InHand(g: Geometry, m: map<uint32, Received>, rows: seq<Row>, col: nat, row: nat, t0: int)
    requires Complete(g, rows)
  {
    && (forall r :: 0 <= r < g.depth && UnderWay(g, rows, r, col, row) ==>
          rows[r].key in m && Entry(g, rows, m[rows[r].key], r, col, row, t0))
    && (forall id :: id in m ==> exists r :: 0 <= r < g.depth && rows[r].key == id && UnderWay(g, rows, r, col, row))
  }

  lemma {:induction false} PrefixCard(row: Row, i: nat)
    requires forall f :: 0 <= f < i ==> f in row.cells
    ensures |Prefix(row, i)| == i
  {
    if i == 0 {
      assert Prefix(row, 0) == map[];
    } else {
      PrefixCard(row, i - 1);
      assert Prefix(row, i) == Prefix(row, i - 1)[i - 1 := row.cells[i - 1]];
    }
  }

  /** After the last row of a column comes the first row of the next. */
  lemma NextColumn(g: Geometry, m: map<uint32, Received>, rows: seq<Row>, col: nat, t0: int)
    requires Complete(g, rows) && InHand(g, m, rows, col, g.depth, t0)
    ensures InHand(g, m, rows, col + 1, 0, t0)
  {
    forall r | 0 <= r < g.depth ensures Got(r, col, g.depth) == Got(r, col + 1, 0) {}
    forall id | id in m
      ensures exists r :: 0 <= r < g.depth && rows[r].key == id && UnderWay(g, rows, r, col + 1, 0)
    {
      var r :| 0 <= r < g.depth && rows[r].key == id && UnderWay(g, rows, r, col, g.depth);
      assert UnderWay(g, rows, r, col + 1, 0);
    }
  }

  /** Nothing is in hand before the window and after it. */
  lemma NothingInHand(g: Geometry, m: map<uint32, Received>, rows: seq<Row>, t0: int)
    requires Complete(g, rows)
    ensures InHand(g, m, rows, 0, 0, t0) <==> m == map[]
    ensures InHand(g, m, rows, g.n, 0, t0) <==> m == map[]
  {
    if m == map[] {
    } else {
      var id :| id in m;
    }
  }

  /** A padding cell changes nothing. */
  lemma SkipCell(g: Geometry, m: map<uint32, Received>, rows: seq<Row>, col: nat, row: nat, t0: int)
    requires Complete(g, rows) && InHand(g, m, rows, col, row, t0) && row < g.depth && rows[row].key == 0
    ensures InHand(g, m, rows, col, row + 1, t0)
  {
    forall r | 0 <= r < g.depth && r != row ensures Got(r, col, row) == Got(r, col, row + 1) {}
    forall id | id in m
      ensures exists r :: 0 <= r < g.depth && rows[r].key == id && UnderWay(g, rows, r, col, row + 1)
    {
      var r :| 0 <= r < g.depth && rows[r].key == id && UnderWay(g, rows, r, col, row);
      assert r != row && UnderWay(g, rows, r, col, row + 1);
    }
  }

  /** The block a cell is delivered to: the row's cells so far. */
  lemma BeforeCell(g: Geometry, c: Config, m: map<uint32, Received>, rows: seq<Row>, col: nat, row: nat, t0: int, now: int)
    returns (b: Received)
    requires Transmittable(g, c, rows) && InHand(g, m, rows, col, row, t0)
    requires row < g.depth && col < g.n && rows[row].key != 0 && t0 <= now
    ensures b == if rows[row].key in m then m[rows[row].key] else Received(false, map[], now, now)
    ensures !b.ready && b.symbols == Prefix(rows[row], col) && t0 <= b.first
  {
    var key := rows[row].key;
    b := if key in m then m[key] else Received(false, map[], now, now);
    if key in m {
      OwnEntry(g, c, m, rows, col, row, t0);
    } else {
      assert Prefix(rows[row], 0) == map[];
    }
  }

  lemma NextPrefix(row: Row, i: nat)
    requires forall f :: 0 <= f <= i ==> f in row.cells
    ensures i !in Prefix(row, i) && Prefix(row, i)[i := row.cells[i]] == Prefix(row, i + 1)
  {
  }

  /** The next cell of a row, delivered: an entry with one cell more, ready when it is the last. */
  lemma DeliverNext(g: Geometry, c: Config, m: map<uint32, Received>, rows: seq<Row>, col: nat, row: nat, t0: int, now: int)
    returns (first: int)
    requires ValidConfig(c) && c.stab > 0 && Transmittable(g, c, rows) && InHand(g, m, rows, col, row, t0)
    requires row < g.depth && col < g.n && rows[row].key != 0
    requires t0 <= now && now - t0 < AgeLimit(c)
    ensures t0 <= first
    ensures Deliver(c, m, rows[row].cells[col], now)
         == m[rows[row].key := Received(col + 1 == g.n, Prefix(rows[row], col + 1), first, now)]
  {
    var b := BeforeCell(g, c, m, rows, col, row, t0, now);
    hide Deliver, InHand, Prefix;
    var s := rows[row].cells[col];
    assert s.packetId == rows[row].key && s.fecId == col;
    first := b.first;
    NextPrefix(rows[row], col);
    PrefixCard(rows[row], col);
    PrefixCard(rows[row], col + 1);
    DeliverNew(c, m, t0, s, now);
  }

  /** A row's key in the map is that row's entry. */
  lemma OwnEntry(g: Geometry, c: Config, m: map<uint32, Received>, rows: seq<Row>, col: nat, row: nat, t0: int)
    requires Transmittable(g, c, rows) && InHand(g, m, rows, col, row, t0)
    requires row < g.depth && col < g.n && rows[row].key != 0 && rows[row].key in m
    ensures 0 < col && Entry(g, rows, m[rows[row].key], row, col, row, t0)
  {
    var r :| 0 <= r < g.depth && rows[r].key == rows[row].key && UnderWay(g, rows, r, col, row);
    assert r == row;
  }

  /** A cell that does not complete its row. */
  lemma AddCell(g: Geometry, c: Config, m: map<uint32, Received>, rows: seq<Row>, col: nat, row: nat, t0: int,
                first: int, now: int)
    requires Transmittable(g, c, rows) && InHand(g, m, rows, col, row, t0)
    requires row < g.depth && col + 1 < g.n && rows[row].key != 0 && t0 <= first && t0 <= now
    ensures InHand(g, m[rows[row].key := Received(false, Prefix(rows[row], col + 1), first, now)], rows, col, row + 1, t0)
  {
    hide Prefix;
    var key := rows[row].key;
    var m' := m[key := Received(false, Prefix(rows[row], col + 1), first, now)];
    forall r | 0 <= r < g.depth && r != row
      ensures Got(r, col, row) == Got(r, col, row + 1) && (rows[r].key != 0 ==> rows[r].key != key)
    {
      if r < row { assert rows[r].key != 0 ==> rows[r].key != rows[row].key; }
    }
    assert UnderWay(g, rows, row, col, row + 1);
    forall id | id in m'
      ensures exists r :: 0 <= r < g.depth && rows[r].key == id && UnderWay(g, rows, r, col, row + 1)
    {
      if id != key {
        var r :| 0 <= r < g.depth && rows[r].key == id && UnderWay(g, rows, r, col, row);
        assert r != row && UnderWay(g, rows, r, col, row + 1);
      }
    }
  }

  /** A completed row leaves the map. */
  lemma FinishRow(g: Geometry, c: Config, m: map<uint32, Received>, rows: seq<Row>, row: nat, t0: int)
    requires Transmittable(g, c, rows) && InHand(g, m, rows, g.n - 1, row, t0)
    requires row < g.depth && rows[row].key != 0
    ensures InHand(g, m - {rows[row].key}, rows, g.n - 1, row + 1, t0)
  {
    hide Prefix;
    var key := rows[row].key;
    forall r | 0 <= r < g.depth && r != row
      ensures Got(r, g.n - 1, row) == Got(r, g.n - 1, row + 1) && (rows[r].key != 0 ==> rows[r].key != key)
    {
      if r < row { assert rows[r].key != 0 ==> rows[r].key != rows[row].key; }
    }
    forall id | id in m - {key}
      ensures exists r :: 0 <= r < g.depth && rows[r].key == id && UnderWay(g, rows, r, g.n - 1, row + 1)
    {
      var r :| 0 <= r < g.depth && rows[r].key == id && UnderWay(g, rows, r, g.n - 1, row);
      assert r != row && UnderWay(g, rows, r, g.n - 1, row + 1);
    }
  }

  /** No more blocks are in hand than rows. */
  lemma RoomFor(g: Geometry, c: Config, m: map<uint32, Received>, rows: seq<Row>, col: nat, row: nat, t0: int)
    requires Transmittable(g, c, rows) && InHand(g, m, rows, col, row, t0)
    ensures |m| <= g.depth
    ensures forall r :: 0 <= r < g.depth && rows[r].key != 0 && rows[r].key !in m ==> |m| < g.depth
  {
    hide UnderWay, Entry, Prefix;
    assert |rows| == g.depth;
    KeysAmong(m.Keys, rows, |rows|);
    forall r | 0 <= r < g.depth && rows[r].key != 0 && rows[r].key !in m ensures |m| < g.depth {
      OneMoreKey(m, rows[r].key);
      var wider := m.Keys + {rows[r].key};
      hide Transmittable;
      forall k | k in wider ensures exists q :: 0 <= q < |rows| && rows[q].key == k {
        if k == rows[r].key { assert 0 <= r < |rows|; }
      }
      KeysAmong(wider, rows, |rows|);
    }
    assert |m.Keys| == |m|;
  }

  lemma OneMoreKey(m: map<uint32, Received>, key: uint32)
    requires key !in m
    ensures |m.Keys + {key}| == |m| + 1
  {
    assert |m.Keys| == |m|;
  }

  lemma {:induction false} KeysAmong(keys: set<uint32>, rows: seq<Row>, n: nat)
    requires n <= |rows| && forall k :: k in keys ==> exists r :: 0 <= r < n && rows[r].key == k
    ensures |keys| <= n
  {
    if n == 0 {
      assert keys == {};
    } else {
      var rest := keys - {rows[n - 1].key};
      KeysAmong(rest, rows, n - 1);
      assert keys <= rest + {rows[n - 1].key};
      assert |keys| <= |rest + {rows[n - 1].key}| <= |rest| + 1 by { SubsetCard(keys, rest + {rows[n - 1].key}); }
    }
  }

  lemma {:induction false} SubsetCard(a: set<uint32>, b: set<uint32>)
    requires a <= b
    ensures |a| <= |b|
  {
    assert b == a + (b - a);
  }

  /** No block in hand is due. */
  lemma NotDue(g: Geometry, c: Config, m: map<uint32, Received>, rows: seq<Row>, col: nat, row: nat, t0: int, now: int, id: uint32)
    requires ValidConfig(c) && Transmittable(g, c, rows) && InHand(g, m, rows, col, row, t0) && id in m
    requires 0 < c.stab && now - t0 < c.stab && now - t0 < AgeLimit(c)
    ensures Settle(c, m, id, AgeLimit(c), now) == m
  {
    hide Prefix;
    var r :| 0 <= r < g.depth && rows[r].key == id && UnderWay(g, rows, r, col, row);
    assert Entry(g, rows, m[id], r, col, row, t0);
    PrefixCard(rows[r], Got(r, col, row));
  }

  /** Ticks within the quiet period settle nothing. */
  lemma TickIdle(g: Geometry, c: Config, st: State, rows: seq<Row>, col: nat, row: nat, t0: int, now: int)
    requires ValidConfig(c) && Inv(c, st) && Transmittable(g, c, rows) && InHand(g, Blocks(st.slots), rows, col, row, t0)
    requires 0 < c.stab && now - t0 < c.stab && now - t0 < AgeLimit(c)
    ensures Blocks(DeinterleaverSpec.Tick(c, st, -1, now).slots) == Blocks(st.slots)
  {
    hide Blocks, DeinterleaverSpec.Tick, Prefix, Settle, Transmittable, InHand;
    TickRefines(c, st, -1, now);
    var m, m' := Blocks(st.slots), Blocks(DeinterleaverSpec.Tick(c, st, -1, now).slots);
    forall id | id in m ensures Settle(c, m, id, AgeLimit(c), now) == m {
      NotDue(g, c, m, rows, col, row, t0, now, id);
    }
    SameMap(m', m);
  }

  /** Ticks of an idle deinterleaver do nothing at all. */
  lemma TickEmpty(c: Config, st: State, now: int)
    requires ValidConfig(c) && Inv(c, st) && Blocks(st.slots) == map[]
    ensures Blocks(DeinterleaverSpec.Tick(c, st, -1, now).slots) == map[]
  {
    hide Blocks, DeinterleaverSpec.Tick;
    TickRefines(c, st, -1, now);
  }

  // ---------------------------------------------------------------------------
  // Ready blocks
  // ---------------------------------------------------------------------------

  ghost predicate NoneReady(m: map<uint32, Received>) {
    forall id :: id in m ==> !m[id].ready
  }

  /** No ready block, no drain. */
  lemma DrainNothing(cfg: TxConfig, codec: FecWrapper.Codec, st: RxState)
    requires RxOk(cfg, st.dil) && NoneReady(Blocks(st.dil.slots))
    ensures DrainReady(cfg, codec, st) == st
  {
    hide Blocks, CellsFit;
    var slots := st.dil.slots;
    var i := FirstIn(slots, DeinterleaverSpec.Ready, 0);
    if i < |slots| { BlockAt(slots, i); }
  }

  /** A row's cells in column order. */
  function RowSymbols(row: Row, n: nat): (syms: seq<Symbol>)
    requires forall f :: 0 <= f < n ==> f in row.cells
    ensures |syms| == n && forall f :: 0 <= f < n ==> syms[f] == row.cells[f]
  {
    seq(n, f requires 0 <= f < n => row.cells[f])
  }

  /** A slot with every symbol of the row holds exactly the row. */
  lemma SlotIsRow(cfg: TxConfig, dil: State, i: nat, row: Row)
    requires RxOk(cfg, dil) && i < |dil.slots| && forall f :: 0 <= f < cfg.k + cfg.m ==> f in row.cells
    requires Marked(dil.slots[i]) == Prefix(row, cfg.k + cfg.m)
    ensures dil.slots[i].block.symbols == RowSymbols(row, cfg.k + cfg.m)
    ensures SymbolsFit(cfg, dil.slots[i].block.symbols)
  {
    var s, n := dil.slots[i], cfg.k + cfg.m;
    assert SlotOk(RxConfig(cfg), s);
    assert SlotFits(cfg, s);
    forall f | 0 <= f < n ensures s.block.symbols[f] == row.cells[f] {
      assert f in Prefix(row, n);
      assert f in Marked(s);
    }
  }

  /** The one ready block is handled: its packets are sent and its entry disappears. */
  lemma DrainOne(cfg: TxConfig, codec: FecWrapper.Codec, st: RxState, key: uint32, row: Row)
    requires RxOk(cfg, st.dil) && key in Blocks(st.dil.slots)
    requires forall f :: 0 <= f < cfg.k + cfg.m ==> f in row.cells
    requires var m := Blocks(st.dil.slots);
      m[key].ready && m[key].symbols == Prefix(row, cfg.k + cfg.m) && NoneReady(m - {key})
    ensures SymbolsFit(cfg, RowSymbols(row, cfg.k + cfg.m))
    ensures Blocks(DrainReady(cfg, codec, st).dil.slots) == Blocks(st.dil.slots) - {key}
    ensures DrainReady(cfg, codec, st).sent == st.sent + BlockPackets(cfg, codec, RowSymbols(row, cfg.k + cfg.m))
  {
    hide CellsFit, Mark, BlockPackets;
    var slots := st.dil.slots;
    var i := FindSlot(slots, key);
    EntryOf(slots, key);
    BlockAt(slots, i);
    var j := FirstIn(slots, DeinterleaverSpec.Ready, 0);
    OnlyReady(slots, i, j, key);
    SlotIsRow(cfg, st.dil, i, row);
    HandleOne(cfg, codec, st, i);
    DrainNothing(cfg, codec, HandleBlock(cfg, codec, st, i));
  }

  lemma OthersNotReady(m: map<uint32, Received>, key: uint32)
    requires NoneReady(m - {key})
    ensures forall id :: id in m && id != key ==> !m[id].ready
  {
    forall id | id in m && id != key ensures !m[id].ready { assert id in m - {key}; }
  }

  lemma OnlyReady(slots: seq<Slot>, i: nat, j: nat, key: uint32)
    requires Unique(slots) && i < |slots| && slots[i].state != Empty && slots[i].id == key
    requires key in Blocks(slots) && Blocks(slots)[key].ready && NoneReady(Blocks(slots) - {key})
    requires j == FirstIn(slots, DeinterleaverSpec.Ready, 0)
    ensures j == i && slots[i].state == DeinterleaverSpec.Ready
  {
    BlockAt(slots, i);
    assert slots[i].state == DeinterleaverSpec.Ready;
    hide Blocks, FindSlot;
    OthersNotReady(Blocks(slots), key);
    BlockAt(slots, j);
  }

  lemma HandleOne(cfg: TxConfig, codec: FecWrapper.Codec, st: RxState, i: nat)
    requires RxOk(cfg, st.dil) && i < |st.dil.slots| && st.dil.slots[i].state == DeinterleaverSpec.Ready
    ensures SymbolsFit(cfg, st.dil.slots[i].block.symbols) && cfg.k <= |st.dil.slots[i].block.symbols|
    ensures Blocks(HandleBlock(cfg, codec, st, i).dil.slots) == Blocks(st.dil.slots) - {st.dil.slots[i].id}
    ensures HandleBlock(cfg, codec, st, i).sent == st.sent + BlockPackets(cfg, codec, st.dil.slots[i].block.symbols)
  {
    hide Mark, BlockPackets, Blocks;
    assert SlotFits(cfg, st.dil.slots[i]) && SlotOk(RxConfig(cfg), st.dil.slots[i]);
    BlockAt(st.dil.slots, i);
    MarkRefines(RxConfig(cfg), st.dil, st.dil.slots[i].id, true);
    MarkRefines(RxConfig(cfg), st.dil, st.dil.slots[i].id, false);
    ReadyEntry(st.dil.slots, i);
  }

  lemma ReadyEntry(slots: seq<Slot>, i: nat)
    requires Unique(slots) && i < |slots| && slots[i].state == DeinterleaverSpec.Ready
    ensures slots[i].id in Blocks(slots) && Blocks(slots)[slots[i].id].ready
  {
    BlockAt(slots, i);
  }

  // ---------------------------------------------------------------------------
  // One frame
  // ---------------------------------------------------------------------------

  /** The receiver is part-way through a window: the cells before (col, row) have arrived. */
  ghost predicate Holding(cfg: TxConfig, st: RxState, rows: seq<Row>, col: nat, row: nat, t0: int) {
    && RxOk(cfg, st.dil) && Transmittable(TxGeometry(cfg), RxConfig(cfg), rows)
    && InHand(TxGeometry(cfg), Blocks(st.dil.slots), rows, col, row, t0)
  }

  lemma TickHolds(cfg: TxConfig, st: RxState, rows: seq<Row>, col: nat, row: nat, t0: int, now: int)
    requires Holding(cfg, st, rows, col, row, t0) && now - t0 < STABILIZATION
    ensures var ticked := st.(dil := DeinterleaverSpec.Tick(RxConfig(cfg), st.dil, -1, now));
      RxOk(cfg, ticked.dil) && Holding(cfg, ticked, rows, col, row, t0)
  {
    hide Blocks, CellsFit, InHand, Transmittable, DeinterleaverSpec.Tick;
    TickFitsAll(cfg, st.dil, -1, now);
    TickIdle(TxGeometry(cfg), RxConfig(cfg), st.dil, rows, col, row, t0, now);
  }

  lemma InHandNotReady(g: Geometry, m: map<uint32, Received>, rows: seq<Row>, col: nat, row: nat, t0: int)
    requires Complete(g, rows) && InHand(g, m, rows, col, row, t0)
    ensures NoneReady(m)
  {
    hide Prefix;
    forall id | id in m ensures !m[id].ready {
      var r :| 0 <= r < g.depth && rows[r].key == id && UnderWay(g, rows, r, col, row);
      assert Entry(g, rows, m[id], r, col, row, t0);
    }
  }

  /** A padding symbol is counted as an erasure and changes nothing else. */
  lemma TakePadding(cfg: TxConfig, codec: FecWrapper.Codec, st: RxState, rows: seq<Row>, col: nat, row: nat, t0: int,
                    sym: Symbol, now: int)
    requires Holding(cfg, st, rows, col, row, t0) && row < cfg.depth && rows[row].key == 0 && IsErasure(sym)
    ensures var st' := TakeSymbol(cfg, codec, st, sym, now);
      Holding(cfg, st', rows, col, row + 1, t0) && st'.sent == st.sent
  {
    hide Blocks, CellsFit, InHand, Transmittable, DrainReady;
    RxSpec.PushFits(cfg, st.dil, sym, now);
    var pushed := st.(dil := DeinterleaverSpec.Push(RxConfig(cfg), st.dil, sym, now).0);
    assert pushed.dil.slots == st.dil.slots;
    TransmittableComplete(cfg, rows);
    SkipCell(TxGeometry(cfg), Blocks(st.dil.slots), rows, col, row, t0);
    InHandNotReady(TxGeometry(cfg), Blocks(st.dil.slots), rows, col, row, t0);
    DrainNothing(cfg, codec, pushed);
  }

  lemma TransmittableComplete(cfg: TxConfig, rows: seq<Row>)
    requires Transmittable(TxGeometry(cfg), RxConfig(cfg), rows)
    ensures Complete(TxGeometry(cfg), rows) && |rows| == cfg.depth
  {
  }

  lemma CellAcceptable(cfg: TxConfig, rows: seq<Row>, col: nat, row: nat)
    requires Transmittable(TxGeometry(cfg), RxConfig(cfg), rows) && row < cfg.depth && col < cfg.k + cfg.m
    ensures var s := rows[row].cells[col];
      rows[row].key != 0 ==> Acceptable(RxConfig(cfg), s) && !IsErasure(s) && s.packetId == rows[row].key
  {
  }

  /** Pushing the next cell of a block's row: stored, ready when it is the row's last. */
  lemma PushCell(cfg: TxConfig, st: RxState, rows: seq<Row>, col: nat, row: nat, t0: int, now: int) returns (first: int)
    requires Holding(cfg, st, rows, col, row, t0) && row < cfg.depth && col < cfg.k + cfg.m && rows[row].key != 0
    requires t0 <= now < t0 + STABILIZATION
    ensures var dil' := DeinterleaverSpec.Push(RxConfig(cfg), st.dil, rows[row].cells[col], now).0;
      && RxOk(cfg, dil') && t0 <= first
      && Blocks(dil'.slots) == Blocks(st.dil.slots)[rows[row].key :=
           Received(col + 1 == cfg.k + cfg.m, Prefix(rows[row], col + 1), first, now)]
  {
    hide Blocks, CellsFit, InHand, Transmittable, DeinterleaverSpec.Push, Deliver, Prefix;
    TransmittableComplete(cfg, rows);
    var g, c, s := TxGeometry(cfg), RxConfig(cfg), rows[row].cells[col];
    CellAcceptable(cfg, rows, col, row);
    RxSpec.PushFits(cfg, st.dil, s, now);
    RoomFor(g, c, Blocks(st.dil.slots), rows, col, row, t0);
    NoEviction(c, st.dil, s, now);
    first := DeliverNext(g, c, Blocks(st.dil.slots), rows, col, row, t0, now);
  }

  /** The packets a step at (col, row) sends: those of the row, when it completes there. */
  ghost function SentAt(cfg: TxConfig, codec: FecWrapper.Codec, rows: seq<Row>, col: nat, row: nat): seq<PacketBytes>
    requires ValidTx(cfg) && Transmittable(TxGeometry(cfg), RxConfig(cfg), rows) && row < cfg.depth
  {
    if rows[row].key != 0 && col + 1 == cfg.k + cfg.m && SymbolsFit(cfg, RowSymbols(rows[row], cfg.k + cfg.m))
    then BlockPackets(cfg, codec, RowSymbols(rows[row], cfg.k + cfg.m))
    else []
  }

  lemma TakeCell(cfg: TxConfig, codec: FecWrapper.Codec, st: RxState, rows: seq<Row>, col: nat, row: nat, t0: int, now: int)
    requires Holding(cfg, st, rows, col, row, t0) && row < cfg.depth && col < cfg.k + cfg.m && rows[row].key != 0
    requires t0 <= now < t0 + STABILIZATION
    ensures var st' := TakeSymbol(cfg, codec, st, rows[row].cells[col], now);
      && Holding(cfg, st', rows, col, row + 1, t0)
      && st'.sent == st.sent + SentAt(cfg, codec, rows, col, row)
  {
    hide Blocks, CellsFit, InHand, Transmittable, DeinterleaverSpec.Push, DrainReady, BlockPackets, Prefix;
    TransmittableComplete(cfg, rows);
    var g, c, n := TxGeometry(cfg), RxConfig(cfg), cfg.k + cfg.m;
    var m, key := Blocks(st.dil.slots), rows[row].key;
    var first := PushCell(cfg, st, rows, col, row, t0, now);
    InHandNotReady(g, m, rows, col, row, t0);
    var pushed := st.(dil := DeinterleaverSpec.Push(c, st.dil, rows[row].cells[col], now).0);
    var b := Received(col + 1 == n, Prefix(rows[row], col + 1), first, now);
    if col + 1 < n {
      AddCell(g, c, m, rows, col, row, t0, first, now);
      DrainNothing(cfg, codec, pushed);
    } else {
      MinusAdded(m, key, b);
      DrainOne(cfg, codec, pushed, key, rows[row]);
      FinishRow(g, c, m, rows, row, t0);
    }
  }

  lemma MinusAdded(m: map<uint32, Received>, key: uint32, b: Received)
    ensures m[key := b] - {key} == m - {key}
  {
  }
}
