/** The transmit pipeline and the interleaver together, for packets of any length: whole rows, no failure, one row a block. */
module TxComposition {
  import opened Types
  import opened BlockBuilding
  import opened Fragmentation
  import FecWrapper
  import opened Interleaving
  import opened InterleaverWindows
  import BurstBound
  import opened TxSpec
  import opened WholeBlocks
  import TxHistory
  import opened TxPacking

  // ---------------------------------------------------------------------------
  // The invariant
  // ---------------------------------------------------------------------------

  /** Keys of blocks already closed, or the padding key. */
  ghost predicate KeysBelow(ws: seq<seq<Row>>, id: nat) {
    forall w, r :: 0 <= w < |ws| && 0 <= r < |ws[w]| ==> ws[w][r].key < id
  }

  /** No block has two rows, in one window or in different ones; padding rows share key 0. */
  ghost predicate OneRowEach(ws: seq<seq<Row>>) {
    forall w, r, v, q {:trigger ws[w][r], ws[v][q]} ::
      (0 <= w < |ws| && 0 <= r < |ws[w]| && 0 <= v < |ws| && 0 <= q < |ws[v]|
       && ws[w][r].key == ws[v][q].key != 0) ==> w == v && r == q
  }

  /** The windows sent, then the rows waiting, under ids below `id`. */
  ghost predicate RowsPlaced(ws: seq<seq<Row>>, rows: seq<Row>, id: nat) {
    KeysBelow(ws + [rows], id) && OneRowEach(ws + [rows]) && BurstBound.Keyed(rows)
  }

  /**
   The interleaver holds whole blocks and is not ready, ws are the windows sent so far, and every block
   closed so far has one row.
   */
  ghost predicate Composed(cfg: TxConfig, st: TxState, ws: seq<seq<Row>>) {
    && TxOk(cfg, st) && Whole(TxGeometry(cfg), st.window) && 0 < st.builder.id
    && BurstBound.Windows(TxGeometry(cfg), ws) && st.wire == BurstBound.Stream(TxGeometry(cfg), ws)
    && RowsPlaced(ws, st.window.rows, st.builder.id)
  }

  lemma StartsComposed(cfg: TxConfig)
    requires ValidTx(cfg)
    ensures Composed(cfg, InitialTx, [])
  {
    InitialOk(cfg);
  }

  /** A further block's row under a fresh id. */
  lemma PlaceBlock(ws: seq<seq<Row>>, rows: seq<Row>, row: Row, id: nat)
    requires RowsPlaced(ws, rows, id) && row.key == id && BurstBound.Keyed(rows + [row])
    ensures RowsPlaced(ws, rows + [row], id + 1)
  {
    var a, b := ws + [rows], ws + [rows + [row]];
    forall w, r | 0 <= w < |b| && 0 <= r < |b[w]|
      ensures if w == |ws| && r == |rows| then b[w][r] == row else r < |a[w]| && b[w][r] == a[w][r]
    {
    }
  }

  /** Rows that leave in a window, perhaps with padding rows behind them. */
  lemma PlaceSent(ws: seq<seq<Row>>, rows: seq<Row>, sent: seq<Row>, id: nat)
    requires RowsPlaced(ws, rows, id) && 0 < id
    requires |rows| <= |sent| && sent[..|rows|] == rows
    requires forall r :: |rows| <= r < |sent| ==> sent[r].key == 0
    ensures RowsPlaced(ws + [sent], [], id)
  {
    var a: seq<seq<Row>>, b: seq<seq<Row>> := ws + [rows], ws + [sent] + [[]];
    forall w, r | 0 <= w < |b| && 0 <= r < |b[w]|
      ensures if w == |ws| && r >= |rows| then b[w][r].key == 0 else w < |a| && r < |a[w]| && b[w][r] == a[w][r]
    {
      if w == |ws| && r < |rows| { assert sent[r] == sent[..|rows|][r]; }
    }
  }

  // ---------------------------------------------------------------------------
  // The operations
  // ---------------------------------------------------------------------------

  lemma {:induction false} PushFromKeyed(cfg: TxConfig, w: Window, syms: seq<Symbol>, i: nat, now: int)
    requires ValidTx(cfg) && WellFormed(TxGeometry(cfg), w) && FitsAll(cfg, w.rows) && AllFit(cfg, syms)
    requires i <= |syms| && BurstBound.Keyed(w.rows)
    ensures BurstBound.Keyed(PushFrom(cfg, w, syms, i, now).0.rows)
    decreases |syms| - i
  {
    hide Push, WellFormed, FitsAll, BurstBound.Keyed;
    if i < |syms| {
      PushKeeps(TxGeometry(cfg), w, syms[i], now);
      PushFits(cfg, w, syms[i], now);
      BurstBound.PushKeyed(TxGeometry(cfg), w, syms[i], now);
      var (w', rc) := Push(TxGeometry(cfg), w, syms[i], now);
      if rc != -1 { PushFromKeyed(cfg, w', syms, i + 1, now); }
    }
  }

  /** Sending a ready window: its drain joins the stream. */
  lemma SendWindow(cfg: TxConfig, st: TxState, ws: seq<seq<Row>>)
    requires TxOk(cfg, st) && st.window.ready && st.window.popCol == st.window.popRow == 0
    requires BurstBound.Windows(TxGeometry(cfg), ws) && st.wire == BurstBound.Stream(TxGeometry(cfg), ws)
    requires BurstBound.Keyed(st.window.rows)
    ensures BurstBound.Windows(TxGeometry(cfg), ws + [st.window.rows])
    ensures Drain(cfg, st) == st.(window := EmptyWindow, wire := BurstBound.Stream(TxGeometry(cfg), ws + [st.window.rows]))
  {
    hide FitsAll, AllFit, BurstBound.Keyed;
    DrainTheorem(TxGeometry(cfg), st.window);
    assert (ws + [st.window.rows])[..|ws|] == ws;
  }

  lemma EmptyComposed(cfg: TxConfig, st: TxState, ws: seq<seq<Row>>)
    requires TxOk(cfg, st) && st.window == EmptyWindow && 0 < st.builder.id
    requires BurstBound.Windows(TxGeometry(cfg), ws) && st.wire == BurstBound.Stream(TxGeometry(cfg), ws)
    requires RowsPlaced(ws, [], st.builder.id)
    ensures Composed(cfg, st, ws)
  {
  }

  /** A tick finds every row complete or unassigned; it may send the window, and keeps the invariant. */
  lemma TickComposed(cfg: TxConfig, st: TxState, ws: seq<seq<Row>>, now: int) returns (ws': seq<seq<Row>>)
    requires Composed(cfg, st, ws)
    ensures Composed(cfg, TickAndDrain(cfg, st, now), ws') && TickAndDrain(cfg, st, now).builder == st.builder
  {
    var g := TxGeometry(cfg);
    TickWhole(g, st.window, now);
    var (w, rc) := Tick(g, st.window, now);
    if rc == 1 {
      Interleaving.TickKeeps(g, st.window, now);
      TickFits(cfg, st.window, now);
      BurstBound.TickKeyed(g, st.window, now);
      hide Whole, WellFormed, FitsAll, AllFit, BurstBound.Keyed, BurstBound.Windows, BurstBound.Stream, Tick, FillRow;
      SendWindow(cfg, st.(window := w), ws);
      ws' := ws + [w.rows];
      PlaceSent(ws, st.window.rows, w.rows, st.builder.id);
      EmptyComposed(cfg, TickAndDrain(cfg, st, now), ws');
    } else {
      ws' := ws;
    }
  }

  /** The pushes of encode_and_drain are all accepted: the block takes the next row. */
  lemma BlockPushed(cfg: TxConfig, codec: FecWrapper.Codec, st: TxState, ws: seq<seq<Row>>, now: int) returns (w: Window)
    requires Composed(cfg, st, ws) && |st.builder.syms| == cfg.k && st.builder.id < 0x1_0000_0000
    ensures TxOk(cfg, TxHistory.Pushed(cfg, codec, st, w))
    ensures EncodeAndDrain(cfg, codec, st, now) == (Drain(cfg, TxHistory.Pushed(cfg, codec, st, w)), true)
    ensures w.popCol == w.popRow == 0 && BurstBound.Keyed(w.rows)
    ensures |w.rows| == |st.window.rows| + 1 && w.rows == st.window.rows + [w.rows[|st.window.rows|]]
    ensures w.rows[|st.window.rows|].key == st.builder.id
    ensures !w.ready ==> Whole(TxGeometry(cfg), w)
  {
    var g := TxGeometry(cfg);
    var block := BlockSymbols(cfg, codec, st.builder.syms, st.builder.id);
    assert BlockLike(g, block, st.builder.id);
    UnusedId(cfg, st, ws);
    PushWhole(cfg, st.window, block, st.builder.id, now);
    PushFromKeyed(cfg, st.window, block, 0, now);
    w := PartWay(g, st.window, block, st.builder.id, |block|, now);
    LastFull(g, st.window, block, st.builder.id, now);
    hide Whole, WellFormed, FitsAll, AllFit, BurstBound.Keyed, BurstBound.Windows, BurstBound.Stream, RowsPlaced, BlockSymbols;
    TxHistory.EncodeIs(cfg, codec, st, w, now);
  }

  lemma UnusedId(cfg: TxConfig, st: TxState, ws: seq<seq<Row>>)
    requires Composed(cfg, st, ws) && st.builder.id < 0x1_0000_0000
    ensures Unused(st.window, st.builder.id)
  {
    var all: seq<seq<Row>> := ws + [st.window.rows];
    forall r | 0 <= r < |st.window.rows| ensures st.window.rows[r].key != st.builder.id {
      assert all[|ws|][r].key < st.builder.id;
    }
  }

  lemma LastFull(g: Geometry, w: Window, block: seq<Symbol>, id: uint32, now: int)
    requires ValidGeometry(g) && Whole(g, w) && BlockLike(g, block, id)
    ensures var w' := PartWay(g, w, block, id, |block|, now); !w'.ready ==> Whole(g, w')
  {
    PrefixSize(block, id, |block|);
  }

  /** Closing a block: no push is rejected, and the block has one row, waiting or sent. */
  lemma CloseComposed(cfg: TxConfig, codec: FecWrapper.Codec, st: TxState, ws: seq<seq<Row>>, now: int)
    returns (ws': seq<seq<Row>>)
    requires Composed(cfg, st, ws) && |st.builder.syms| == cfg.k && st.builder.id < 0x1_0000_0000
    ensures var (st', ok) := CloseBlock(cfg, codec, st, now);
      ok && Composed(cfg, st', ws') && st'.builder.syms == [] && st'.builder.id == st.builder.id + 1
  {
    hide BlockSymbols, Whole, WellFormed, FitsAll, AllFit, BurstBound.Keyed, BurstBound.Windows, BurstBound.Stream;
    var w := BlockPushed(cfg, codec, st, ws, now);
    var pushed := TxHistory.Pushed(cfg, codec, st, w);
    PlaceBlock(ws, st.window.rows, w.rows[|st.window.rows|], st.builder.id);
    var (st', ok) := CloseBlock(cfg, codec, st, now);
    hide RowsPlaced, EncodeAndDrain;
    TxHistory.NextIdIs(st.builder.id);
    if w.ready {
      SendWindow(cfg, pushed, ws);
      ws' := ws + [w.rows];
      PlaceSent(ws, w.rows, w.rows, st.builder.id + 1);
      EmptyComposed(cfg, st', ws');
    } else {
      TxHistory.DrainIdle(cfg, pushed);
      ws' := ws;
    }
  }

  lemma ComposedOk(cfg: TxConfig, st: TxState, ws: seq<seq<Row>>)
    requires Composed(cfg, st, ws)
    ensures TxOk(cfg, st) && ValidTx(cfg) && |st.builder.syms| <= cfg.k && 0 < st.builder.id && !st.window.ready
  {
  }

  /** Only the builder and the packet counter change: the invariant does not look at the builder's symbols. */
  lemma BuilderIgnored(cfg: TxConfig, st: TxState, st': TxState, ws: seq<seq<Row>>)
    requires Composed(cfg, st, ws) && TxOk(cfg, st')
    requires st'.window == st.window && st'.wire == st.wire && st'.builder.id == st.builder.id
    ensures Composed(cfg, st', ws)
  {
  }

  lemma FlushComposed(cfg: TxConfig, codec: FecWrapper.Codec, st: TxState, ws: seq<seq<Row>>, now: int)
    returns (ws': seq<seq<Row>>)
    requires Composed(cfg, st, ws) && st.builder.id < 0x1_0000_0000
    ensures TxOk(cfg, st)
    ensures var (st', ok) := FlushBlock(cfg, codec, st, now);
      ok && Composed(cfg, st', ws') && st'.builder.syms == [] && st'.builder.id == st.builder.id + 1
  {
    ComposedOk(cfg, st, ws);
    PadFits(cfg, st.builder.syms);
    var padded := st.(builder := st.builder.(syms := PadTo(st.builder.syms, cfg.k, cfg.size)));
    assert TxOk(cfg, padded);
    hide CloseBlock, TxOk;
    BuilderIgnored(cfg, st, padded, ws);
    hide Composed;
    ws' := CloseComposed(cfg, codec, padded, ws, now);
  }

  lemma TimeoutComposed(cfg: TxConfig, codec: FecWrapper.Codec, st: TxState, ws: seq<seq<Row>>, now: int)
    returns (ws': seq<seq<Row>>)
    requires Composed(cfg, st, ws) && st.builder.id < 0x1_0000_0000
    ensures TxOk(cfg, st)
    ensures var (st', ok) := FlushIfTimedOut(cfg, codec, st, now);
      ok && Composed(cfg, st', ws') && st'.builder.id <= st.builder.id + 1
      && (|st.builder.syms| < cfg.k ==> |st'.builder.syms| < cfg.k)
  {
    ComposedOk(cfg, st, ws);
    hide Composed, FlushBlock, TxOk;
    if TimedOut(st.builder, BLOCK_TIMEOUT, now) {
      ws' := FlushComposed(cfg, codec, st, ws, now);
    } else {
      ws' := ws;
    }
  }

  lemma RoomComposed(cfg: TxConfig, codec: FecWrapper.Codec, st: TxState, ws: seq<seq<Row>>, frags: nat, now: int)
    returns (ws': seq<seq<Row>>)
    requires Composed(cfg, st, ws) && st.builder.id < 0x1_0000_0000
    ensures TxOk(cfg, st)
    ensures var (st', ok) := MakeRoom(cfg, codec, st, frags, now);
      ok && Composed(cfg, st', ws') && st.builder.id <= st'.builder.id <= st.builder.id + 1
      && (|st.builder.syms| < cfg.k ==> |st'.builder.syms| < cfg.k)
  {
    ComposedOk(cfg, st, ws);
    hide Composed, FlushBlock, TickAndDrain, TxOk;
    if frags > 0 && st.builder.syms != [] && |st.builder.syms| + frags > cfg.k {
      var w1 := FlushComposed(cfg, codec, st, ws, now);
      ws' := TickComposed(cfg, FlushBlock(cfg, codec, st, now).0, w1, now);
    } else {
      ws' := ws;
    }
  }

  /** The fragment loop, whatever the number of fragments. */
  lemma {:induction false} AddComposed(cfg: TxConfig, codec: FecWrapper.Codec, st: TxState, ws: seq<seq<Row>>,
                                       f: seq<Symbol>, i: nat, now: int) returns (ws': seq<seq<Row>>)
    requires Composed(cfg, st, ws) && AllFit(cfg, f) && i <= |f| <= UINT16_MAX && |st.builder.syms| < cfg.k
    requires st.builder.id < 0x1_0000_0000
    requires TxOk(cfg, st) && AddFrom(cfg, codec, st, f, i, now).0.builder.id < 0x1_0000_0000
    ensures var (st', ok) := AddFrom(cfg, codec, st, f, i, now);
      ok && Composed(cfg, st', ws') && |st'.builder.syms| < cfg.k
    decreases |f| - i
  {
    hide Composed, CloseBlock, TickAndDrain, TxOk;
    ComposedOk(cfg, st, ws);
    if i == |f| {
      ws' := ws;
    } else {
      AddKeepsOk(cfg, st, f, i, now);
      var added := st.(builder := Add(st.builder, f[i], now));
      BuilderIgnored(cfg, st, added, ws);
      if |added.builder.syms| < cfg.k {
        ws' := AddComposed(cfg, codec, added, ws, f, i + 1, now);
      } else {
        var w1 := CloseComposed(cfg, codec, added, ws, now);
        var closed := CloseBlock(cfg, codec, added, now).0;
        var w2 := TickComposed(cfg, closed, w1, now);
        AddGrows(cfg, codec, TickAndDrain(cfg, closed, now), f, i + 1, now);
        ws' := AddComposed(cfg, codec, TickAndDrain(cfg, closed, now), w2, f, i + 1, now);
      }
    }
  }

  /** Later operations do not lower the block id. */
  lemma TakeGrows(cfg: TxConfig, codec: FecWrapper.Codec, st: TxState, f: seq<Symbol>, now: int)
    requires TxOk(cfg, st) && AllFit(cfg, f) && |f| <= UINT16_MAX && 0 < st.builder.id < 0x1_0000_0000
    requires MakeRoom(cfg, codec, st, |f|, now).1 && 0 < MakeRoom(cfg, codec, st, |f|, now).0.builder.id <= st.builder.id + 1
    ensures var roomy := MakeRoom(cfg, codec, st, |f|, now).0;
      var (added, ok) := AddFrom(cfg, codec, roomy, f, 0, now);
      && roomy.builder.id <= added.builder.id <= roomy.builder.id + |f|
      && added.builder.id <= TakePacket(cfg, codec, st, f, now).0.builder.id
  {
    hide MakeRoom, AddFrom, FlushIfTimedOut, TxOk;
    var roomy := MakeRoom(cfg, codec, st, |f|, now).0;
    AddGrows(cfg, codec, roomy, f, 0, now);
    TimeoutGrows(cfg, codec, AddFrom(cfg, codec, roomy, f, 0, now).0, now);
  }

  lemma TakeComposed(cfg: TxConfig, codec: FecWrapper.Codec, st: TxState, ws: seq<seq<Row>>, f: seq<Symbol>, now: int)
    returns (ws': seq<seq<Row>>)
    requires Composed(cfg, st, ws) && AllFit(cfg, f) && |f| <= UINT16_MAX && |st.builder.syms| < cfg.k
    requires st.builder.id < 0x1_0000_0000
    requires TxOk(cfg, st) && TakePacket(cfg, codec, st, f, now).0.builder.id < 0x1_0000_0000
    ensures var (st', ok) := TakePacket(cfg, codec, st, f, now);
      ok && Composed(cfg, st', ws') && |st'.builder.syms| < cfg.k
  {
    hide Composed, MakeRoom, AddFrom, FlushIfTimedOut, TxOk;
    ComposedOk(cfg, st, ws);
    var w1 := RoomComposed(cfg, codec, st, ws, |f|, now);
    TakeGrows(cfg, codec, st, f, now);
    var roomy := MakeRoom(cfg, codec, st, |f|, now).0;
    var w2 := AddComposed(cfg, codec, roomy, w1, f, 0, now);
    ws' := TimeoutComposed(cfg, codec, AddFrom(cfg, codec, roomy, f, 0, now).0, w2, now);
  }

  /** What holds between two calls of run_once. */
  ghost predicate Steady(cfg: TxConfig, st: TxState, ws: seq<seq<Row>>) {
    Composed(cfg, st, ws) && |st.builder.syms| < cfg.k
  }

  lemma FragmentCount(cfg: TxConfig, p: seq<byte>, id: uint32)
    requires ValidTx(cfg) && FragmentAll(p, id, cfg.size, MaxFrags(cfg)).Some?
    ensures |FragmentAll(p, id, cfg.size, MaxFrags(cfg)).syms| <= UINT16_MAX
  {
  }

  /** One call of run_once, on a packet of any length: it does not fail, and the invariant holds again. */
  lemma StepComposed(cfg: TxConfig, codec: FecWrapper.Codec, st: TxState, ws: seq<seq<Row>>, input: Input, now: int)
    returns (ws': seq<seq<Row>>)
    requires Steady(cfg, st, ws) && st.builder.id < 0x1_0000_0000
    requires TxOk(cfg, st) && RunOnce(cfg, codec, st, input, now).0.builder.id < 0x1_0000_0000
    ensures var (st', ok) := RunOnce(cfg, codec, st, input, now); ok && Steady(cfg, st', ws')
  {
    hide Composed, FlushIfTimedOut, TickAndDrain, TakePacket, FragmentAll, TxOk;
    ComposedOk(cfg, st, ws);
    match input
    case Idle =>
      var w1 := TimeoutComposed(cfg, codec, st, ws, now);
      ws' := TickComposed(cfg, FlushIfTimedOut(cfg, codec, st, now).0, w1, now);
    case NotForwarded => ws' := ws;
    case Lan(p) =>
      match FragmentAll(p, st.nextPacket, cfg.size, MaxFrags(cfg))
      case None => ws' := ws;
      case Some(f) =>
        FragmentsFit(cfg, p, st.nextPacket);
        FragmentCount(cfg, p, st.nextPacket);
        var counted := st.(nextPacket := (st.nextPacket + 1) % 0x1_0000_0000);
        CounterOk(cfg, st, counted.nextPacket);
        BuilderIgnored(cfg, st, counted, ws);
        var w1 := TakeComposed(cfg, codec, counted, ws, f, now);
        ws' := TickComposed(cfg, TakePacket(cfg, codec, counted, f, now).0, w1, now);
  }

  lemma CounterOk(cfg: TxConfig, st: TxState, n: uint32)
    requires TxOk(cfg, st)
    ensures TxOk(cfg, st.(nextPacket := n))
  {
  }

  // ---------------------------------------------------------------------------
  // Runs
  // ---------------------------------------------------------------------------

  /** The block id stays below 2 to the 32 throughout; packets may have any length. */
  ghost predicate IdsInBounds(cfg: TxConfig, codec: FecWrapper.Codec, es: seq<TxEvent>)
    requires ValidTx(cfg)
  {
    && TxRun(cfg, codec, es).builder.id < 0x1_0000_0000
    && (es != [] ==> IdsInBounds(cfg, codec, es[..|es| - 1]))
  }

  /**
   Over every run with block ids below 2 to the 32, packets of any length included: between calls the
   interleaver is not ready and holds whole blocks, the builder holds fewer than k symbols, what was sent is
   the concatenation of complete windows in which every block has one row, and no call fails.
   */
  lemma {:induction false} CompositionTheorem(cfg: TxConfig, codec: FecWrapper.Codec, es: seq<TxEvent>)
    returns (ws: seq<seq<Row>>)
    requires ValidTx(cfg) && IdsInBounds(cfg, codec, es)
    ensures Steady(cfg, TxRun(cfg, codec, es), ws)
    ensures NeverFails(cfg, codec, es)
  {
    if es == [] {
      ws := [];
      StartsComposed(cfg);
    } else {
      hide Steady, RunOnce;
      var before, e := es[..|es| - 1], es[|es| - 1];
      var w0 := CompositionTheorem(cfg, codec, before);
      ws := StepComposed(cfg, codec, TxRun(cfg, codec, before), w0, e.input, e.now);
    }
  }

  // ---------------------------------------------------------------------------
  // Bursts on the wire of a run
  // ---------------------------------------------------------------------------

  /** The row index of a block; any index for a block that was not sent. */
  lemma RowOfBlock(cfg: TxConfig, st: TxState, ws: seq<seq<Row>>, key: uint32) returns (r: nat)
    requires Composed(cfg, st, ws) && key != 0
    ensures r < cfg.depth && BurstBound.KeyedRow(ws, key, r)
  {
    var all: seq<seq<Row>> := ws + [st.window.rows];
    assert forall w :: 0 <= w < |ws| ==> all[w] == ws[w];
    if w, i :| 0 <= w < |ws| && 0 <= i < |ws[w]| && ws[w][i].key == key {
      r := i;
      forall v, q | 0 <= v < |ws| && 0 <= q < |ws[v]| && ws[v][q].key == key ensures q == r {
        assert all[w][i].key == all[v][q].key;
      }
    } else {
      r := 0;
    }
  }

  /**
   On the wire of every run with block ids below 2 to the 32, any at most m * depth consecutive symbols carry
   at most m symbols of any one block, even when they reach across windows.
   */
  lemma WireBurst(cfg: TxConfig, codec: FecWrapper.Codec, es: seq<TxEvent>, key: uint32, a: nat, len: nat)
    requires ValidTx(cfg) && IdsInBounds(cfg, codec, es) && key != 0
    requires a + len <= |TxRun(cfg, codec, es).wire| && len <= cfg.m * cfg.depth
    ensures BurstBound.LostOf(TxRun(cfg, codec, es).wire, key, a, len) <= cfg.m
  {
    hide TxRun, BurstBound.LostOf, BurstBound.Stream;
    var ws := CompositionTheorem(cfg, codec, es);
    var r := RowOfBlock(cfg, TxRun(cfg, codec, es), ws, key);
    BurstBound.BurstTheorem(TxGeometry(cfg), ws, key, r, a, len, cfg.m);
  }
}
