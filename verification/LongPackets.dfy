/** What run_once does with a packet longer than a block, and what two idle calls leave after packets of any length. */
module LongPackets {
  import opened Types
  import FecWrapper
  import opened Interleaving
  import opened TxSpec
  import opened WholeBlocks
  import opened TxPacking
  import opened TxClock
  import opened TxComposition
  import EndToEnd

  /** Room is made for a packet longer than a block by closing whatever block is open. */
  lemma RoomEmpties(cfg: TxConfig, codec: FecWrapper.Codec, st: TxState, ws: seq<seq<Row>>, frags: nat, now: int)
    requires Composed(cfg, st, ws) && st.builder.id < 0x1_0000_0000 && frags > cfg.k
    ensures TxOk(cfg, st)
    ensures var (roomy, ok) := MakeRoom(cfg, codec, st, frags, now); ok && roomy.builder.syms == []
  {
    ComposedOk(cfg, st, ws);
    hide Composed, FlushBlock, TickAndDrain, TxOk;
    if st.builder.syms != [] {
      var w1 := FlushComposed(cfg, codec, st, ws, now);
    }
  }

  /**
   run_once on a packet of more than k fragments, whatever waits in the builder: the open block is closed, the
   packet's first k fragments are sealed as a block of their own, and the loop goes on with the rest.
   */
  lemma LongPacketTaken(cfg: TxConfig, codec: FecWrapper.Codec, st: TxState, ws: seq<seq<Row>>, f: seq<Symbol>, now: int)
    returns (roomy: TxState, full: TxState)
    requires Steady(cfg, st, ws) && AllFit(cfg, f) && cfg.k < |f| && st.builder.id + 1 < 0x1_0000_0000
    ensures TxOk(cfg, st) && TxOk(cfg, roomy) && TxOk(cfg, full)
    ensures MakeRoom(cfg, codec, st, |f|, now) == (roomy, true) && roomy.builder.syms == []
    ensures full.builder.syms == f[..cfg.k] && full.window == roomy.window && full.wire == roomy.wire
    ensures full.builder.id == roomy.builder.id
    ensures CloseBlock(cfg, codec, full, now).1
    ensures AddFrom(cfg, codec, roomy, f, 0, now)
         == AddFrom(cfg, codec, TickAndDrain(cfg, CloseBlock(cfg, codec, full, now).0, now), f, cfg.k, now)
  {
    ComposedOk(cfg, st, ws);
    hide Composed, MakeRoom, CloseBlock, TickAndDrain, TxOk, AddFrom, AllFit;
    RoomEmpties(cfg, codec, st, ws, |f|, now);
    var w1 := RoomComposed(cfg, codec, st, ws, |f|, now);
    roomy := MakeRoom(cfg, codec, st, |f|, now).0;
    ComposedOk(cfg, roomy, w1);
    LongPacketSplits(cfg, codec, roomy, f, now);
    full := Loaded(roomy, f, 0, cfg.k, now);
    LoadedElsewhere(roomy, f, 0, cfg.k, now);
    BuilderIgnored(cfg, roomy, full, w1);
    var w2 := CloseComposed(cfg, codec, full, w1, now);
  }

  /** Loading the builder touches neither the window nor the wire. */
  lemma {:induction false} LoadedElsewhere(st: TxState, f: seq<Symbol>, i: nat, j: nat, now: int)
    requires i + j <= |f|
    ensures var full := Loaded(st, f, i, j, now);
      full.window == st.window && full.wire == st.wire && full.builder.id == st.builder.id
  {
    if j > 0 { LoadedElsewhere(st, f, i, j - 1, now); }
  }

  // ---------------------------------------------------------------------------
  // The final idle calls
  // ---------------------------------------------------------------------------

  /** An idle call after the block timeout empties the builder. */
  lemma IdleEmpties(cfg: TxConfig, codec: FecWrapper.Codec, st: TxState, ws: seq<seq<Row>>, last: int, now: int)
    requires Composed(cfg, st, ws) && st.builder.id < 0x1_0000_0000
    requires Clocked(st, last) && now >= last + BLOCK_TIMEOUT
    ensures TxOk(cfg, st) && RunOnce(cfg, codec, st, Idle, now).0.builder.syms == []
  {
    ComposedOk(cfg, st, ws);
    hide Composed, FlushBlock, TickAndDrain, TxOk;
    var w1 := FlushComposed(cfg, codec, st, ws, now);
  }

  /** A tick after the flush timeout empties the interleaver. */
  lemma TickEmpties(cfg: TxConfig, st: TxState, ws: seq<seq<Row>>, last: int, now: int)
    requires Composed(cfg, st, ws) && Clocked(st, last) && now >= last + FLUSH_TIMEOUT
    ensures TxOk(cfg, st) && TickAndDrain(cfg, st, now).window.rows == []
  {
    ComposedOk(cfg, st, ws);
    var g := TxGeometry(cfg);
    TickWhole(g, st.window, now);
    Interleaving.TickKeeps(g, st.window, now);
    TickFits(cfg, st.window, now);
  }

  lemma IdleSends(cfg: TxConfig, codec: FecWrapper.Codec, st: TxState, ws: seq<seq<Row>>, last: int, now: int)
    requires Composed(cfg, st, ws) && st.builder.syms == [] && Clocked(st, last) && now >= last + FLUSH_TIMEOUT
    ensures TxOk(cfg, st)
    ensures var st' := RunOnce(cfg, codec, st, Idle, now).0; st'.builder.syms == [] && st'.window.rows == []
  {
    ComposedOk(cfg, st, ws);
    TickEmpties(cfg, st, ws, last, now);
    hide Composed, FlushBlock, TickAndDrain, TxOk;
  }

  /**
   After every run with block ids below 2 to the 32, packets of any length included, an idle call later than the
   block timeout and one later than the flush timeout leave nothing in the builder and nothing in the interleaver:
   all that was taken is on the wire.
   */
  lemma NothingWaits(cfg: TxConfig, codec: FecWrapper.Codec, es: seq<TxEvent>, t1: int, t2: int) returns (ws: seq<seq<Row>>)
    requires ValidTx(cfg) && EndToEnd.WellTimed(es, t1, t2)
    requires IdsInBounds(cfg, codec, EndToEnd.WithFlushes(es, t1, t2))
    ensures var st := TxRun(cfg, codec, EndToEnd.WithFlushes(es, t1, t2));
      Steady(cfg, st, ws) && st.builder.syms == [] && st.window.rows == []
  {
    hide Composed, RunOnce, Clocked, TxOk;
    var es1, all := es + [TxEvent(Idle, t1)], EndToEnd.WithFlushes(es, t1, t2);
    assert es1[..|es1| - 1] == es && all[..|all| - 1] == es1;
    assert IdsInBounds(cfg, codec, es1) && IdsInBounds(cfg, codec, es);
    var w0 := CompositionTheorem(cfg, codec, es);
    var w1 := CompositionTheorem(cfg, codec, es1);
    ws := CompositionTheorem(cfg, codec, all);
    var last := if es == [] then t1 - BLOCK_TIMEOUT else es[|es| - 1].now;
    RunsClocked(cfg, codec, es, last);
    IdleEmpties(cfg, codec, TxRun(cfg, codec, es), w0, last, t1);
    assert Ordered(es1);
    RunsClocked(cfg, codec, es1, t1);
    IdleSends(cfg, codec, TxRun(cfg, codec, es1), w1, t1, t2);
  }
}
