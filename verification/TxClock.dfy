/**
 The transmit pipeline's timestamps never run ahead of a clock that does not go back, so a late enough idle
 call finds every timeout expired.
 */
module TxClock {
  import opened Types
  import opened BlockBuilding
  import opened Fragmentation
  import FecWrapper
  import opened Interleaving
  import opened TxSpec
  import opened TxPacking

  ghost predicate WindowClocked(w: Window, now: int) {
    w.rows != [] ==> w.start <= now
  }

  /** What is waiting came no later than now. */
  ghost predicate Clocked(st: TxState, now: int) {
    (st.builder.syms != [] ==> st.builder.first <= now) && WindowClocked(st.window, now)
  }

  lemma DrainClocked(cfg: TxConfig, st: TxState, now: int)
    requires TxOk(cfg, st) && Clocked(st, now)
    ensures Clocked(Drain(cfg, st), now)
  {
    hide TxOk;
  }

  lemma {:induction false} PushClocked(cfg: TxConfig, w: Window, syms: seq<Symbol>, i: nat, now: int)
    requires ValidTx(cfg) && WellFormed(TxGeometry(cfg), w) && FitsAll(cfg, w.rows) && AllFit(cfg, syms)
    requires i <= |syms| && WindowClocked(w, now)
    ensures WindowClocked(PushFrom(cfg, w, syms, i, now).0, now)
    decreases |syms| - i
  {
    if i < |syms| {
      PushKeeps(TxGeometry(cfg), w, syms[i], now);
      PushFits(cfg, w, syms[i], now);
      StepClocked(TxGeometry(cfg), w, syms[i], now);
      hide Push, WellFormed, FitsAll, AllFit;
      PushClocked(cfg, Push(TxGeometry(cfg), w, syms[i], now).0, syms, i + 1, now);
    }
  }

  lemma StepClocked(g: Geometry, w: Window, s: Symbol, now: int)
    requires WindowClocked(w, now)
    ensures WindowClocked(Push(g, w, s, now).0, now)
  {
  }

  lemma EncodeClocked(cfg: TxConfig, codec: FecWrapper.Codec, st: TxState, now: int)
    requires TxOk(cfg, st) && |st.builder.syms| == cfg.k && Clocked(st, now)
    ensures Clocked(EncodeAndDrain(cfg, codec, st, now).0, now)
  {
    hide FitsAll, WellFormed, BlockSymbols, PushFrom, AllFit, Drain;
    var block := BlockSymbols(cfg, codec, st.builder.syms, WireId(st.builder));
    var sealed := st.(builder := st.builder.(syms := block[..cfg.k]));
    SealedStays(cfg, st, block);
    DrainClocked(cfg, sealed, now);
    var before := Drain(cfg, sealed);
    PushClocked(cfg, before.window, block, 0, now);
    var (w, ok) := PushFrom(cfg, before.window, block, 0, now);
    PushedStays(cfg, before, w);
    if ok { DrainClocked(cfg, before.(window := w), now); }
  }

  lemma SealedStays(cfg: TxConfig, st: TxState, block: seq<Symbol>)
    requires TxOk(cfg, st) && AllFit(cfg, block) && |block| >= cfg.k
    ensures TxOk(cfg, st.(builder := st.builder.(syms := block[..cfg.k])))
  {
  }

  lemma PushedStays(cfg: TxConfig, st: TxState, w: Window)
    requires TxOk(cfg, st) && WellFormed(TxGeometry(cfg), w) && FitsAll(cfg, w.rows)
    ensures TxOk(cfg, st.(window := w))
  {
  }

  lemma CloseClocked(cfg: TxConfig, codec: FecWrapper.Codec, st: TxState, now: int)
    requires TxOk(cfg, st) && |st.builder.syms| == cfg.k && Clocked(st, now)
    ensures Clocked(CloseBlock(cfg, codec, st, now).0, now)
  {
    hide EncodeAndDrain, TxOk;
    EncodeClocked(cfg, codec, st, now);
  }

  lemma FlushClocked(cfg: TxConfig, codec: FecWrapper.Codec, st: TxState, now: int)
    requires TxOk(cfg, st) && st.builder.syms != [] && Clocked(st, now)
    ensures Clocked(FlushBlock(cfg, codec, st, now).0, now)
  {
    hide CloseBlock;
    PadFits(cfg, st.builder.syms);
    CloseClocked(cfg, codec, st.(builder := st.builder.(syms := PadTo(st.builder.syms, cfg.k, cfg.size))), now);
  }

  lemma TickClocked(cfg: TxConfig, st: TxState, now: int)
    requires TxOk(cfg, st) && Clocked(st, now)
    ensures Clocked(TickAndDrain(cfg, st, now), now)
  {
    hide FitsAll, WellFormed, AllFit, Drain;
    Interleaving.TickKeeps(TxGeometry(cfg), st.window, now);
    TickFits(cfg, st.window, now);
    var (w, rc) := Tick(TxGeometry(cfg), st.window, now);
    PushedStays(cfg, st, w);
    if rc == 1 { DrainClocked(cfg, st.(window := w), now); }
  }

  lemma TimeoutClocked(cfg: TxConfig, codec: FecWrapper.Codec, st: TxState, now: int)
    requires TxOk(cfg, st) && Clocked(st, now)
    ensures Clocked(FlushIfTimedOut(cfg, codec, st, now).0, now)
  {
    hide FlushBlock, TxOk;
    if TimedOut(st.builder, BLOCK_TIMEOUT, now) { FlushClocked(cfg, codec, st, now); }
  }

  lemma {:induction false} AddClocked(cfg: TxConfig, codec: FecWrapper.Codec, st: TxState, f: seq<Symbol>, i: nat, now: int)
    requires TxOk(cfg, st) && AllFit(cfg, f) && i <= |f| && Clocked(st, now)
    ensures Clocked(AddFrom(cfg, codec, st, f, i, now).0, now)
    decreases |f| - i
  {
    hide CloseBlock, TickAndDrain, TxOk, AllFit;
    if i < |f| {
      AddKeepsOk(cfg, st, f, i, now);
      var added := st.(builder := Add(st.builder, f[i], now));
      if |st.builder.syms| == cfg.k {
        AddClocked(cfg, codec, st, f, i + 1, now);
      } else if |added.builder.syms| < cfg.k {
        AddClocked(cfg, codec, added, f, i + 1, now);
      } else {
        CloseClocked(cfg, codec, added, now);
        var (closed, ok) := CloseBlock(cfg, codec, added, now);
        if ok {
          TickClocked(cfg, closed, now);
          AddClocked(cfg, codec, TickAndDrain(cfg, closed, now), f, i + 1, now);
        }
      }
    }
  }

  lemma RoomClocked(cfg: TxConfig, codec: FecWrapper.Codec, st: TxState, frags: nat, now: int)
    requires TxOk(cfg, st) && Clocked(st, now)
    ensures Clocked(MakeRoom(cfg, codec, st, frags, now).0, now)
  {
    hide FlushBlock, TickAndDrain, TxOk;
    if frags > 0 && st.builder.syms != [] && |st.builder.syms| + frags > cfg.k {
      FlushClocked(cfg, codec, st, now);
      var (flushed, ok) := FlushBlock(cfg, codec, st, now);
      if ok { TickClocked(cfg, flushed, now); }
    }
  }

  lemma TakeClocked(cfg: TxConfig, codec: FecWrapper.Codec, st: TxState, f: seq<Symbol>, now: int)
    requires TxOk(cfg, st) && AllFit(cfg, f) && Clocked(st, now)
    ensures Clocked(TakePacket(cfg, codec, st, f, now).0, now)
  {
    hide MakeRoom, AddFrom, FlushIfTimedOut, TxOk, AllFit;
    RoomClocked(cfg, codec, st, |f|, now);
    var (roomy, ok) := MakeRoom(cfg, codec, st, |f|, now);
    if ok {
      AddClocked(cfg, codec, roomy, f, 0, now);
      var (added, ok') := AddFrom(cfg, codec, roomy, f, 0, now);
      if ok' { TimeoutClocked(cfg, codec, added, now); }
    }
  }

  lemma CounterStays(cfg: TxConfig, st: TxState, n: uint32)
    requires TxOk(cfg, st)
    ensures TxOk(cfg, st.(nextPacket := n)) && ValidTx(cfg)
  {
  }

  /** A call of run_once at a time not before the last leaves nothing stamped later. */
  lemma RunClocked(cfg: TxConfig, codec: FecWrapper.Codec, st: TxState, input: Input, last: int, now: int)
    requires TxOk(cfg, st) && Clocked(st, last) && last <= now
    ensures Clocked(RunOnce(cfg, codec, st, input, now).0, now)
  {
    hide TakePacket, FlushIfTimedOut, TickAndDrain, TxOk, AllFit, FragmentAll;
    CounterStays(cfg, st, 0);
    match input
    case Idle =>
      TimeoutClocked(cfg, codec, st, now);
      var (flushed, ok) := FlushIfTimedOut(cfg, codec, st, now);
      if ok { TickClocked(cfg, flushed, now); }
    case NotForwarded =>
    case Lan(p) =>
      var fragments := FragmentAll(p, st.nextPacket, cfg.size, MaxFrags(cfg));
      if fragments.Some? {
        FragmentsFit(cfg, p, st.nextPacket);
        var counted := st.(nextPacket := (st.nextPacket + 1) % 0x1_0000_0000);
        CounterStays(cfg, st, counted.nextPacket);
        TakeClocked(cfg, codec, counted, fragments.syms, now);
        var (taken, ok) := TakePacket(cfg, codec, counted, fragments.syms, now);
        if ok { TickClocked(cfg, taken, now); }
      }
  }

  /** The clock never goes back. */
  predicate Ordered(es: seq<TxEvent>) {
    forall i, j :: 0 <= i < j < |es| ==> es[i].now <= es[j].now
  }

  lemma {:induction false} RunsClocked(cfg: TxConfig, codec: FecWrapper.Codec, es: seq<TxEvent>, now: int)
    requires ValidTx(cfg) && Ordered(es) && (es != [] ==> es[|es| - 1].now <= now)
    ensures Clocked(TxRun(cfg, codec, es), now)
  {
    if es != [] {
      hide RunOnce, TxOk;
      var before, e := es[..|es| - 1], es[|es| - 1];
      RunsClocked(cfg, codec, before, e.now);
      RunClocked(cfg, codec, TxRun(cfg, codec, before), e.input, e.now, e.now);
      LaterStill(TxRun(cfg, codec, es), e.now, now);
    }
  }

  lemma LaterStill(st: TxState, now: int, later: int)
    requires Clocked(st, now) && now <= later
    ensures Clocked(st, later)
  {
  }
}
