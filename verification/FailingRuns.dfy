/** Runs of the receive pipeline, from its start, that end with a packet nobody took on the LAN. */
module FailingRuns {
  import opened Types
  import opened DeinterleaverSpec
  import Invariant = DeinterleaverInvariant
  import FecWrapper
  import Wire
  import opened TxSpec
  import opened TxHistory
  import opened RxGrouping
  import opened RxSpec
  import opened WindowDelivery
  import opened WindowRuns
  import opened RxFailures
  import opened LossyDrain
  import opened LossyRuns

  // ---------------------------------------------------------------------------
  // One slot in use
  // ---------------------------------------------------------------------------

  /** At most the first slot is in use. */
  ghost predicate Alone(slots: seq<Slot>) {
    |slots| > 0 && forall i :: 0 < i < |slots| ==> slots[i].state == Empty
  }

  /** The slot of a block that takes the symbol: a fresh incarnation in an empty slot, ready with its n-th symbol. */
  function Take(c: Config, s: Slot, sym: Symbol, now: int): Slot
    requires |s.mask| == |s.block.symbols| == c.n && sym.fecId < c.n
  {
    var base := if s.state == Empty then InitSlot(ResetSlot(s), sym.packetId, c, now) else s;
    var stored := StoreSymbol(base, sym, now);
    if stored.valid == c.n then stored.(state := DeinterleaverSpec.Ready) else stored
  }

  /** The slot can take the symbol and is not due. */
  ghost predicate Open(c: Config, s: Slot, sym: Symbol, now: int) {
    && |s.mask| == |s.block.symbols| == c.n && !IsErasure(sym) && Acceptable(c, sym) && sym.fecId < c.n
    && 0 < c.stab && 0 < AgeLimit(c)
    && (s.state == Empty
        || (s.state == Filling && s.id == sym.packetId && !s.mask[sym.fecId] && Elapsed(s.first, now) < AgeLimit(c)
            && s.valid < c.n))
  }

  lemma TakeStays(c: Config, s: Slot, sym: Symbol, now: int)
    requires ValidConfig(c) && Open(c, s, sym, now)
    ensures var base := if s.state == Empty then InitSlot(ResetSlot(s), sym.packetId, c, now) else s;
      var stored := StoreSymbol(base, sym, now);
      FreezeRule(c, stored.valid, stored.first, stored.last, AgeLimit(c), now) == if stored.valid == c.n then Promote else Stay
  {
  }

  /** A push into the slot that is alone. */
  lemma AlonePush(c: Config, st: State, sym: Symbol, now: int)
    requires ValidConfig(c) && Shaped(c, st.slots) && Alone(st.slots) && Open(c, st.slots[0], sym, now)
    ensures Push(c, st, sym, now).0.slots == st.slots[0 := Take(c, st.slots[0], sym, now)]
  {
    TakeStays(c, st.slots[0], sym, now);
    hide FreezeRule;
    if st.slots[0].state == Filling {
      assert FindSlot(st.slots, sym.packetId) == 0;
    } else {
      assert FindSlot(st.slots, sym.packetId) == |st.slots|;
      assert AllocIndex(st.slots, now) == 0;
    }
  }

  /** A tick of the slot that is alone. */
  function Settle1(c: Config, s: Slot, now: int): Slot {
    if s.state == Filling && s.valid >= c.k && Elapsed(s.last, now) >= c.stab then s.(state := DeinterleaverSpec.Ready) else s
  }

  lemma AloneTick(c: Config, st: State, now: int)
    requires ValidConfig(c) && Inv(c, st) && Alone(st.slots) && 0 < c.stab
    requires st.slots[0].state == Filling ==> Elapsed(st.slots[0].first, now) < AgeLimit(c)
    ensures Tick(c, st, -1, now).slots == st.slots[0 := Settle1(c, st.slots[0], now)]
  {
    Invariant.TickKeeps(c, st, -1, now);
    assert SlotOk(c, st.slots[0]);
    var slots' := Tick(c, st, -1, now).slots;
    assert |slots'| == |st.slots|;
    forall j | 0 <= j < |slots'| ensures slots'[j] == st.slots[0 := Settle1(c, st.slots[0], now)][j] {
      assert slots'[j] == FreezeSlot(c, st, j, TickLimit(c, -1), now).slots[j];
    }
  }

  /** The drain when the slot is not ready, and when it is. */
  lemma AloneDrain(cfg: TxConfig, codec: FecWrapper.Codec, st: RxState)
    requires RxOk(cfg, st.dil) && Alone(st.dil.slots)
    ensures var s, st' := st.dil.slots[0], DrainReady(cfg, codec, st);
      if s.state == DeinterleaverSpec.Ready
      then st'.dil.slots == st.dil.slots[0 := ResetSlot(s)] && st'.sent == st.sent + SlotSends(cfg, codec, s)
      else st' == st
  {
    hide BlockPackets, CellsFit, HandleBlock;
    DrainUnfolds(cfg, codec, st);
    var s := st.dil.slots[0];
    if s.state == DeinterleaverSpec.Ready {
      assert FirstIn(st.dil.slots, DeinterleaverSpec.Ready, 0) == 0;
      RoundReports(cfg, codec, st, 0);
      HandleOne(cfg, codec, st, 0);
      DrainUnfolds(cfg, codec, HandleBlock(cfg, codec, st, 0));
    }
  }

  // ---------------------------------------------------------------------------
  // One event
  // ---------------------------------------------------------------------------

  /** The receiver has nothing in use but slot s, and has sent these packets. */
  ghost predicate Has(cfg: TxConfig, st: RxState, s: Slot, sent: seq<PacketBytes>) {
    RxOk(cfg, st.dil) && Alone(st.dil.slots) && st.dil.slots[0] == s && st.sent == sent
  }

  /** The tick and the push of a frame. */
  lemma PushTaken(cfg: TxConfig, st: RxState, s: Slot, sent: seq<PacketBytes>, sym: Symbol, now: int)
    requires Has(cfg, st, s, sent) && Open(RxConfig(cfg), s, sym, now) && Settle1(RxConfig(cfg), s, now) == s
    ensures Has(cfg, LossyRuns.Pushed(cfg, Ticked(cfg, st, now), sym, now), Take(RxConfig(cfg), s, sym, now), sent)
  {
    hide CellsFit, DeinterleaverSpec.Tick, DeinterleaverSpec.Push, Take;
    AloneTick(RxConfig(cfg), st.dil, now);
    assert Ticked(cfg, st, now).dil.slots == st.dil.slots;
    AlonePush(RxConfig(cfg), Ticked(cfg, st, now).dil, sym, now);
  }

  /** The drain that follows. */
  lemma DrainTaken(cfg: TxConfig, codec: FecWrapper.Codec, st: RxState, s: Slot, sent: seq<PacketBytes>)
    requires Has(cfg, st, s, sent)
    ensures var st' := DrainReady(cfg, codec, st);
      if s.state == DeinterleaverSpec.Ready then Has(cfg, st', ResetSlot(s), sent + SlotSends(cfg, codec, s))
      else Has(cfg, st', s, sent)
  {
    hide RxOk, DrainReady, SlotSends;
    AloneDrain(cfg, codec, st);
  }

  /** A frame into the slot, before its block is ready. */
  lemma FrameTaken(cfg: TxConfig, codec: FecWrapper.Codec, st: RxState, s: Slot, sent: seq<PacketBytes>, sym: Symbol, now: int)
    requires Has(cfg, st, s, sent) && Clean(cfg, sym) && Open(RxConfig(cfg), s, sym, now)
    requires Settle1(RxConfig(cfg), s, now) == s
    ensures var st', s' := RxOnce(cfg, codec, st, Frame(Wire.Serialise(sym)), now), Take(RxConfig(cfg), s, sym, now);
      if s'.state == DeinterleaverSpec.Ready then Has(cfg, st', ResetSlot(s'), sent + SlotSends(cfg, codec, s'))
      else Has(cfg, st', s', sent)
  {
    hide RxOk, Alone, Clean, Wire.Serialise, DrainReady, SlotSends, IsErasure, Acceptable, RxOnce, OnceDecodes, DrainedSlots, Ticked, Begins,
      LossyRuns.Pushed, Take, Settle1;
    PushTaken(cfg, st, s, sent, sym, now);
    CleanBegins(cfg, sym);
    FrameDecodes(cfg, codec, st, sym, Wire.Serialise(sym), now);
    DrainTaken(cfg, codec, LossyRuns.Pushed(cfg, Ticked(cfg, st, now), sym, now), Take(RxConfig(cfg), s, sym, now), sent);
  }

  lemma CleanBegins(cfg: TxConfig, sym: Symbol)
    requires Clean(cfg, sym)
    ensures Begins(sym, Wire.Serialise(sym))
  {
  }

  /** A poll after the quiet period: the block is decoded. */
  lemma PollTaken(cfg: TxConfig, codec: FecWrapper.Codec, st: RxState, s: Slot, sent: seq<PacketBytes>, now: int)
    requires Has(cfg, st, s, sent) && 0 < RxConfig(cfg).stab
    requires s.state == Filling && Elapsed(s.first, now) < AgeLimit(RxConfig(cfg))
    requires Settle1(RxConfig(cfg), s, now).state == DeinterleaverSpec.Ready
    ensures var st', s' := RxOnce(cfg, codec, st, Nothing, now), s.(state := DeinterleaverSpec.Ready);
      Has(cfg, st', ResetSlot(s'), sent + SlotSends(cfg, codec, s'))
  {
    hide CellsFit, DeinterleaverSpec.Tick, DrainReady, SlotSends, Inv;
    TickTaken(cfg, st, s, sent, now);
    DrainTaken(cfg, codec, Ticked(cfg, st, now), Settle1(RxConfig(cfg), s, now), sent);
  }

  lemma TickTaken(cfg: TxConfig, st: RxState, s: Slot, sent: seq<PacketBytes>, now: int)
    requires Has(cfg, st, s, sent) && 0 < RxConfig(cfg).stab
    requires s.state == Filling ==> Elapsed(s.first, now) < AgeLimit(RxConfig(cfg))
    ensures Has(cfg, Ticked(cfg, st, now), Settle1(RxConfig(cfg), s, now), sent)
  {
    hide CellsFit, DeinterleaverSpec.Tick;
    AloneTick(RxConfig(cfg), st.dil, now);
  }

  // ---------------------------------------------------------------------------
  // Symbols of one block, one after the other
  // ---------------------------------------------------------------------------

  /** What a slot holds once it has taken these symbols at time 0, none of them its last. */
  ghost predicate Holds(s: Slot, id: uint32, valid: nat, mask: seq<bool>, symbols: seq<Symbol>) {
    s.state == Filling && s.id == id && s.valid == valid && s.first == 0 && s.last == 0 && s.mask == mask
    && s.block.symbols == symbols
  }

  lemma FirstTaken(c: Config, s: Slot, sym: Symbol, symbols: seq<Symbol>)
    requires ValidConfig(c) && c.n > 1 && s.state == Empty && |s.mask| == |s.block.symbols| == c.n && sym.fecId < c.n
    requires s.block.symbols == symbols
    ensures Holds(Take(c, s, sym, 0), sym.packetId, 1, NoMarks(c.n)[sym.fecId := true], ClearIds(symbols)[sym.fecId := sym])
  {
  }

  lemma NextTaken(c: Config, s: Slot, id: uint32, valid: nat, mask: seq<bool>, symbols: seq<Symbol>, sym: Symbol)
    requires ValidConfig(c) && Holds(s, id, valid, mask, symbols) && |mask| == |symbols| == c.n && sym.fecId < c.n
    requires valid + 1 < c.n
    ensures Holds(Take(c, s, sym, 0), id, valid + 1, mask[sym.fecId := true], symbols[sym.fecId := sym])
  {
  }

  lemma OpenFor(c: Config, s: Slot, id: uint32, valid: nat, mask: seq<bool>, symbols: seq<Symbol>, sym: Symbol)
    requires Holds(s, id, valid, mask, symbols) && |mask| == |symbols| == c.n && valid < c.n && 0 < c.stab && 0 < AgeLimit(c)
    requires !IsErasure(sym) && Acceptable(c, sym) && sym.packetId == id && !mask[sym.fecId]
    ensures Open(c, s, sym, 0) && Settle1(c, s, 0) == s
  {
  }

  /** One more symbol of the block, not its last, at time 0. */
  lemma FrameHolds(cfg: TxConfig, codec: FecWrapper.Codec, st: RxState, s: Slot, sent: seq<PacketBytes>, valid: nat,
                   mask: seq<bool>, symbols: seq<Symbol>, sym: Symbol) returns (s': Slot)
    requires Has(cfg, st, s, sent) && Holds(s, sym.packetId, valid, mask, symbols) && Clean(cfg, sym)
    requires |mask| == |symbols| == cfg.k + cfg.m && valid + 1 < cfg.k + cfg.m
    requires !IsErasure(sym) && Acceptable(RxConfig(cfg), sym) && !mask[sym.fecId]
    ensures Has(cfg, RxOnce(cfg, codec, st, Frame(Wire.Serialise(sym)), 0), s', sent)
    ensures Holds(s', sym.packetId, valid + 1, mask[sym.fecId := true], symbols[sym.fecId := sym])
  {
    var c := RxConfig(cfg);
    OpenFor(c, s, sym.packetId, valid, mask, symbols, sym);
    NextTaken(c, s, sym.packetId, valid, mask, symbols, sym);
    s' := Take(c, s, sym, 0);
    hide Clean, IsErasure, Take, RxOnce, Open, RxOk, Alone, Settle1;
    FrameTaken(cfg, codec, st, s, sent, sym, 0);
  }

  /** The first symbol of a block, at time 0, into a slot that holds these symbols from before. */
  lemma FrameStarts(cfg: TxConfig, codec: FecWrapper.Codec, st: RxState, s: Slot, sent: seq<PacketBytes>,
                    symbols: seq<Symbol>, sym: Symbol) returns (s': Slot)
    requires Has(cfg, st, s, sent) && Clean(cfg, sym) && s.state == Empty && s.block.symbols == symbols
    requires |symbols| == |s.mask| == cfg.k + cfg.m && !IsErasure(sym) && Acceptable(RxConfig(cfg), sym)
    ensures Has(cfg, RxOnce(cfg, codec, st, Frame(Wire.Serialise(sym)), 0), s', sent)
    ensures Holds(s', sym.packetId, 1, NoMarks(cfg.k + cfg.m)[sym.fecId := true], ClearIds(symbols)[sym.fecId := sym])
  {
    var c := RxConfig(cfg);
    FirstTaken(c, s, sym, symbols);
    s' := Take(c, s, sym, 0);
    assert Open(c, s, sym, 0) && Settle1(c, s, 0) == s;
    hide Clean, IsErasure, Take, RxOnce, Open, RxOk, Alone, Settle1;
    FrameTaken(cfg, codec, st, s, sent, sym, 0);
  }

  lemma SendsOf(cfg: TxConfig, codec: FecWrapper.Codec, s: Slot, src: seq<byte>)
    requires ValidTx(cfg) && SymbolsFit(cfg, s.block.symbols) && cfg.k <= |s.block.symbols|
    requires FecWrapper.Decode(codec, cfg.k, s.block.symbols) == FecWrapper.Ok(src) && |src| == cfg.k * cfg.size
    ensures SlotSends(cfg, codec, s) == Sent(Groups(cfg.k, cfg.size, s.block.symbols, src))
  {
  }

  lemma PollDecodes(cfg: TxConfig, codec: FecWrapper.Codec, st: RxState, s: Slot, sent: seq<PacketBytes>, id: uint32, valid: nat,
                    mask: seq<bool>, symbols: seq<Symbol>, src: seq<byte>) returns (s': Slot)
    requires Has(cfg, st, s, sent) && Holds(s, id, valid, mask, symbols) && cfg.k <= valid
    requires cfg.k <= |symbols| && SymbolsFit(cfg, symbols)
    requires FecWrapper.Decode(codec, cfg.k, symbols) == FecWrapper.Ok(src) && |src| == cfg.k * cfg.size
    ensures Has(cfg, RxOnce(cfg, codec, st, Nothing, STABILIZATION), s',
                sent + Sent(Groups(cfg.k, cfg.size, symbols, src)))
    ensures s'.state == Empty && s'.block.symbols == symbols && |s'.mask| == |mask|
  {
    SendsOf(cfg, codec, s.(state := DeinterleaverSpec.Ready), src);
    hide RxOk, RxOnce, Groups, Sent, FecWrapper.Decode, SlotSends;
    PollTaken(cfg, codec, st, s, sent, STABILIZATION);
    s' := ResetSlot(s.(state := DeinterleaverSpec.Ready));
  }

  /** The last symbol of a block, at time 0: decoded at once. */
  lemma FrameDecoded(cfg: TxConfig, codec: FecWrapper.Codec, st: RxState, s: Slot, sent: seq<PacketBytes>, mask: seq<bool>,
                     symbols: seq<Symbol>, sym: Symbol, src: seq<byte>) returns (s': Slot)
    requires Has(cfg, st, s, sent) && Holds(s, sym.packetId, cfg.k + cfg.m - 1, mask, symbols) && Clean(cfg, sym)
    requires |mask| == |symbols| == cfg.k + cfg.m
    requires !IsErasure(sym) && Acceptable(RxConfig(cfg), sym) && !mask[sym.fecId]
    requires SymbolsFit(cfg, symbols[sym.fecId := sym])
    requires FecWrapper.Decode(codec, cfg.k, symbols[sym.fecId := sym]) == FecWrapper.Ok(src) && |src| == cfg.k * cfg.size
    ensures Has(cfg, RxOnce(cfg, codec, st, Frame(Wire.Serialise(sym)), 0), s',
                sent + Sent(Groups(cfg.k, cfg.size, symbols[sym.fecId := sym], src)))
    ensures s'.state == Empty && s'.block.symbols == symbols[sym.fecId := sym] && |s'.mask| == |mask|
  {
    var c := RxConfig(cfg);
    OpenFor(c, s, sym.packetId, cfg.k + cfg.m - 1, mask, symbols, sym);
    var t := Take(c, s, sym, 0);
    assert t.state == DeinterleaverSpec.Ready && t.block.symbols == symbols[sym.fecId := sym];
    SendsOf(cfg, codec, t, src);
    hide RxOk, RxOnce, Groups, Sent, FecWrapper.Decode, Clean, Wire.Serialise, Take, Open, Alone, SlotSends;
    FrameTaken(cfg, codec, st, s, sent, sym, 0);
    s' := ResetSlot(t);
  }

  // ---------------------------------------------------------------------------
  // Two packets mixed
  // ---------------------------------------------------------------------------

  const BLANK := Symbol(0, 0, 0, 0, 0, 0, [])

  /** A repair symbol of one byte. */
  function Repair(id: uint32, f: uint16, n: uint16, b: byte): Symbol {
    Symbol(id, f, f, n, 1, 0, [b])
  }

  function At(sym: Symbol, now: int): RxEvent
    requires sym.len <= |sym.data|
  {
    RxEvent(Frame(Wire.Serialise(sym)), now)
  }

  /** Block 7 of the packets [1, 2] and [3, 4], less its second and third symbol, and a poll after the quiet period. */
  function MixedEvents(p: byte, q: byte): seq<RxEvent> {
    [At(MIXED[0], 0), At(MIXED[3], 0), At(Repair(7, 4, 6, p), 0), At(Repair(7, 5, 6, q), 0), RxEvent(Nothing, STABILIZATION)]
  }

  /** The slot of block 7 then. */
  function MixedSymbols(p: byte, q: byte): seq<Symbol> {
    [MIXED[0], BLANK, BLANK, MIXED[3], Repair(7, 4, 6, p), Repair(7, 5, 6, q)]
  }

  lemma RunNext(cfg: TxConfig, codec: FecWrapper.Codec, st: RxState, es: seq<RxEvent>, e: RxEvent)
    requires RxOk(cfg, st.dil)
    ensures RxRun(cfg, codec, st, es + [e]) == RxOnce(cfg, codec, RxRun(cfg, codec, st, es), e.input, e.now)
  {
    hide RxOk, RxOnce;
    assert (es + [e])[..|es + [e]| - 1] == es;
  }

  lemma StartsAlone(cfg: TxConfig)
    requires ValidTx(cfg)
    ensures Has(cfg, InitialRx(cfg), NewSlot(cfg.k + cfg.m), [])
    ensures NewSlot(cfg.k + cfg.m).block.symbols == seq(cfg.k + cfg.m, _ => BLANK)
  {
    InitialRxOk(cfg);
  }

  lemma EventsClean(cfg: TxConfig, sym: Symbol)
    requires ValidTx(cfg) && !cfg.crcOn && |sym.data| == cfg.size && sym.len == cfg.size
    ensures Clean(cfg, sym)
  {
  }

  /** The receiver has taken block 7's four symbols that arrive. */
  lemma MixedTaken(cfg: TxConfig, codec: FecWrapper.Codec, p: byte, q: byte) returns (s: Slot)
    requires cfg == TxConfig(4, 2, 1, 1, false)
    ensures RxOk(cfg, InitialRx(cfg).dil)
    ensures Has(cfg, RxRun(cfg, codec, InitialRx(cfg), MixedEvents(p, q)[..4]), s, [])
    ensures Holds(s, 7, 4, [true, false, false, true, true, true], MixedSymbols(p, q))
  {
    hide RxOk, RxOnce, RxRun, Clean, Wire.Serialise, Has, Holds;
    StartsAlone(cfg);
    var st0, es := InitialRx(cfg), MixedEvents(p, q);
    InitialRxOk(cfg);
    var y0, y3, y4, y5 := MIXED[0], MIXED[3], Repair(7, 4, 6, p), Repair(7, 5, 6, q);
    EventsClean(cfg, y0);
    EventsClean(cfg, y3);
    EventsClean(cfg, y4);
    EventsClean(cfg, y5);
    RunEmpty(cfg, codec, st0);
    assert es[..1] == [] + [es[0]] && es[..2] == es[..1] + [es[1]] && es[..3] == es[..2] + [es[2]] && es[..4] == es[..3] + [es[3]];
    RunNext(cfg, codec, st0, [], es[0]);
    RunNext(cfg, codec, st0, es[..1], es[1]);
    RunNext(cfg, codec, st0, es[..2], es[2]);
    RunNext(cfg, codec, st0, es[..3], es[3]);
    var blank := seq(6, _ => BLANK);
    s := FrameStarts(cfg, codec, st0, NewSlot(6), [], blank, y0);
    var m1, c1 := NoMarks(6)[0 := true], ClearIds(blank)[0 := y0];
    s := FrameHolds(cfg, codec, RxRun(cfg, codec, st0, es[..1]), s, [], 1, m1, c1, y3);
    s := FrameHolds(cfg, codec, RxRun(cfg, codec, st0, es[..2]), s, [], 2, m1[3 := true], c1[3 := y3], y4);
    s := FrameHolds(cfg, codec, RxRun(cfg, codec, st0, es[..3]), s, [], 3, m1[3 := true][4 := true], c1[3 := y3][4 := y4], y5);
    assert m1[3 := true][4 := true][5 := true] == [true, false, false, true, true, true];
    assert c1[3 := y3][4 := y4][5 := y5] == MixedSymbols(p, q);
  }

  lemma RunEmpty(cfg: TxConfig, codec: FecWrapper.Codec, st: RxState)
    requires RxOk(cfg, st.dil)
    ensures RxRun(cfg, codec, st, []) == st
  {
  }

  /**
   From the start of the receiver, with a codec that decodes the block: the frames of block 7 less its second and third
   symbol, and a poll after the quiet period. [1, 4] is sent, which nobody took.
   */
  lemma MixedRun(cfg: TxConfig, codec: FecWrapper.Codec, p: byte, q: byte)
    requires cfg == TxConfig(4, 2, 1, 1, false)
    requires FecWrapper.Decode(codec, 4, MixedSymbols(p, q)) == FecWrapper.Ok([1, 2, 3, 4])
    ensures RxOk(cfg, InitialRx(cfg).dil)
    ensures RxRun(cfg, codec, InitialRx(cfg), MixedEvents(p, q)).sent == [[1, 4]]
  {
    var s := MixedTaken(cfg, codec, p, q);
    MixedGroups(MixedSymbols(p, q));
    hide RxOnce, RxRun, FecWrapper.Decode, Groups, Sent, Holds;
    var es := MixedEvents(p, q);
    assert es == es[..4] + [es[4]];
    RunNext(cfg, codec, InitialRx(cfg), es[..4], es[4]);
    var t := PollDecodes(cfg, codec, RxRun(cfg, codec, InitialRx(cfg), es[..4]), s, [], 7, 4,
                         [true, false, false, true, true, true], MixedSymbols(p, q), [1, 2, 3, 4]);
    assert [] + [[1, 4]] == [[1, 4]];
  }

  // ---------------------------------------------------------------------------
  // A packet left over
  // ---------------------------------------------------------------------------

  /** Block 1 of the packets [8] and [9], whole; block 2 of the packet [5], less its padding; a poll after the quiet period. */
  function LeftoverEvents(p: byte, q: byte): seq<RxEvent> {
    [At(Symbol(1, 0, 0, 1, 1, 0, [8]), 0), At(Symbol(1, 1, 0, 1, 1, 0, [9]), 0), At(Repair(1, 2, 3, p), 0),
     At(LEFTOVER[0], 0), At(Repair(2, 2, 3, q), 0), RxEvent(Nothing, STABILIZATION)]
  }

  function WholeSymbols(p: byte): seq<Symbol> {
    [Symbol(1, 0, 0, 1, 1, 0, [8]), Symbol(1, 1, 0, 1, 1, 0, [9]), Repair(1, 2, 3, p)]
  }

  function LeftoverSymbols(q: byte): seq<Symbol> {
    [LEFTOVER[0], LEFTOVER[1], Repair(2, 2, 3, q)]
  }

  /** Block 1 is decoded, and its symbols stay in the slot. */
  lemma WholeTaken(cfg: TxConfig, codec: FecWrapper.Codec, st: RxState, p: byte) returns (s: Slot)
    requires cfg == TxConfig(2, 1, 1, 1, false) && Has(cfg, st, NewSlot(3), [])
    requires FecWrapper.Decode(codec, 2, WholeSymbols(p)) == FecWrapper.Ok([8, 9])
    ensures RxOk(cfg, st.dil)
    ensures var st1 := RxOnce(cfg, codec, st, Frame(Wire.Serialise(WholeSymbols(p)[0])), 0);
      var st2 := RxOnce(cfg, codec, st1, Frame(Wire.Serialise(WholeSymbols(p)[1])), 0);
      Has(cfg, RxOnce(cfg, codec, st2, Frame(Wire.Serialise(WholeSymbols(p)[2])), 0), s, [[8], [9]])
    ensures s.state == Empty && s.block.symbols == WholeSymbols(p) && |s.mask| == 3
  {
    var x0, x1, x2 := WholeSymbols(p)[0], WholeSymbols(p)[1], WholeSymbols(p)[2];
    EventsClean(cfg, x0);
    EventsClean(cfg, x1);
    EventsClean(cfg, x2);
    LeftoverGroups(WholeSymbols(p), 1, 1, 8, 9);
    hide RxOnce, Clean, Wire.Serialise, Holds, Alone, FecWrapper.Decode, Groups, Sent;
    var blank := seq(3, _ => BLANK);
    s := FrameStarts(cfg, codec, st, NewSlot(3), [], blank, x0);
    var m1, c1 := NoMarks(3)[0 := true], ClearIds(blank)[0 := x0];
    var st1 := RxOnce(cfg, codec, st, Frame(Wire.Serialise(x0)), 0);
    s := FrameHolds(cfg, codec, st1, s, [], 1, m1, c1, x1);
    assert c1[1 := x1][2 := x2] == WholeSymbols(p);
    s := FrameDecoded(cfg, codec, RxOnce(cfg, codec, st1, Frame(Wire.Serialise(x1)), 0), s, [], m1[1 := true], c1[1 := x1], x2,
                      [8, 9]);
    assert [] + [[8], [9]] == [[8], [9]];
  }

  /** Block 2 takes the same slot, and leaves its second position as block 1 left it. */
  lemma LeftoverTaken(cfg: TxConfig, codec: FecWrapper.Codec, st: RxState, s: Slot, sent: seq<PacketBytes>, p: byte, q: byte)
    returns (s': Slot)
    requires cfg == TxConfig(2, 1, 1, 1, false) && Has(cfg, st, s, sent)
    requires s.state == Empty && s.block.symbols == WholeSymbols(p) && |s.mask| == 3
    ensures RxOk(cfg, st.dil) && RxOk(cfg, RxOnce(cfg, codec, st, Frame(Wire.Serialise(LEFTOVER[0])), 0).dil)
    ensures Has(cfg, RxOnce(cfg, codec, RxOnce(cfg, codec, st, Frame(Wire.Serialise(LEFTOVER[0])), 0),
                            Frame(Wire.Serialise(Repair(2, 2, 3, q))), 0), s', sent)
    ensures Holds(s', 2, 2, [true, false, true], LeftoverSymbols(q))
  {
    var y0, y2 := LEFTOVER[0], Repair(2, 2, 3, q);
    EventsClean(cfg, y0);
    EventsClean(cfg, y2);
    hide RxOnce, Clean, Wire.Serialise, Holds, Alone;
    s' := FrameStarts(cfg, codec, st, s, sent, WholeSymbols(p), y0);
    var m1, c1 := NoMarks(3)[0 := true], ClearIds(WholeSymbols(p))[0 := y0];
    s' := FrameHolds(cfg, codec, RxOnce(cfg, codec, st, Frame(Wire.Serialise(y0)), 0), s', sent, 1, m1, c1, y2);
    assert m1[2 := true] == [true, false, true];
    assert c1[2 := y2] == LeftoverSymbols(q);
  }

  /** After block 1's three frames. */
  lemma LeftoverFirst(cfg: TxConfig, codec: FecWrapper.Codec, p: byte, q: byte) returns (s: Slot)
    requires cfg == TxConfig(2, 1, 1, 1, false)
    requires FecWrapper.Decode(codec, 2, WholeSymbols(p)) == FecWrapper.Ok([8, 9])
    ensures RxOk(cfg, InitialRx(cfg).dil)
    ensures Has(cfg, RxRun(cfg, codec, InitialRx(cfg), LeftoverEvents(p, q)[..3]), s, [[8], [9]])
    ensures s.state == Empty && s.block.symbols == WholeSymbols(p) && |s.mask| == 3
  {
    StartsAlone(cfg);
    var st0, es := InitialRx(cfg), LeftoverEvents(p, q);
    RunEmpty(cfg, codec, st0);
    hide RxOnce, RxRun, FecWrapper.Decode, Wire.Serialise, RxOk, Alone, InitialRx;
    assert es[..1] == [] + [es[0]] && es[..2] == es[..1] + [es[1]] && es[..3] == es[..2] + [es[2]];
    RunNext(cfg, codec, st0, [], es[0]);
    RunNext(cfg, codec, st0, es[..1], es[1]);
    RunNext(cfg, codec, st0, es[..2], es[2]);
    s := WholeTaken(cfg, codec, st0, p);
  }

  /** After block 2's two frames. */
  lemma LeftoverSecond(cfg: TxConfig, codec: FecWrapper.Codec, p: byte, q: byte) returns (s: Slot)
    requires cfg == TxConfig(2, 1, 1, 1, false)
    requires FecWrapper.Decode(codec, 2, WholeSymbols(p)) == FecWrapper.Ok([8, 9])
    ensures RxOk(cfg, InitialRx(cfg).dil)
    ensures Has(cfg, RxRun(cfg, codec, InitialRx(cfg), LeftoverEvents(p, q)[..5]), s, [[8], [9]])
    ensures Holds(s, 2, 2, [true, false, true], LeftoverSymbols(q))
  {
    s := LeftoverFirst(cfg, codec, p, q);
    hide RxOnce, RxRun, FecWrapper.Decode, Holds, Wire.Serialise, RxOk, Alone, InitialRx;
    var st0, es := InitialRx(cfg), LeftoverEvents(p, q);
    assert es[..4] == es[..3] + [es[3]] && es[..5] == es[..4] + [es[4]];
    RunNext(cfg, codec, st0, es[..3], es[3]);
    RunNext(cfg, codec, st0, es[..4], es[4]);
    s := LeftoverTaken(cfg, codec, RxRun(cfg, codec, st0, es[..3]), s, [[8], [9]], p, q);
  }

  /**
   From the start of the receiver, with a codec that decodes both blocks: block 1 arrives whole; then block 2 arrives
   but for its padding, into the slot that block 1 has left. [5] is sent, and [0] besides, which nobody took.
   */
  lemma LeftoverRun(cfg: TxConfig, codec: FecWrapper.Codec, p: byte, q: byte)
    requires cfg == TxConfig(2, 1, 1, 1, false)
    requires FecWrapper.Decode(codec, 2, WholeSymbols(p)) == FecWrapper.Ok([8, 9])
    requires FecWrapper.Decode(codec, 2, LeftoverSymbols(q)) == FecWrapper.Ok([5, 0])
    ensures RxOk(cfg, InitialRx(cfg).dil)
    ensures RxRun(cfg, codec, InitialRx(cfg), LeftoverEvents(p, q)).sent == [[8], [9], [5], [0]]
  {
    var s := LeftoverSecond(cfg, codec, p, q);
    LeftoverGroups(LeftoverSymbols(q), 2, 0, 5, 0);
    hide RxOnce, RxRun, FecWrapper.Decode, Groups, Sent, Holds;
    var st0, es := InitialRx(cfg), LeftoverEvents(p, q);
    assert es == es[..5] + [es[5]];
    RunNext(cfg, codec, st0, es[..5], es[5]);
    var t := PollDecodes(cfg, codec, RxRun(cfg, codec, st0, es[..5]), s, [[8], [9]], 2, 2, [true, false, true],
                         LeftoverSymbols(q), [5, 0]);
    assert [[8], [9]] + [[5], [0]] == [[8], [9], [5], [0]];
  }
}
