/** Specification of the receive pipeline (src/rx_pipeline.c): parse, deinterleave, decode, regroup. */
module RxSpec {
  import opened Types
  import opened DeinterleaverSpec
  import DeinterleaverMap
  import DeinterleaverLedger
  import Invariant = DeinterleaverInvariant
  import opened TxSpec
  import opened TxHistory
  import FecWrapper
  import Wire
  import opened RxGrouping

  const STABILIZATION := 2 * NS_PER_MS
  const BLOCK_MAX_AGE := 50 * NS_PER_MS

  /** The deinterleaver the receive pipeline creates. */
  function RxConfig(cfg: TxConfig): Config {
    Config(cfg.depth * 4, cfg.k + cfg.m, cfg.k, cfg.size, STABILIZATION, BLOCK_MAX_AGE)
  }

  /** `sent` is the sequence of packets handed to the LAN so far. */
  datatype RxState = RxState(dil: State, sent: seq<PacketBytes>)

  /** Stored payload lengths never exceed the symbol size, received or stale. */
  ghost predicate CellsFit(cfg: TxConfig, slots: seq<Slot>) {
    forall i :: 0 <= i < |slots| ==> SlotFits(cfg, slots[i])
  }

  ghost predicate SlotFits(cfg: TxConfig, s: Slot) {
    SymbolsFit(cfg, s.block.symbols)
  }

  ghost predicate SymbolsFit(cfg: TxConfig, symbols: seq<Symbol>) {
    forall f :: 0 <= f < |symbols| ==> symbols[f].len <= cfg.size
  }

  ghost predicate RxOk(cfg: TxConfig, dil: State) {
    ValidTx(cfg) && Inv(RxConfig(cfg), dil) && CellsFit(cfg, dil.slots)
  }

  function InitialRx(cfg: TxConfig): RxState {
    RxState(InitState(RxConfig(cfg)), [])
  }

  lemma InitialRxOk(cfg: TxConfig)
    requires ValidTx(cfg)
    ensures ValidConfig(RxConfig(cfg)) && RxOk(cfg, InitialRx(cfg).dil)
  {
    Invariant.InitKeeps(RxConfig(cfg));
  }

  // ---------------------------------------------------------------------------
  // The deinterleaver keeps stored lengths in range
  // ---------------------------------------------------------------------------

  lemma FreezeFits(cfg: TxConfig, st: State, i: nat, timeout: int, now: int)
    requires ValidTx(cfg) && CellsFit(cfg, st.slots) && i < |st.slots|
    ensures CellsFit(cfg, FreezeSlot(RxConfig(cfg), st, i, timeout, now).slots)
  {
  }

  lemma OccupyFits(cfg: TxConfig, st: State, i: nat, id: uint32, now: int)
    requires CellsFit(cfg, st.slots) && i < |st.slots|
    ensures CellsFit(cfg, Occupy(RxConfig(cfg), st, i, id, now).slots)
  {
    var s := st.slots[i];
    assert SlotFits(cfg, s);
    assert SlotFits(cfg, ResetSlot(s));
    assert SlotFits(cfg, InitSlot(ResetSlot(s), id, RxConfig(cfg), now));
  }

  lemma PushIntoFits(cfg: TxConfig, st: State, i: nat, sym: Symbol, now: int)
    requires ValidTx(cfg) && CellsFit(cfg, st.slots) && i < |st.slots| && Acceptable(RxConfig(cfg), sym)
    requires |st.slots[i].mask| == |st.slots[i].block.symbols| == RxConfig(cfg).n
    ensures CellsFit(cfg, PushInto(RxConfig(cfg), st, i, sym, now).0.slots)
  {
    if !st.slots[i].mask[sym.fecId] {
      assert SlotFits(cfg, st.slots[i]);
      var s := StoreSymbol(st.slots[i], sym, now);
      assert SlotFits(cfg, s);
      FreezeFits(cfg, st.(slots := st.slots[i := s]), i, AgeLimit(RxConfig(cfg)), now);
    }
  }

  lemma PushFits(cfg: TxConfig, st: State, sym: Symbol, now: int)
    requires RxOk(cfg, st)
    ensures RxOk(cfg, Push(RxConfig(cfg), st, sym, now).0)
  {
    var c := RxConfig(cfg);
    Invariant.PushKeeps(c, st, sym, now);
    if !IsErasure(sym) && Acceptable(c, sym) {
      var i := FindSlot(st.slots, sym.packetId);
      if i < |st.slots| {
        if st.slots[i].state == Filling { PushIntoFits(cfg, st, i, sym, now); }
      } else {
        var a := AllocIndex(st.slots, now);
        Invariant.AllocAlwaysSucceeds(st, now);
        Invariant.OccupyVacates(c, st, a, sym.packetId, now);
        OccupyFits(cfg, st, a, sym.packetId, now);
        PushIntoFits(cfg, Occupy(c, st, a, sym.packetId, now), a, sym, now);
      }
    }
  }

  lemma {:induction false} TickUpToFits(cfg: TxConfig, st: State, limit: int, now: int, i: nat)
    requires ValidTx(cfg) && CellsFit(cfg, st.slots) && i <= |st.slots|
    ensures CellsFit(cfg, TickUpTo(RxConfig(cfg), st, limit, now, i).slots)
  {
    if i > 0 {
      TickUpToFits(cfg, st, limit, now, i - 1);
      FreezeFits(cfg, TickUpTo(RxConfig(cfg), st, limit, now, i - 1), i - 1, limit, now);
    }
  }

  lemma TickFitsAll(cfg: TxConfig, st: State, override: int, now: int)
    requires RxOk(cfg, st)
    ensures RxOk(cfg, Tick(RxConfig(cfg), st, override, now))
  {
    Invariant.TickKeeps(RxConfig(cfg), st, override, now);
    TickUpToFits(cfg, st, TickLimit(RxConfig(cfg), override), now, |st.slots|);
  }

  lemma MarkFits(cfg: TxConfig, st: State, id: uint32, success: bool)
    requires RxOk(cfg, st)
    ensures RxOk(cfg, Mark(st, id, success).0)
  {
    Invariant.MarkKeeps(RxConfig(cfg), st, id, success);
  }

  // ---------------------------------------------------------------------------
  // Draining ready blocks
  // ---------------------------------------------------------------------------

  /** recon_buf: the recovered bytes; recovery fills the whole block. */
  function Recon(cfg: TxConfig, bytes: seq<byte>): (r: seq<byte>)
    ensures |r| == cfg.k * cfg.size
  {
    if |bytes| == cfg.k * cfg.size then bytes else Zeros(cfg.k * cfg.size)
  }

  /** The packets the symbols of a ready block yield. */
  ghost function BlockPackets(cfg: TxConfig, codec: FecWrapper.Codec, symbols: seq<Symbol>): seq<PacketBytes>
    requires ValidTx(cfg) && SymbolsFit(cfg, symbols) && cfg.k <= |symbols|
  {
    match FecWrapper.Decode(codec, cfg.k, symbols)
    case Ok(bytes) => Sent(Groups(cfg.k, cfg.size, symbols, Recon(cfg, bytes)))
    case _ => []
  }

  /** How many blocks are ready. */
  function Ready(dil: State): nat {
    CountIn(dil.slots, DeinterleaverSpec.Ready, |dil.slots|)
  }

  /** Acknowledging the ready block in slot i frees that slot: one ready block fewer. */
  lemma MarkLowersReady(cfg: TxConfig, dil: State, i: nat, success: bool)
    requires RxOk(cfg, dil) && i < |dil.slots| && dil.slots[i].state == DeinterleaverSpec.Ready
    ensures var dil' := Mark(dil, dil.slots[i].id, success).0;
      Ready(dil') == Ready(dil) - 1 && dil'.slots == dil.slots[i := ResetSlot(dil.slots[i])]
  {
    DeinterleaverMap.BlockAt(dil.slots, i);
    DeinterleaverLedger.CountReplace(dil.slots, i, ResetSlot(dil.slots[i]), DeinterleaverSpec.Ready, |dil.slots|);
  }

  /** One round of the outer loop, on the ready block in slot i. */
  ghost function HandleBlock(cfg: TxConfig, codec: FecWrapper.Codec, st: RxState, i: nat): (st': RxState)
    requires RxOk(cfg, st.dil) && i < |st.dil.slots| && st.dil.slots[i].state == DeinterleaverSpec.Ready
    ensures RxOk(cfg, st'.dil) && Ready(st'.dil) < Ready(st.dil)
  {
    var s := st.dil.slots[i];
    var ok := FecWrapper.Decode(codec, cfg.k, s.block.symbols).Ok?;
    MarkFits(cfg, st.dil, s.id, ok);
    MarkLowersReady(cfg, st.dil, i, ok);
    RxState(Mark(st.dil, s.id, ok).0, st.sent + BlockPackets(cfg, codec, s.block.symbols))
  }

  /** drain_ready_blocks. */
  ghost function DrainReady(cfg: TxConfig, codec: FecWrapper.Codec, st: RxState): (st': RxState)
    requires RxOk(cfg, st.dil)
    ensures RxOk(cfg, st'.dil)
    decreases Ready(st.dil)
  {
    var i := FirstIn(st.dil.slots, DeinterleaverSpec.Ready, 0);
    if i == |st.dil.slots| then st else DrainReady(cfg, codec, HandleBlock(cfg, codec, st, i))
  }

  // ---------------------------------------------------------------------------
  // One step
  // ---------------------------------------------------------------------------

  /** What packet_io_receive yields. */
  datatype RxInput = Nothing | ReceiveError | Frame(bytes: seq<byte>)

  /** The parsed symbol of a frame goes to the deinterleaver, and ready blocks are drained. */
  ghost function TakeSymbol(cfg: TxConfig, codec: FecWrapper.Codec, st: RxState, sym: Symbol, now: int): (st': RxState)
    requires RxOk(cfg, st.dil)
    ensures RxOk(cfg, st'.dil)
  {
    PushFits(cfg, st.dil, sym, now);
    DrainReady(cfg, codec, st.(dil := Push(RxConfig(cfg), st.dil, sym, now).0))
  }

  /** rx_pipeline_run_once. */
  ghost function RxOnce(cfg: TxConfig, codec: FecWrapper.Codec, st: RxState, input: RxInput, now: int): (st': RxState)
    requires RxOk(cfg, st.dil)
    ensures RxOk(cfg, st'.dil)
  {
    TickFitsAll(cfg, st.dil, -1, now);
    var ticked := st.(dil := Tick(RxConfig(cfg), st.dil, -1, now));
    match input
    case Nothing => DrainReady(cfg, codec, ticked)
    case ReceiveError => ticked
    case Frame(bytes) =>
      match Wire.Parse(bytes, cfg.size, cfg.crcOn)
      case Padding(sym) => TakeSymbol(cfg, codec, ticked, sym, now)
      case Accepted(sym) => TakeSymbol(cfg, codec, ticked, sym, now)
      case CrcFailed(_) =>
        ticked.(dil := ticked.dil.(stats := ticked.dil.stats.(crcFail := ticked.dil.stats.crcFail + 1)))
      case _ => ticked
  }

  /** After a drain no block is left ready. */
  lemma {:induction false} DrainsAll(cfg: TxConfig, codec: FecWrapper.Codec, st: RxState)
    requires RxOk(cfg, st.dil)
    ensures forall i :: 0 <= i < |DrainReady(cfg, codec, st).dil.slots| ==>
              DrainReady(cfg, codec, st).dil.slots[i].state != DeinterleaverSpec.Ready
    decreases Ready(st.dil)
  {
    hide HandleBlock;
    var i := FirstIn(st.dil.slots, DeinterleaverSpec.Ready, 0);
    if i < |st.dil.slots| { DrainsAll(cfg, codec, HandleBlock(cfg, codec, st, i)); }
  }
}
