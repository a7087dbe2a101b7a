/** What a decoded slot can hold at positions it did not receive, over every run of the receive pipeline. */
module LossTraces {
  import opened Types
  import opened DeinterleaverSpec
  import opened DeinterleaverRuns
  import opened WindowRuns
  import FecWrapper
  import Wire
  import opened TxSpec
  import opened RxSpec
  import opened LossPackets
  import opened LossyDrain
  import opened LossyRuns

  /** The symbols that the frames carry, in order. */
  ghost function Carried(cfg: TxConfig, es: seq<RxEvent>): (ops: seq<Op>) {
    if es == [] then []
    else
      var before, e := Carried(cfg, es[..|es| - 1]), es[|es| - 1];
      match e.input
      case Frame(bytes) =>
        (match Wire.Parse(bytes, cfg.size, cfg.crcOn)
         case Padding(sym) => before + [PushOp(sym, e.now)]
         case Accepted(sym) => before + [PushOp(sym, e.now)]
         case _ => before)
      case _ => before
  }

  lemma TickedTraced(cfg: TxConfig, ops: seq<Op>, st: RxState, now: int)
    requires RxOk(cfg, st.dil) && AllTraced(RxConfig(cfg), ops, st.dil.slots)
    ensures AllTraced(RxConfig(cfg), ops, Ticked(cfg, st, now).dil.slots)
  {
    hide AllTraced, CellsFit;
    TickAllTraced(RxConfig(cfg), ops, st.dil, -1, now);
  }

  lemma PushedTraced(cfg: TxConfig, ops: seq<Op>, st: RxState, sym: Symbol, now: int)
    requires RxOk(cfg, st.dil) && AllTraced(RxConfig(cfg), ops, st.dil.slots)
    ensures AllTraced(RxConfig(cfg), ops + [PushOp(sym, now)], Pushed(cfg, st, sym, now).dil.slots)
  {
    hide AllTraced, CellsFit, Push;
    SlotsLater(RxConfig(cfg), ops, PushOp(sym, now), st.dil.slots);
    PushTraced(RxConfig(cfg), ops + [PushOp(sym, now)], st.dil, sym, now);
  }

  lemma LogTraced(cfg: TxConfig, ops: seq<Op>, slots: seq<Slot>, log: seq<Slot>)
    requires SlotsOf(log, slots) && AllTraced(RxConfig(cfg), ops, slots)
    ensures AllTraced(RxConfig(cfg), ops, log)
  {
    hide SlotTraced;
    forall j | 0 <= j < |log| ensures SlotTraced(RxConfig(cfg), ops, log[j]) {
      var i :| 0 <= i < |slots| && slots[i] == log[j] && slots[i].state == DeinterleaverSpec.Ready;
    }
  }

  lemma HandledTraced(cfg: TxConfig, codec: FecWrapper.Codec, ops: seq<Op>, st: RxState, i: nat)
    requires RxOk(cfg, st.dil) && i < |st.dil.slots| && st.dil.slots[i].state == DeinterleaverSpec.Ready
    requires AllTraced(RxConfig(cfg), ops, st.dil.slots)
    ensures AllTraced(RxConfig(cfg), ops, HandleBlock(cfg, codec, st, i).dil.slots)
  {
    hide AllTraced, Mark, CellsFit, BlockPackets;
    MarkTraced(RxConfig(cfg), ops, st.dil, st.dil.slots[i].id, FecWrapper.Decode(codec, cfg.k, st.dil.slots[i].block.symbols).Ok?);
  }

  lemma {:induction false} DrainTraced(cfg: TxConfig, codec: FecWrapper.Codec, ops: seq<Op>, st: RxState)
    requires RxOk(cfg, st.dil) && AllTraced(RxConfig(cfg), ops, st.dil.slots)
    ensures AllTraced(RxConfig(cfg), ops, DrainReady(cfg, codec, st).dil.slots)
    decreases RxSpec.Ready(st.dil)
  {
    hide AllTraced, HandleBlock, RxOk, DrainReady, RxSpec.Ready, FirstIn, DrainedSlots;
    DrainUnfolds(cfg, codec, st);
    var i := FirstIn(st.dil.slots, DeinterleaverSpec.Ready, 0);
    if i < |st.dil.slots| {
      HandledTraced(cfg, codec, ops, st, i);
      DrainTraced(cfg, codec, ops, HandleBlock(cfg, codec, st, i));
    }
  }

  /** Draining a state whose slots are traced. */
  lemma DrainBoth(cfg: TxConfig, codec: FecWrapper.Codec, ops: seq<Op>, st: RxState)
    requires RxOk(cfg, st.dil) && AllTraced(RxConfig(cfg), ops, st.dil.slots)
    ensures AllTraced(RxConfig(cfg), ops, DrainReady(cfg, codec, st).dil.slots)
    ensures AllTraced(RxConfig(cfg), ops, DrainedSlots(cfg, codec, st))
  {
    hide AllTraced, DrainReady, DrainedSlots, SlotsOf, RxOk;
    DrainTraced(cfg, codec, ops, st);
    DrainReports(cfg, codec, st);
    LogTraced(cfg, ops, st.dil.slots, DrainedSlots(cfg, codec, st));
  }

  /** One event, after events that carried ops. */
  lemma OnceTraced(cfg: TxConfig, codec: FecWrapper.Codec, st: RxState, before: seq<RxEvent>, e: RxEvent)
    requires RxOk(cfg, st.dil) && AllTraced(RxConfig(cfg), Carried(cfg, before), st.dil.slots)
    ensures var ops := Carried(cfg, before + [e]);
      && AllTraced(RxConfig(cfg), ops, RxOnce(cfg, codec, st, e.input, e.now).dil.slots)
      && AllTraced(RxConfig(cfg), ops, OnceDecodes(cfg, codec, st, e.input, e.now))
      && (ops == Carried(cfg, before) || exists op :: ops == Carried(cfg, before) + [op])
  {
    assert (before + [e])[..|before + [e]| - 1] == before;
    hide AllTraced, DrainReady, DrainedSlots, RxOk, DeinterleaverSpec.Tick, DeinterleaverSpec.Push, Wire.Parse, CellsFit;
    var ops := Carried(cfg, before);
    TickedTraced(cfg, ops, st, e.now);
    var ticked := Ticked(cfg, st, e.now);
    NothingTraced(cfg, ops);
    NothingTraced(cfg, Carried(cfg, before + [e]));
    match e.input
    case Nothing => DrainBoth(cfg, codec, ops, ticked);
    case ReceiveError =>
    case Frame(bytes) =>
      match Wire.Parse(bytes, cfg.size, cfg.crcOn)
      case Padding(sym) =>
        PushedTraced(cfg, ops, ticked, sym, e.now);
        DrainBoth(cfg, codec, ops + [PushOp(sym, e.now)], Pushed(cfg, ticked, sym, e.now));
      case Accepted(sym) =>
        PushedTraced(cfg, ops, ticked, sym, e.now);
        DrainBoth(cfg, codec, ops + [PushOp(sym, e.now)], Pushed(cfg, ticked, sym, e.now));
      case _ =>
  }

  lemma NothingTraced(cfg: TxConfig, ops: seq<Op>)
    ensures AllTraced(RxConfig(cfg), ops, [])
  {
  }

  lemma JoinTraced(cfg: TxConfig, ops: seq<Op>, a: seq<Slot>, b: seq<Slot>)
    requires AllTraced(RxConfig(cfg), ops, a) && AllTraced(RxConfig(cfg), ops, b)
    ensures AllTraced(RxConfig(cfg), ops, a + b)
  {
    hide SlotTraced;
  }

  /**
   Over every run of the receive pipeline from its start: in every slot it holds and in every slot it has decoded, each
   position holds nothing, or what a symbol carried by an earlier frame with the same fec_id left there.
   */
  lemma {:induction false} PipelineTraced(cfg: TxConfig, codec: FecWrapper.Codec, es: seq<RxEvent>)
    requires ValidTx(cfg)
    ensures RxOk(cfg, InitialRx(cfg).dil)
    ensures AllTraced(RxConfig(cfg), Carried(cfg, es), RxRun(cfg, codec, InitialRx(cfg), es).dil.slots)
    ensures AllTraced(RxConfig(cfg), Carried(cfg, es), RunDecodes(cfg, codec, InitialRx(cfg), es))
  {
    InitialRxOk(cfg);
    if es == [] {
      assert AllTraced(RxConfig(cfg), [], InitialRx(cfg).dil.slots);
    } else {
      hide AllTraced, RxOk, RxOnce, OnceDecodes, Carried, InitialRx;
      var before, e := es[..|es| - 1], es[|es| - 1];
      assert before + [e] == es;
      PipelineTraced(cfg, codec, before);
      var st, log := RxRun(cfg, codec, InitialRx(cfg), before), RunDecodes(cfg, codec, InitialRx(cfg), before);
      OnceTraced(cfg, codec, st, before, e);
      if op :| Carried(cfg, es) == Carried(cfg, before) + [op] {
        SlotsLater(RxConfig(cfg), Carried(cfg, before), op, log);
      }
      JoinTraced(cfg, Carried(cfg, es), log, OnceDecodes(cfg, codec, st, e.input, e.now));
    }
  }
}
