/** After every call of the receive pipeline no unfinished block is overdue, in the times the pipeline configures. */
module RxAges {
  import opened Types
  import opened DeinterleaverSpec
  import Invariant = DeinterleaverInvariant
  import opened DeinterleaverAges
  import FecWrapper
  import Wire
  import opened TxSpec
  import opened RxSpec

  /** No unfinished block is 50 ms old, and none that has k symbols has been quiet for 2 ms. */
  ghost predicate Young(cfg: TxConfig, dil: State, now: int) {
    forall j :: 0 <= j < |dil.slots| && dil.slots[j].state == Filling ==>
      && Elapsed(dil.slots[j].first, now) < 50_000_000
      && (dil.slots[j].valid >= cfg.k ==> Elapsed(dil.slots[j].last, now) < 2_000_000)
  }

  lemma TickYoung(cfg: TxConfig, dil: State, now: int)
    requires RxOk(cfg, dil)
    ensures Young(cfg, Tick(RxConfig(cfg), dil, -1, now), now)
  {
    TickLeavesYoung(RxConfig(cfg), dil, -1, now);
  }

  lemma FreezeYoung(cfg: TxConfig, dil: State, i: nat, now: int)
    requires ValidTx(cfg) && i < |dil.slots| && dil.slots[i].valid <= cfg.k + cfg.m
    requires forall j :: 0 <= j < |dil.slots| && j != i && dil.slots[j].state == Filling ==>
      && Elapsed(dil.slots[j].first, now) < 50_000_000
      && (dil.slots[j].valid >= cfg.k ==> Elapsed(dil.slots[j].last, now) < 2_000_000)
    ensures Young(cfg, FreezeSlot(RxConfig(cfg), dil, i, AgeLimit(RxConfig(cfg)), now), now)
  {
    FreezeSettles(RxConfig(cfg), dil, i, now);
  }

  lemma StoreYoung(cfg: TxConfig, dil: State, i: nat, sym: Symbol, now: int)
    requires ValidTx(cfg) && i < |dil.slots| && Young(cfg, dil, now) && Acceptable(RxConfig(cfg), sym)
    requires |dil.slots[i].mask| == |dil.slots[i].block.symbols| == cfg.k + cfg.m && dil.slots[i].valid < cfg.k + cfg.m
    ensures Young(cfg, PushInto(RxConfig(cfg), dil, i, sym, now).0, now)
  {
    if !dil.slots[i].mask[sym.fecId] {
      FreezeYoung(cfg, dil.(slots := dil.slots[i := StoreSymbol(dil.slots[i], sym, now)]), i, now);
    }
  }

  lemma OccupyYoung(cfg: TxConfig, dil: State, a: nat, id: uint32, now: int)
    requires RxOk(cfg, dil) && Young(cfg, dil, now) && a < |dil.slots| && FindSlot(dil.slots, id) == |dil.slots|
    ensures Young(cfg, Occupy(RxConfig(cfg), dil, a, id, now), now)
  {
    Invariant.OccupyVacates(RxConfig(cfg), dil, a, id, now);
  }

  lemma PushYoung(cfg: TxConfig, dil: State, sym: Symbol, now: int)
    requires RxOk(cfg, dil) && Young(cfg, dil, now)
    ensures Young(cfg, Push(RxConfig(cfg), dil, sym, now).0, now)
  {
    var c := RxConfig(cfg);
    hide PushInto, Occupy, AllocIndex, Young;
    Unmoved(cfg, dil, dil.stats.(erasure := dil.stats.erasure + 1), now);
    Unmoved(cfg, dil, dil.stats.(frozen := dil.stats.frozen + 1), now);
    if !IsErasure(sym) && Acceptable(c, sym) {
      var i := FindSlot(dil.slots, sym.packetId);
      if i < |dil.slots| {
        if dil.slots[i].state == Filling { StoreYoung(cfg, dil, i, sym, now); }
      } else {
        var a := AllocIndex(dil.slots, now);
        Invariant.AllocAlwaysSucceeds(dil, now);
        Invariant.OccupyVacates(c, dil, a, sym.packetId, now);
        OccupyYoung(cfg, dil, a, sym.packetId, now);
        StoreYoung(cfg, Occupy(c, dil, a, sym.packetId, now), a, sym, now);
      }
    }
  }

  /** Counters do not matter. */
  lemma Unmoved(cfg: TxConfig, dil: State, s: Stats, now: int)
    requires Young(cfg, dil, now)
    ensures Young(cfg, dil.(stats := s), now)
  {
  }

  lemma MarkYoung(cfg: TxConfig, codec: FecWrapper.Codec, st: RxState, i: nat, now: int)
    requires RxOk(cfg, st.dil) && i < |st.dil.slots| && st.dil.slots[i].state == DeinterleaverSpec.Ready
    requires Young(cfg, st.dil, now)
    ensures Young(cfg, HandleBlock(cfg, codec, st, i).dil, now)
  {
    hide FecWrapper.Decode, BlockPackets;
  }

  lemma {:induction false} DrainYoung(cfg: TxConfig, codec: FecWrapper.Codec, st: RxState, now: int)
    requires RxOk(cfg, st.dil) && Young(cfg, st.dil, now)
    ensures Young(cfg, DrainReady(cfg, codec, st).dil, now)
    decreases RxSpec.Ready(st.dil)
  {
    hide HandleBlock, Young, RxOk;
    var i := FirstIn(st.dil.slots, DeinterleaverSpec.Ready, 0);
    if i < |st.dil.slots| {
      MarkYoung(cfg, codec, st, i, now);
      DrainYoung(cfg, codec, HandleBlock(cfg, codec, st, i), now);
    }
  }

  lemma RxParts(cfg: TxConfig, dil: State)
    requires RxOk(cfg, dil)
    ensures ValidConfig(RxConfig(cfg)) && Shaped(RxConfig(cfg), dil.slots)
  {
  }

  lemma PollYoung(cfg: TxConfig, codec: FecWrapper.Codec, st: RxState, input: RxInput, now: int)
    requires RxOk(cfg, st.dil) && !input.Frame?
    ensures Young(cfg, RxOnce(cfg, codec, st, input, now).dil, now)
  {
    RxParts(cfg, st.dil);
    hide Young, RxOk, DrainReady, Tick, Shaped;
    TickFitsAll(cfg, st.dil, -1, now);
    TickYoung(cfg, st.dil, now);
    if input == Nothing { DrainYoung(cfg, codec, st.(dil := Tick(RxConfig(cfg), st.dil, -1, now)), now); }
  }

  lemma FrameYoung(cfg: TxConfig, codec: FecWrapper.Codec, st: RxState, bytes: seq<byte>, now: int)
    requires RxOk(cfg, st.dil)
    ensures Young(cfg, RxOnce(cfg, codec, st, Frame(bytes), now).dil, now)
  {
    RxParts(cfg, st.dil);
    hide Young, RxOk, TakeSymbol, Tick, Shaped, Wire.Parse;
    TickFitsAll(cfg, st.dil, -1, now);
    TickYoung(cfg, st.dil, now);
    var ticked := st.(dil := Tick(RxConfig(cfg), st.dil, -1, now));
    var r := Wire.Parse(bytes, cfg.size, cfg.crcOn);
    if r.Padding? || r.Accepted? {
      TakeYoung(cfg, codec, ticked, r.sym, now);
    } else if r.CrcFailed? {
      Unmoved(cfg, ticked.dil, ticked.dil.stats.(crcFail := ticked.dil.stats.crcFail + 1), now);
    }
  }

  lemma TakeYoung(cfg: TxConfig, codec: FecWrapper.Codec, st: RxState, sym: Symbol, now: int)
    requires RxOk(cfg, st.dil) && Young(cfg, st.dil, now)
    ensures Young(cfg, TakeSymbol(cfg, codec, st, sym, now).dil, now)
  {
    RxParts(cfg, st.dil);
    hide Young, RxOk, DrainReady, Push;
    RxSpec.PushFits(cfg, st.dil, sym, now);
    PushYoung(cfg, st.dil, sym, now);
    DrainYoung(cfg, codec, st.(dil := Push(RxConfig(cfg), st.dil, sym, now).0), now);
  }

  /** Whatever one call receives, at whatever time, it leaves no block overdue. */
  lemma OnceYoung(cfg: TxConfig, codec: FecWrapper.Codec, st: RxState, input: RxInput, now: int)
    requires RxOk(cfg, st.dil)
    ensures Young(cfg, RxOnce(cfg, codec, st, input, now).dil, now)
  {
    hide Young, RxOk, RxOnce;
    if input.Frame? {
      FrameYoung(cfg, codec, st, input.bytes, now);
    } else {
      PollYoung(cfg, codec, st, input, now);
    }
  }
}
