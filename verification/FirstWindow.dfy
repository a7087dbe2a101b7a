/** Losses in the first window after the receiver starts: where they fell decides which packets reach the far LAN. */
module FirstWindow {
  import opened Types
  import FecWrapper
  import opened InterleaverWindows
  import opened DeinterleaverSpec
  import opened DeinterleaverMap
  import Invariant = DeinterleaverInvariant
  import opened WindowRecovery
  import opened TxSpec
  import opened TxHistory
  import opened RxSpec
  import opened EndToEnd
  import opened LossDecoding

  // ---------------------------------------------------------------------------
  // Slots that were never used before
  // ---------------------------------------------------------------------------

  ghost predicate Blank(s: Slot) {
    |s.mask| == |s.block.symbols| && forall f :: 0 <= f < |s.mask| && !s.mask[f] ==> s.block.symbols[f].len == 0
  }

  ghost predicate AllBlank(slots: seq<Slot>) {
    forall i :: 0 <= i < |slots| ==> Blank(slots[i])
  }

  /** No active slot was opened before t0. */
  ghost predicate Since(slots: seq<Slot>, t0: int) {
    forall i :: 0 <= i < |slots| && slots[i].state != Empty ==> t0 <= slots[i].first
  }

  lemma SinceGathered(c: Config, slots: seq<Slot>, first: map<(uint32, uint32), Symbol>, t0: int)
    requires Unique(slots) && Gathered(c, Blocks(slots), first, t0)
    ensures Since(slots, t0)
  {
    hide Blocks;
    forall i | 0 <= i < |slots| && slots[i].state != Empty ensures t0 <= slots[i].first {
      BlockAt(slots, i);
    }
  }

  /** Storing a symbol within the quiet period recycles nothing. */
  lemma StoreBlank(c: Config, st: State, i: nat, sym: Symbol, now: int, t0: int)
    requires ValidConfig(c) && c.stab > 0 && i < |st.slots| && AllBlank(st.slots)
    requires (SlotOk(c, st.slots[i]) && st.slots[i].state == Filling) || Invariant.Vacant(c, st.slots[i])
    requires st.slots[i].id == sym.packetId && Acceptable(c, sym) && !IsErasure(sym)
    requires t0 <= st.slots[i].first && t0 <= now && now - t0 < AgeLimit(c)
    ensures AllBlank(PushInto(c, st, i, sym, now).0.slots)
  {
    if !st.slots[i].mask[sym.fecId] {
      Invariant.StoreOk(c, st.slots[i], sym, now);
      hide Invariant.Vacant, SlotOk, Stored, FreezeRule;
      var s := StoreSymbol(st.slots[i], sym, now);
      assert Blank(s);
      NoFreeze(c, s.valid, s.first, s.last, now, t0);
    }
  }

  lemma OccupyBlank(c: Config, st: State, a: nat, id: uint32, now: int)
    requires a < |st.slots| && AllBlank(st.slots) && st.slots[a].state == Empty && SlotOk(c, st.slots[a])
    ensures AllBlank(Occupy(c, st, a, id, now).slots)
  {
    hide CountMarks;
  }

  lemma PushBlank(c: Config, st: State, sym: Symbol, now: int, t0: int)
    requires ValidConfig(c) && c.stab > 0 && Inv(c, st) && AllBlank(st.slots) && Since(st.slots, t0)
    requires !IsErasure(sym) && Acceptable(c, sym) && t0 <= now && now - t0 < AgeLimit(c)
    requires sym.packetId in Blocks(st.slots) || |Blocks(st.slots)| < c.slots
    ensures AllBlank(Push(c, st, sym, now).0.slots)
  {
    hide AllBlank, Occupy, PushInto, AllocIndex, SlotOk, Blocks, Invariant.Vacant;
    SlotSized(c, st);
    var i := FindSlot(st.slots, sym.packetId);
    BlockOf(st.slots, sym.packetId);
    if i < |st.slots| {
      if st.slots[i].state == Filling { StoreBlank(c, st, i, sym, now, t0); }
    } else {
      var a := AllocIndex(st.slots, now);
      FreeSlot(st.slots);
      Invariant.AllocAlwaysSucceeds(st, now);
      Invariant.OccupyVacates(c, st, a, sym.packetId, now);
      OccupyBlank(c, st, a, sym.packetId, now);
      StoreBlank(c, Occupy(c, st, a, sym.packetId, now), a, sym, now, t0);
    }
  }

  lemma SlotSized(c: Config, st: State)
    requires Inv(c, st)
    ensures Shaped(c, st.slots)
  {
  }

  /** Receiving a window in time recycles no slot, so blank slots stay blank. */
  lemma {:induction false} ReceiveBlank(c: Config, st: State, ps: seq<Arrival>, t0: int)
    requires ValidConfig(c) && Inv(c, st) && c.stab > 0 && Blocks(st.slots) == map[] && AllBlank(st.slots)
    requires InTime(c, ps, t0) && |Keys(Solid(ps))| <= c.slots
    ensures AllBlank(Receive(c, st, ps).slots)
  {
    hide AllBlank, CellsOf, Push, Deliver, Blocks, First, Keys, Since, Gathered;
    if ps != [] {
      var before, p := ps[..|ps| - 1], ps[|ps| - 1];
      SolidStep(ps);
      KeysGrow(ps);
      ReceiveBlank(c, st, before, t0);
      ReceiveTheorem(c, st, before, t0);
      var mid := Receive(c, st, before);
      if IsErasure(p.sym) {
        ErasureIgnored(c, mid, p.sym, p.now);
      } else {
        SinceGathered(c, mid.slots, First(Solid(before)), t0);
        RoomLeft(c, ps, Blocks(mid.slots));
        PushBlank(c, mid, p.sym, p.now, t0);
      }
    }
  }

  lemma KeysGrow(ps: seq<Arrival>)
    requires ps != []
    ensures |Keys(Solid(ps[..|ps| - 1]))| <= |Keys(Solid(ps))|
  {
    SolidStep(ps);
  }

  lemma RoomLeft(c: Config, ps: seq<Arrival>, m: map<uint32, Received>)
    requires ps != [] && !IsErasure(ps[|ps| - 1].sym) && |Keys(Solid(ps))| <= c.slots
    requires NamesExactly(Keys(Solid(ps[..|ps| - 1])), m)
    ensures ps[|ps| - 1].sym.packetId in m || |m| < c.slots
  {
    SolidStep(ps);
    hide Keys;
  }

  /** A tick leaves the blocks it keeps as blank as they were. */
  lemma TickBlank(c: Config, st: State, now: int)
    requires ValidConfig(c) && Inv(c, st) && AllBlank(st.slots)
    ensures forall i :: 0 <= i < |st.slots| && Tick(c, st, -1, now).slots[i].state != Empty ==>
      Blank(Tick(c, st, -1, now).slots[i])
  {
    hide Tick, Inv, FreezeRule, Blank;
    Invariant.TickKeeps(c, st, -1, now);
    forall i | 0 <= i < |st.slots| && Tick(c, st, -1, now).slots[i].state != Empty
      ensures Blank(Tick(c, st, -1, now).slots[i])
    {
      FreezeBlank(c, st, i, AgeLimit(c), now);
    }
  }

  lemma FreezeBlank(c: Config, st: State, i: nat, timeout: int, now: int)
    requires ValidConfig(c) && i < |st.slots| && Blank(st.slots[i])
    ensures var s := FreezeSlot(c, st, i, timeout, now).slots[i]; s.state != Empty ==> Blank(s)
  {
    hide FreezeRule;
  }

  lemma {:induction false} ReceiveFits(cfg: TxConfig, st: State, ps: seq<Arrival>)
    requires RxOk(cfg, st) && ValidConfig(RxConfig(cfg))
    ensures RxOk(cfg, Receive(RxConfig(cfg), st, ps))
  {
    hide Push, CellsFit;
    if ps != [] {
      ReceiveFits(cfg, st, ps[..|ps| - 1]);
      RxSpec.PushFits(cfg, Receive(RxConfig(cfg), st, ps[..|ps| - 1]), ps[|ps| - 1].sym, ps[|ps| - 1].now);
    }
  }

  // ---------------------------------------------------------------------------
  // The theorem
  // ---------------------------------------------------------------------------

  /** A receiver that has just started: valid, empty, nothing stored yet. */
  lemma StartsBlank(cfg: TxConfig)
    requires ValidTx(cfg)
    ensures AllBlank(InitialRx(cfg).dil.slots) && RxOk(cfg, InitialRx(cfg).dil)
  {
    InitialRxOk(cfg);
  }

  /** After the first window every slot still in use is blank where nothing arrived, and its lengths are in range. */
  lemma FirstBlank(cfg: TxConfig, codec: FecWrapper.Codec, bs: seq<Sealed>, lost: set<int>, ps: seq<Arrival>,
                   t0: int, now: int)
    requires HitBy(cfg, codec, bs, lost, InitialRx(cfg).dil, ps, t0)
    ensures var slots := AfterTick(cfg, InitialRx(cfg).dil, ps, now).slots;
      CellsFit(cfg, slots) && forall i :: 0 <= i < |slots| && slots[i].state != Empty ==> Blank(slots[i])
  {
    hide SentRows, Drained, Tick, Blank, AllBlank, Transmittable, Survived, InTime, Blocks, CellsFit, DistinctIds,
      AllSealed, InitialRx, Keys;
    var c, st := RxConfig(cfg), InitialRx(cfg).dil;
    StartsBlank(cfg);
    SentTransmittable(cfg, codec, bs);
    SolidKeysBound(TxGeometry(cfg), c, SentRows(cfg, codec, bs), lost, ps);
    ReceiveBlank(c, st, ps, t0);
    TickBlank(c, Receive(c, st, ps), now);
    ReceiveFits(cfg, st, ps);
    TickFitsAll(cfg, Receive(c, st, ps), -1, now);
  }

  /**
   Losses in the first window that leave row r at most m columns short: the packets of the block in row r all reach
   the far LAN exactly when no position of the row that carries a fragment was lost.
   */
  lemma FirstLoss(cfg: TxConfig, codec: FecWrapper.Codec, bs: seq<Sealed>, lost: set<int>, ps: seq<Arrival>,
                   t0: int, now: int, r: nat) returns (i: nat)
    requires FecWrapper.Ideal(codec, cfg.k, cfg.k + cfg.m, cfg.size)
    requires HitBy(cfg, codec, bs, lost, InitialRx(cfg).dil, ps, t0) && r < |bs| && Short(bs[r].packets)
    requires |Columns(TxGeometry(cfg), r, lost)| <= cfg.m && now >= t0 + 2 * STABILIZATION
    ensures var slots := AfterTick(cfg, InitialRx(cfg).dil, ps, now).slots;
      && i < |slots| && slots[i].state == DeinterleaverSpec.Ready && slots[i].id == bs[r].id
      && |slots[i].block.symbols| == cfg.k + cfg.m && SymbolsFit(cfg, slots[i].block.symbols)
      && SealedOk(cfg, bs[r])
      && (BlockPackets(cfg, codec, slots[i].block.symbols) == bs[r].packets
          <==> forall f :: 0 <= f < cfg.k && CarriesFragment(cfg, bs[r], f) ==>
                 f * cfg.depth + r !in lost)
  {
    hide AfterTick, HitBy, FecWrapper.Ideal, BlockPackets, CarriesFragment, SealedOk, SlotOk, InitialRx, SymbolsOf, Columns,
      FecWrapper.Decode, SourceOfBlock, RxOk;
    FirstWindowOpen(cfg, codec, bs, lost, ps, t0);
    i := LossDecodes(cfg, codec, bs, lost, InitialRx(cfg).dil, ps, t0, now, r);
    FirstBlank(cfg, codec, bs, lost, ps, t0, now);
    var s := AfterTick(cfg, InitialRx(cfg).dil, ps, now).slots[i];
    assert Blank(s) && SlotFits(cfg, s);
    PacketsNeedFragments(cfg, codec, s, bs[r]);
  }

  lemma FirstWindowOpen(cfg: TxConfig, codec: FecWrapper.Codec, bs: seq<Sealed>, lost: set<int>, ps: seq<Arrival>, t0: int)
    requires HitBy(cfg, codec, bs, lost, InitialRx(cfg).dil, ps, t0)
    ensures ValidTx(cfg) && ValidConfig(RxConfig(cfg)) && Inv(RxConfig(cfg), InitialRx(cfg).dil)
  {
  }
}
