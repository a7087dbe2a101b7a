/** Which packets of a block get through losses, in any window and whatever earlier blocks left in the slot. */
module LossPackets {
  import opened Types
  import opened Fragmentation
  import FecWrapper
  import opened InterleaverWindows
  import opened DeinterleaverSpec
  import Invariant = DeinterleaverInvariant
  import opened DeinterleaverRuns
  import opened WindowRecovery
  import opened TxSpec
  import opened TxHistory
  import opened RxGrouping
  import opened RxSpec
  import opened EndToEnd
  import opened LossDecoding
  import opened RxIntegrity
  import opened RxConditions
  import FirstWindow
  import RxLosses

  // ---------------------------------------------------------------------------
  // What positions that were not received hold
  // ---------------------------------------------------------------------------

  /** The cell at position f was never written, or is a symbol pushed earlier with that fec_id, its packet_id perhaps cleared. */
  ghost predicate Traced(c: Config, ops: seq<Op>, f: nat, cell: Symbol) {
    cell == Symbol(0, 0, 0, 0, 0, 0, []) || exists i :: Left(c, ops, i, f, cell)
  }

  ghost predicate Left(c: Config, ops: seq<Op>, i: nat, f: nat, cell: Symbol) {
    && i < |ops| && ops[i].PushOp? && !IsErasure(ops[i].sym) && Acceptable(c, ops[i].sym)
    && ops[i].sym.fecId == f && cell.(packetId := 0) == ops[i].sym.(packetId := 0)
  }

  ghost predicate SlotTraced(c: Config, ops: seq<Op>, s: Slot) {
    forall f :: 0 <= f < |s.block.symbols| ==> Traced(c, ops, f, s.block.symbols[f])
  }

  ghost predicate AllTraced(c: Config, ops: seq<Op>, slots: seq<Slot>) {
    forall i :: 0 <= i < |slots| ==> SlotTraced(c, ops, slots[i])
  }

  lemma TracedLater(c: Config, ops: seq<Op>, op: Op, f: nat, cell: Symbol)
    requires Traced(c, ops, f, cell)
    ensures Traced(c, ops + [op], f, cell)
  {
    if i :| Left(c, ops, i, f, cell) { assert Left(c, ops + [op], i, f, cell); }
  }

  lemma SlotsLater(c: Config, ops: seq<Op>, op: Op, slots: seq<Slot>)
    requires AllTraced(c, ops, slots)
    ensures AllTraced(c, ops + [op], slots)
  {
    hide Traced;
    forall i, f | 0 <= i < |slots| && 0 <= f < |slots[i].block.symbols|
      ensures Traced(c, ops + [op], f, slots[i].block.symbols[f])
    {
      TracedLater(c, ops, op, f, slots[i].block.symbols[f]);
    }
  }

  lemma FreezeTraced(c: Config, ops: seq<Op>, st: State, i: nat, timeout: int, now: int)
    requires ValidConfig(c) && i < |st.slots| && AllTraced(c, ops, st.slots)
    ensures AllTraced(c, ops, FreezeSlot(c, st, i, timeout, now).slots)
  {
    hide Traced, FreezeRule;
  }

  lemma OccupyTraced(c: Config, ops: seq<Op>, st: State, i: nat, id: uint32, now: int)
    requires i < |st.slots| && AllTraced(c, ops, st.slots)
    ensures AllTraced(c, ops, Occupy(c, st, i, id, now).slots)
  {
    var s, s' := st.slots[i], Occupy(c, st, i, id, now).slots[i];
    forall f | 0 <= f < |s'.block.symbols| ensures Traced(c, ops, f, s'.block.symbols[f]) {
      assert s'.block.symbols[f] == s.block.symbols[f].(packetId := 0);
      if x :| Left(c, ops, x, f, s.block.symbols[f]) { assert Left(c, ops, x, f, s'.block.symbols[f]); }
    }
    hide Traced;
  }

  lemma StoreTraced(c: Config, ops: seq<Op>, st: State, i: nat, sym: Symbol, now: int)
    requires ValidConfig(c) && i < |st.slots| && AllTraced(c, ops, st.slots) && !IsErasure(sym) && Acceptable(c, sym)
    requires |st.slots[i].mask| == |st.slots[i].block.symbols| == c.n
    requires ops != [] && ops[|ops| - 1] == PushOp(sym, now)
    ensures AllTraced(c, ops, PushInto(c, st, i, sym, now).0.slots)
  {
    if !st.slots[i].mask[sym.fecId] {
      assert Left(c, ops, |ops| - 1, sym.fecId, sym);
      hide Traced, FreezeSlot;
      var stored := st.(slots := st.slots[i := StoreSymbol(st.slots[i], sym, now)]);
      assert SlotTraced(c, ops, stored.slots[i]) by {
        forall f | 0 <= f < c.n ensures Traced(c, ops, f, stored.slots[i].block.symbols[f]) {
          if f != sym.fecId { assert SlotTraced(c, ops, st.slots[i]); }
        }
      }
      FreezeTraced(c, ops, stored, i, AgeLimit(c), now);
    }
  }

  lemma {:induction false} TickTraced(c: Config, ops: seq<Op>, st: State, limit: int, now: int, i: nat)
    requires ValidConfig(c) && i <= |st.slots| && AllTraced(c, ops, st.slots)
    ensures AllTraced(c, ops, TickUpTo(c, st, limit, now, i).slots)
  {
    hide AllTraced, FreezeSlot;
    if i > 0 {
      TickTraced(c, ops, st, limit, now, i - 1);
      FreezeTraced(c, ops, TickUpTo(c, st, limit, now, i - 1), i - 1, limit, now);
    }
  }

  lemma PushTraced(c: Config, ops: seq<Op>, st: State, sym: Symbol, now: int)
    requires ValidConfig(c) && Inv(c, st) && AllTraced(c, ops, st.slots) && ops != [] && ops[|ops| - 1] == PushOp(sym, now)
    ensures AllTraced(c, ops, Push(c, st, sym, now).0.slots)
  {
    FirstWindow.SlotSized(c, st);
    hide AllTraced, Occupy, PushInto, AllocIndex, SlotOk, Invariant.Vacant;
    if !IsErasure(sym) && Acceptable(c, sym) {
      var i := FindSlot(st.slots, sym.packetId);
      if i < |st.slots| {
        if st.slots[i].state == Filling { StoreTraced(c, ops, st, i, sym, now); }
      } else {
        var a := AllocIndex(st.slots, now);
        if a < |st.slots| {
          OccupyTraced(c, ops, st, a, sym.packetId, now);
          OccupySized(c, st, a, sym.packetId, now);
          StoreTraced(c, ops, Occupy(c, st, a, sym.packetId, now), a, sym, now);
        }
      }
    }
  }

  lemma OccupySized(c: Config, st: State, a: nat, id: uint32, now: int)
    requires a < |st.slots| && |st.slots[a].mask| == |st.slots[a].block.symbols| == c.n
    ensures var s := Occupy(c, st, a, id, now).slots[a]; |s.mask| == |s.block.symbols| == c.n
  {
  }

  lemma MarkTraced(c: Config, ops: seq<Op>, st: State, id: uint32, success: bool)
    requires AllTraced(c, ops, st.slots)
    ensures AllTraced(c, ops, Mark(st, id, success).0.slots)
  {
    hide Traced;
  }

  /**
   Over every run: a position of an active block that was not received has packet_id 0 and holds either
   nothing or what a symbol pushed earlier with the same fec_id left there, its length within the symbol size.
   */
  lemma {:induction false} RunTraced(c: Config, ops: seq<Op>)
    requires ValidConfig(c)
    ensures AllTraced(c, ops, Run(c, ops).slots)
  {
    if ops == [] {
      assert AllTraced(c, [], InitState(c).slots);
    } else {
      var before, op := ops[..|ops| - 1], ops[|ops| - 1];
      RunTraced(c, before);
      assert before + [op] == ops;
      hide AllTraced, Push, Tick, Mark;
      var st := Run(c, before);
      SlotsLater(c, before, op, st.slots);
      match op
      case PushOp(sym, now) => PushTraced(c, ops, st, sym, now);
      case TickOp(override, now) => TickAllTraced(c, ops, st, override, now);
      case MarkOp(id, success) => MarkTraced(c, ops, st, id, success);
      case CrcDropOp =>
    }
  }

  lemma TickAllTraced(c: Config, ops: seq<Op>, st: State, override: int, now: int)
    requires ValidConfig(c) && AllTraced(c, ops, st.slots)
    ensures AllTraced(c, ops, Tick(c, st, override, now).slots)
  {
    hide AllTraced;
    TickTraced(c, ops, st, TickLimit(c, override), now, |st.slots|);
  }

  lemma UnreceivedCells(c: Config, ops: seq<Op>, i: nat, f: nat)
    requires ValidConfig(c) && i < c.slots && f < c.n
    requires |Run(c, ops).slots| == c.slots && |Run(c, ops).slots[i].mask| == |Run(c, ops).slots[i].block.symbols| == c.n
    requires Run(c, ops).slots[i].state != Empty && !Run(c, ops).slots[i].mask[f]
    ensures var cell := Run(c, ops).slots[i].block.symbols[f];
      && cell.packetId == 0 && cell.len <= c.size
      && (cell == Symbol(0, 0, 0, 0, 0, 0, []) || (cell.fecId == f && exists x :: Left(c, ops, x, f, cell)))
  {
    hide Run;
    RunTraced(c, ops);
    var s := Run(c, ops).slots[i];
    assert SlotOk(c, s) && SlotTraced(c, ops, s);
    var cell := s.block.symbols[f];
    assert Traced(c, ops, f, cell);
    if x: nat :| Left(c, ops, x, f, cell) {
      assert cell.(packetId := 0).fecId == ops[x].sym.(packetId := 0).fecId;
    }
  }

  // ---------------------------------------------------------------------------
  // A ready slot
  // ---------------------------------------------------------------------------

  /** A slot that holds part of a block is a damaged block: stale cells carry packet_id 0. */
  lemma PartIsDamaged(cfg: TxConfig, codec: FecWrapper.Codec, s: Slot, b: Sealed)
    requires SealedOk(cfg, b) && Short(b.packets) && HoldsPart(cfg, codec, s, b) && SymbolsFit(cfg, s.block.symbols)
    ensures |s.block.symbols| == |s.mask| == cfg.k + cfg.m
    ensures Damaged(cfg, b.packets, s.block.symbols, SourceOfBlock(cfg, b), b.id)
    ensures forall f :: 0 <= f < cfg.k + cfg.m ==> (s.mask[f] <==> s.block.symbols[f].packetId != 0)
  {
    hide SymbolsOf, SourcePlan, Layout, SourceBytes, OneBlock, SourceOfBlock;
    forall f | 0 <= f < cfg.k + cfg.m ensures s.mask[f] <==> s.block.symbols[f].packetId != 0 {
      assert s.mask[f] ==> s.block.symbols[f].packetId == s.id;
    }
    forall i | 0 <= i < cfg.k && s.block.symbols[i].packetId != 0
      ensures s.block.symbols[i].packetId == b.id && Matches(s.block.symbols[i], SourcePlan(cfg, b.packets)[i], cfg.k)
    {
      SourceSymbol(cfg, codec, b, i);
    }
    PlanIsSources(cfg, b);
  }

  /** What is sent from the slot is what the grouping loop makes of the block's source bytes. */
  lemma PartSends(cfg: TxConfig, codec: FecWrapper.Codec, s: Slot, b: Sealed)
    requires SealedOk(cfg, b) && Short(b.packets) && HoldsPart(cfg, codec, s, b) && SymbolsFit(cfg, s.block.symbols)
    requires FecWrapper.Ideal(codec, cfg.k, cfg.k + cfg.m, cfg.size)
    ensures |s.block.symbols| == cfg.k + cfg.m
    ensures Scannable(cfg.k, cfg.size, s.block.symbols, SourceOfBlock(cfg, b))
    ensures BlockPackets(cfg, codec, s.block.symbols)
         == Sent(Groups(cfg.k, cfg.size, s.block.symbols, SourceOfBlock(cfg, b)))
  {
    hide SymbolsOf, SourceOfBlock, FecWrapper.Decode, FecWrapper.Ideal, HoldsPart, Groups, Sent;
    PartIsDamaged(cfg, codec, s, b);
    PartDecodes(cfg, codec, s, b);
  }

  /**
   A ready slot, whatever it held before: every packet whose fragments were all received is sent, in order, and
   nothing else exactly when the stored metadata makes no other group that reassembly accepts.
   */
  lemma SlotPackets(cfg: TxConfig, codec: FecWrapper.Codec, s: Slot, b: Sealed)
    requires SealedOk(cfg, b) && Short(b.packets) && HoldsPart(cfg, codec, s, b) && SymbolsFit(cfg, s.block.symbols)
    requires FecWrapper.Ideal(codec, cfg.k, cfg.k + cfg.m, cfg.size)
    ensures |s.block.symbols| == cfg.k + cfg.m && cfg.k < MAX_SYMBOLS_PER_BLOCK
    ensures var sent, whole := BlockPackets(cfg, codec, s.block.symbols), Survivors(cfg, b.packets, s.block.symbols, |b.packets|);
      Subsequence(whole, sent) && (sent == whole <==> Unmixed(cfg.k, s.block.symbols))
  {
    hide SymbolsOf, SourceOfBlock, FecWrapper.Decode, FecWrapper.Ideal, HoldsPart, Groups, Sent, Damaged, Survivors, Unmixed,
      Subsequence, BlockPackets;
    PartIsDamaged(cfg, codec, s, b);
    PartSends(cfg, codec, s, b);
    SurvivorsIff(cfg, b.packets, s.block.symbols, SourceOfBlock(cfg, b), b.id);
  }

  /**
   A ready slot that received every fragment, whatever it held before: its packets are what is sent exactly when
   what earlier blocks left at lost padding positions makes no group that reassembly accepts.
   */
  lemma SlotPadding(cfg: TxConfig, codec: FecWrapper.Codec, s: Slot, b: Sealed)
    requires SealedOk(cfg, b) && Short(b.packets) && HoldsPart(cfg, codec, s, b) && SymbolsFit(cfg, s.block.symbols)
    requires FecWrapper.Ideal(codec, cfg.k, cfg.k + cfg.m, cfg.size)
    requires AllArrived(cfg, b.packets, s.block.symbols)
    ensures |s.block.symbols| == cfg.k + cfg.m && cfg.k < MAX_SYMBOLS_PER_BLOCK
    ensures BlockPackets(cfg, codec, s.block.symbols) == b.packets
            <==> StaleRefused(cfg.k, s.block.symbols, |Layout(cfg, b.packets)|)
  {
    hide SymbolsOf, SourceOfBlock, FecWrapper.Decode, FecWrapper.Ideal, HoldsPart, Groups, Sent, Damaged, Survivors, StaleRefused,
      AllArrived, BlockPackets;
    PartIsDamaged(cfg, codec, s, b);
    PartSends(cfg, codec, s, b);
    StalePadding(cfg, b.packets, s.block.symbols, SourceOfBlock(cfg, b), b.id);
  }

  // ---------------------------------------------------------------------------
  // A window
  // ---------------------------------------------------------------------------

  /** Row r's packet q lost nothing. */
  ghost predicate Untouched(cfg: TxConfig, b: Sealed, q: nat, r: nat, lost: set<int>)
    requires SealedOk(cfg, b) && q < |b.packets|
  {
    forall f :: StartOf(cfg, b.packets, q) <= f < StartOf(cfg, b.packets, q) + Count(|b.packets[q]|, cfg.size) ==>
      f * cfg.depth + r !in lost
  }

  /** The packets of a block that lost nothing. */
  ghost function UntouchedPackets(cfg: TxConfig, b: Sealed, q: nat, r: nat, lost: set<int>): seq<PacketBytes>
    requires SealedOk(cfg, b) && q <= |b.packets|
  {
    if q == 0 then []
    else UntouchedPackets(cfg, b, q - 1, r, lost) + if Untouched(cfg, b, q - 1, r, lost) then [b.packets[q - 1]] else []
  }

  lemma UntouchedArrives(cfg: TxConfig, codec: FecWrapper.Codec, s: Slot, b: Sealed, q: nat, r: nat, lost: set<int>)
    requires SealedOk(cfg, b) && q < |b.packets| && |s.block.symbols| == |s.mask| == cfg.k + cfg.m
    requires SparedOnly(cfg, s, r, lost)
    requires forall f :: 0 <= f < cfg.k + cfg.m ==> (s.mask[f] <==> s.block.symbols[f].packetId != 0)
    ensures Arrived(cfg, b.packets, s.block.symbols, q) <==> Untouched(cfg, b, q, r, lost)
  {
    NextStart(cfg, b.packets, q);
    RxLosses.LayoutBound(cfg, b.packets);
    hide Layout, StartOf, Count, OneBlock;
    forall f | StartOf(cfg, b.packets, q) <= f < StartOf(cfg, b.packets, q) + Count(|b.packets[q]|, cfg.size)
      ensures s.block.symbols[f].packetId != 0 <==> f * cfg.depth + r !in lost
    {
      assert s.mask[f] <==> f * cfg.depth + r !in lost;
    }
    if Arrived(cfg, b.packets, s.block.symbols, q) {
      forall f | StartOf(cfg, b.packets, q) <= f < StartOf(cfg, b.packets, q) + Count(|b.packets[q]|, cfg.size)
        ensures f * cfg.depth + r !in lost
      {
        assert s.block.symbols[f].packetId != 0;
      }
    }
  }

  lemma {:induction false} UntouchedSurvive(cfg: TxConfig, codec: FecWrapper.Codec, s: Slot, b: Sealed, q: nat, r: nat, lost: set<int>)
    requires SealedOk(cfg, b) && q <= |b.packets| && |s.block.symbols| == |s.mask| == cfg.k + cfg.m
    requires SparedOnly(cfg, s, r, lost)
    requires forall f :: 0 <= f < cfg.k + cfg.m ==> (s.mask[f] <==> s.block.symbols[f].packetId != 0)
    ensures Survivors(cfg, b.packets, s.block.symbols, q) == UntouchedPackets(cfg, b, q, r, lost)
  {
    hide Packed, Arrived, Untouched, SparedOnly;
    if q > 0 {
      UntouchedSurvive(cfg, codec, s, b, q - 1, r, lost);
      UntouchedArrives(cfg, codec, s, b, q - 1, r, lost);
    }
  }

  /**
   Losses in any window that arrives at an idle receiver, whatever its slots held before, such as a burst of at
   most m * depth symbols: of a block whose row lost at most m columns every packet that lost nothing is sent, in
   order, and nothing else exactly when the stored metadata makes no other group that reassembly accepts.
   */
  lemma LossSends(cfg: TxConfig, codec: FecWrapper.Codec, bs: seq<Sealed>, lost: set<int>,
                   st: State, ps: seq<Arrival>, t0: int, now: int, r: nat) returns (i: nat)
    requires FecWrapper.Ideal(codec, cfg.k, cfg.k + cfg.m, cfg.size)
    requires RxOk(cfg, st) && HitBy(cfg, codec, bs, lost, st, ps, t0) && r < |bs| && Short(bs[r].packets)
    requires |Columns(TxGeometry(cfg), r, lost)| <= cfg.m && now >= t0 + 2 * STABILIZATION
    ensures SealedOk(cfg, bs[r]) && cfg.k < MAX_SYMBOLS_PER_BLOCK
    ensures var slots := AfterTick(cfg, st, ps, now).slots;
      && i < |slots| && slots[i].state == DeinterleaverSpec.Ready && slots[i].id == bs[r].id
      && |slots[i].block.symbols| == cfg.k + cfg.m && SymbolsFit(cfg, slots[i].block.symbols)
    ensures var symbols := AfterTick(cfg, st, ps, now).slots[i].block.symbols;
      var sent, whole := BlockPackets(cfg, codec, symbols), UntouchedPackets(cfg, bs[r], |bs[r].packets|, r, lost);
      Subsequence(whole, sent) && (sent == whole <==> Unmixed(cfg.k, symbols))
  {
    hide AfterTick, HitBy, FecWrapper.Ideal, BlockPackets, SealedOk, SlotOk, SymbolsOf, UntouchedPackets, Survivors, Unmixed,
      Subsequence, RxOk, SparedOnly;
    HitOpen(cfg, codec, bs, lost, st, ps, t0);
    i := LossDecodes(cfg, codec, bs, lost, st, ps, t0, now, r);
    AfterFits(cfg, st, ps, now);
    var s := AfterTick(cfg, st, ps, now).slots[i];
    assert SlotFits(cfg, s);
    PartIsDamaged(cfg, codec, s, bs[r]);
    UntouchedSurvive(cfg, codec, s, bs[r], |bs[r].packets|, r, lost);
    SlotPackets(cfg, codec, s, bs[r]);
  }

  lemma HitOpen(cfg: TxConfig, codec: FecWrapper.Codec, bs: seq<Sealed>, lost: set<int>, st: State, ps: seq<Arrival>, t0: int)
    requires HitBy(cfg, codec, bs, lost, st, ps, t0)
    ensures ValidTx(cfg) && ValidConfig(RxConfig(cfg)) && Inv(RxConfig(cfg), st)
  {
  }

  lemma AfterFits(cfg: TxConfig, st: State, ps: seq<Arrival>, now: int)
    requires RxOk(cfg, st) && ValidConfig(RxConfig(cfg))
    ensures CellsFit(cfg, AfterTick(cfg, st, ps, now).slots)
  {
    hide CellsFit, Tick, Receive;
    FirstWindow.ReceiveFits(cfg, st, ps);
    TickFitsAll(cfg, Receive(RxConfig(cfg), st, ps), -1, now);
  }
}
