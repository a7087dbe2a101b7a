/** What losses on the wire do: every block that keeps k symbols still decodes, and its packets need their own fragments. */
module LossDecoding {
  import FecWrapper
  import Interleaving
  import ReadyBlocks
  import opened InterleaverWindows
  import opened DeinterleaverSpec
  import opened DeinterleaverMap
  import Invariant = DeinterleaverInvariant
  import opened WindowRecovery
  import opened TxSpec
  import opened TxHistory
  import opened RxGrouping
  import opened RxLosses
  import opened RxSpec
  import opened EndToEnd

  /** The slot holds some of block b's symbols, at their own positions. */
  ghost predicate HoldsPart(cfg: TxConfig, codec: FecWrapper.Codec, s: Slot, b: Sealed)
    requires SealedOk(cfg, b)
  {
    && SlotOk(RxConfig(cfg), s) && s.state == DeinterleaverSpec.Ready && s.id == b.id
    && forall f :: 0 <= f < cfg.k + cfg.m && s.mask[f] ==> s.block.symbols[f] == SymbolsOf(cfg, codec, b)[f]
  }

  /** Any k symbols of a block decode to its source bytes. */
  lemma PartDecodes(cfg: TxConfig, codec: FecWrapper.Codec, s: Slot, b: Sealed)
    requires SealedOk(cfg, b) && HoldsPart(cfg, codec, s, b)
    requires FecWrapper.Ideal(codec, cfg.k, cfg.k + cfg.m, cfg.size)
    ensures FecWrapper.Decode(codec, cfg.k, s.block.symbols) == FecWrapper.Ok(SourceOfBlock(cfg, b))
  {
    hide SymbolsOf, SourceOfBlock, FecWrapper.Decode;
    var src := SourceOfBlock(cfg, b);
    forall f | 0 <= f < cfg.k + cfg.m && s.mask[f] ensures s.block.symbols[f].data == codec.encode(src, f) {
      SymbolsEncode(cfg, codec, b, f);
    }
    hide FecWrapper.Ideal;
    ReadyBlocks.ReadyDecodes(RxConfig(cfg), s, codec, src);
  }

  /** The slot received exactly the positions of row r that were not lost. */
  ghost predicate SparedOnly(cfg: TxConfig, s: Slot, r: nat, lost: set<int>) {
    |s.mask| == cfg.k + cfg.m
    && forall f :: 0 <= f < cfg.k + cfg.m ==> (s.mask[f] <==> f * cfg.depth + r !in lost)
  }

  /** Where a transmitted row's surviving cells end up is a slot that holds part of its block. */
  lemma SparedIsPart(cfg: TxConfig, codec: FecWrapper.Codec, bs: seq<Sealed>, dil: State, r: nat, lost: set<int>)
    returns (i: nat)
    requires Sendable(cfg, bs) && r < |bs| && Inv(RxConfig(cfg), dil)
    requires forall f :: 0 <= f < cfg.k + cfg.m ==> f in SentRows(cfg, codec, bs)[r].cells
    requires var m := Blocks(dil.slots);
      && bs[r].id in m && m[bs[r].id].ready
      && m[bs[r].id].symbols == Spared(TxGeometry(cfg), SentRows(cfg, codec, bs)[r], r, lost)
    ensures i < |dil.slots| && HoldsPart(cfg, codec, dil.slots[i], bs[r])
    ensures SparedOnly(cfg, dil.slots[i], r, lost)
  {
    hide SymbolsOf, SentRows, SealedOk, SlotOk, Marked, Spared;
    i := FindSlot(dil.slots, bs[r].id);
    EntryOf(dil.slots, bs[r].id);
    BlockAt(dil.slots, i);
    var s := dil.slots[i];
    assert SlotOk(RxConfig(cfg), s);
    MaskSize(RxConfig(cfg), s);
    forall f | 0 <= f < cfg.k + cfg.m
      ensures s.mask[f] ==> s.block.symbols[f] == SymbolsOf(cfg, codec, bs[r])[f]
      ensures s.mask[f] <==> f * cfg.depth + r !in lost
    {
      SparedCell(TxGeometry(cfg), SentRows(cfg, codec, bs)[r], r, lost, s, f);
      SentCell(cfg, codec, bs, r, f);
    }
  }

  lemma MaskSize(c: Config, s: Slot)
    requires SlotOk(c, s)
    ensures |s.mask| == |s.block.symbols| == c.n
  {
  }

  /** One position of a slot that holds what a row's losses spared. */
  lemma SparedCell(g: Interleaving.Geometry, row: Interleaving.Row, r: nat, lost: set<int>, s: Slot, f: nat)
    requires (forall f :: 0 <= f < g.n ==> f in row.cells) && Marked(s) == Spared(g, row, r, lost)
    requires f < g.n == |s.mask| == |s.block.symbols|
    ensures s.mask[f] <==> f * g.depth + r !in lost
    ensures s.mask[f] ==> s.block.symbols[f] == row.cells[f]
  {
    assert f in Marked(s) <==> f in Spared(g, row, r, lost);
    if s.mask[f] { assert Marked(s)[f] == Spared(g, row, r, lost)[f]; }
  }

  /** What is left of a row that loses at most m columns is what its slot holds. */
  lemma RowRecovered(cfg: TxConfig, rows: seq<Interleaving.Row>, lost: set<int>, st: State, ps: seq<Arrival>, t0: int, now: int, r: nat)
    requires ValidConfig(RxConfig(cfg)) && Transmittable(TxGeometry(cfg), RxConfig(cfg), rows)
    requires r < cfg.depth && rows[r].key != 0 && |Columns(TxGeometry(cfg), r, lost)| <= cfg.m
    requires Inv(RxConfig(cfg), st) && Blocks(st.slots) == map[]
    requires Survived(Drained(TxGeometry(cfg), rows), lost, ps)
    requires InTime(RxConfig(cfg), ps, t0) && now >= t0 + 2 * STABILIZATION
    ensures forall f :: 0 <= f < cfg.k + cfg.m ==> f in rows[r].cells
    ensures var m := Blocks(DeinterleaverSpec.Tick(RxConfig(cfg), Receive(RxConfig(cfg), st, ps), -1, now).slots);
      && rows[r].key in m && m[rows[r].key].ready
      && m[rows[r].key].symbols == Spared(TxGeometry(cfg), rows[r], r, lost)
  {
    hide Drained, Transmittable, InTime, DeinterleaverSpec.Tick, Receive, Blocks, Survived, Spared, Inv, Columns;
    WindowRecovered(TxGeometry(cfg), RxConfig(cfg), rows, lost, st, ps, t0, now);
    SparedEnough(TxGeometry(cfg), rows[r], r, lost, cfg.m);
  }

  /** Window bs arrives in time at an idle receiver, in any order and with duplicates, less the lost positions. */
  ghost predicate HitBy(cfg: TxConfig, codec: FecWrapper.Codec, bs: seq<Sealed>, lost: set<int>,
                        st: State, ps: seq<Arrival>, t0: int) {
    && Sendable(cfg, bs) && DistinctIds(bs)
    && ValidConfig(RxConfig(cfg)) && Inv(RxConfig(cfg), st) && Blocks(st.slots) == map[]
    && Survived(Drained(TxGeometry(cfg), SentRows(cfg, codec, bs)), lost, ps)
    && InTime(RxConfig(cfg), ps, t0)
  }

  /** The receiver once the arrivals ps have been pushed and a tick has followed at time now. */
  ghost function AfterTick(cfg: TxConfig, st: State, ps: seq<Arrival>, now: int): (st': State)
    requires ValidConfig(RxConfig(cfg)) && Inv(RxConfig(cfg), st)
    ensures Inv(RxConfig(cfg), st')
  {
    Invariant.TickKeeps(RxConfig(cfg), Receive(RxConfig(cfg), st, ps), -1, now);
    DeinterleaverSpec.Tick(RxConfig(cfg), Receive(RxConfig(cfg), st, ps), -1, now)
  }

  /**
   Any losses in a sent window, such as a burst of at most m * depth symbols: after the quiet period every block
   whose row lost at most m columns is ready and decodes to exactly the bytes it was encoded from.
   */
  lemma LossDecodes(cfg: TxConfig, codec: FecWrapper.Codec, bs: seq<Sealed>, lost: set<int>,
                     st: State, ps: seq<Arrival>, t0: int, now: int, r: nat) returns (i: nat)
    requires FecWrapper.Ideal(codec, cfg.k, cfg.k + cfg.m, cfg.size)
    requires HitBy(cfg, codec, bs, lost, st, ps, t0) && r < |bs|
    requires |Columns(TxGeometry(cfg), r, lost)| <= cfg.m && now >= t0 + 2 * STABILIZATION
    ensures i < |AfterTick(cfg, st, ps, now).slots| && SealedOk(cfg, bs[r])
    ensures HoldsPart(cfg, codec, AfterTick(cfg, st, ps, now).slots[i], bs[r])
    ensures SparedOnly(cfg, AfterTick(cfg, st, ps, now).slots[i], r, lost)
    ensures FecWrapper.Decode(codec, cfg.k, AfterTick(cfg, st, ps, now).slots[i].block.symbols)
         == FecWrapper.Ok(SourceOfBlock(cfg, bs[r]))
  {
    hide SentRows, Transmittable, Drained, InTime, DeinterleaverSpec.Tick, Receive, Blocks, FecWrapper.Ideal, Survived,
      Spared, SparedOnly, HoldsPart, FecWrapper.Decode, SourceOfBlock, Inv, Columns, SymbolsOf, DistinctIds, SealedOk;
    SentTransmittable(cfg, codec, bs);
    forall f | 0 <= f < cfg.k + cfg.m ensures f in SentRows(cfg, codec, bs)[r].cells {
      SentCell(cfg, codec, bs, r, f);
    }
    SentCell(cfg, codec, bs, r, 0);
    SealedId(cfg, bs, r);
    RowRecovered(cfg, SentRows(cfg, codec, bs), lost, st, ps, t0, now, r);
    var dil := AfterTick(cfg, st, ps, now);
    i := SparedIsPart(cfg, codec, bs, dil, r, lost);
    PartDecodes(cfg, codec, dil.slots[i], bs[r]);
  }

  lemma SealedId(cfg: TxConfig, bs: seq<Sealed>, r: nat)
    requires Sendable(cfg, bs) && r < |bs|
    ensures SealedOk(cfg, bs[r]) && bs[r].id != 0
  {
  }

  /** Positions that were not received still hold no metadata. */
  ghost predicate BlankWhereLost(cfg: TxConfig, s: Slot)
    requires |s.mask| == |s.block.symbols|
  {
    forall f :: 0 <= f < |s.mask| && !s.mask[f] ==> s.block.symbols[f].len == 0
  }

  /** Position f of block b carries a fragment. */
  predicate CarriesFragment(cfg: TxConfig, b: Sealed, f: nat)
    requires Packed(cfg, b.packets) && f < cfg.k
  {
    SourcePlan(cfg, b.packets)[f].len != 0
  }

  lemma PartIsPartial(cfg: TxConfig, codec: FecWrapper.Codec, s: Slot, b: Sealed)
    requires SealedOk(cfg, b) && Short(b.packets) && HoldsPart(cfg, codec, s, b) && BlankWhereLost(cfg, s)
    ensures Partial(cfg, b.packets, s.block.symbols, SourceOfBlock(cfg, b), b.id)
    ensures NoneLost(cfg, b.packets, s.block.symbols, cfg.k)
            <==> forall f :: 0 <= f < cfg.k && CarriesFragment(cfg, b, f) ==> s.mask[f]
  {
    hide SymbolsOf, SourcePlan, Layout, SourceBytes, OneBlock;
    forall f | 0 <= f < cfg.k
      ensures s.block.symbols[f].len == 0 || Matches(s.block.symbols[f], SourcePlan(cfg, b.packets)[f], cfg.k)
      ensures s.block.symbols[f].len != 0 ==> s.block.symbols[f].packetId == b.id
      ensures s.block.symbols[f].len <= cfg.size
      ensures LostAt(cfg, b.packets, s.block.symbols, f) <==> CarriesFragment(cfg, b, f) && !s.mask[f]
    {
      SourceSymbol(cfg, codec, b, f);
    }
    PlanIsSources(cfg, b);
  }

  lemma PlanIsSources(cfg: TxConfig, b: Sealed)
    requires SealedOk(cfg, b)
    ensures SourceBytes(SourcePlan(cfg, b.packets), cfg.k) == SourceOfBlock(cfg, b)
  {
  }

  /**
   Packets need their own fragments: with blank metadata where symbols were lost, a ready block's
   packets are all sent exactly when every position that carries a fragment was received, however
   many symbols the decoder could restore.
   */
  lemma PacketsNeedFragments(cfg: TxConfig, codec: FecWrapper.Codec, s: Slot, b: Sealed)
    requires SealedOk(cfg, b) && Short(b.packets) && HoldsPart(cfg, codec, s, b) && BlankWhereLost(cfg, s)
    requires FecWrapper.Ideal(codec, cfg.k, cfg.k + cfg.m, cfg.size) && SymbolsFit(cfg, s.block.symbols)
    ensures |s.block.symbols| == cfg.k + cfg.m
    ensures BlockPackets(cfg, codec, s.block.symbols) == b.packets
            <==> forall f :: 0 <= f < cfg.k && CarriesFragment(cfg, b, f) ==> s.mask[f]
  {
    PartDecodes(cfg, codec, s, b);
    PartIsPartial(cfg, codec, s, b);
    hide SymbolsOf, FecWrapper.Decode, Groups, Sent, Partial, NoneLost, CarriesFragment, SourceBytes, FecWrapper.Ideal;
    PacketsSurviveIff(cfg, b.packets, s.block.symbols, SourceOfBlock(cfg, b), b.id);
  }
}
