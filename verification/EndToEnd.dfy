/**
 From LAN to LAN: over a lossless link within the receiver's timers, with an ideal codec, the packets
 sent on the far side are exactly the packets taken on the near side, byte for byte and in order.
 */
module EndToEnd {
  import opened Types
  import opened BlockBuilding
  import opened Fragmentation
  import SymbolCrc
  import FecWrapper
  import opened InterleaverWindows
  import opened DeinterleaverSpec
  import opened DeinterleaverMap
  import opened WindowRecovery
  import opened TxSpec
  import opened WholeBlocks
  import opened TxHistory
  import opened TxPacking
  import opened TxClock
  import opened RxGrouping
  import opened RxSpec
  import opened WindowDelivery
  import opened WindowRuns

  // ---------------------------------------------------------------------------
  // One block
  // ---------------------------------------------------------------------------

  ghost predicate Short(ps: seq<PacketBytes>) {
    forall i :: 0 <= i < |ps| ==> |ps[i]| <= 9200
  }

  /** The source bytes of a block. */
  ghost function SourceOfBlock(cfg: TxConfig, b: Sealed): (src: seq<byte>)
    requires SealedOk(cfg, b)
    ensures |src| == cfg.k * cfg.size
  {
    SourceLength(cfg, Sources(cfg, b), cfg.k);
    SourceBytes(Sources(cfg, b), cfg.k)
  }

  /** Source symbols keep their plan's index, total, length and data. */
  lemma SourceSymbol(cfg: TxConfig, codec: FecWrapper.Codec, b: Sealed, i: nat)
    requires SealedOk(cfg, b) && i < cfg.k
    ensures var s, l := SymbolsOf(cfg, codec, b)[i], SourcePlan(cfg, b.packets)[i];
      Matches(s, l, cfg.k) && s.data == l.data && s.packetId == b.id && s.len <= cfg.size
  {
    hide Layout, SourceBytes;
  }

  lemma BlockIsIntact(cfg: TxConfig, codec: FecWrapper.Codec, b: Sealed)
    requires SealedOk(cfg, b) && Short(b.packets)
    ensures Intact(cfg, b.packets, SymbolsOf(cfg, codec, b), SourceOfBlock(cfg, b), b.id)
  {
    hide Layout, SourceBytes, SymbolsOf, OneBlock;
    forall i | 0 <= i < cfg.k
      ensures Matches(SymbolsOf(cfg, codec, b)[i], SourcePlan(cfg, b.packets)[i], cfg.k)
      ensures SymbolsOf(cfg, codec, b)[i].packetId == b.id && SymbolsOf(cfg, codec, b)[i].len <= cfg.size
    {
      SourceSymbol(cfg, codec, b, i);
    }
  }

  /** Every symbol of a block is the codec's encoding of its source. */
  lemma SymbolsEncode(cfg: TxConfig, codec: FecWrapper.Codec, b: Sealed, i: nat)
    requires SealedOk(cfg, b) && FecWrapper.Systematic(codec, cfg.k, cfg.k + cfg.m, cfg.size) && i < cfg.k + cfg.m
    ensures SymbolsOf(cfg, codec, b)[i].data == codec.encode(SourceOfBlock(cfg, b), i)
  {
    hide Layout, SourceBytes, Sources;
    var src := SourceOfBlock(cfg, b);
    if i < cfg.k {
      SourceData(cfg, codec, b, i);
      assert (i + 1) * cfg.size == i * cfg.size + cfg.size;
    } else {
      RepairSymbol(cfg, codec, b, i);
      assert |codec.encode(src, i)| == cfg.size;
    }
  }

  lemma SourceData(cfg: TxConfig, codec: FecWrapper.Codec, b: Sealed, i: nat)
    requires SealedOk(cfg, b) && i < cfg.k
    ensures 0 <= i * cfg.size && i * cfg.size + cfg.size <= cfg.k * cfg.size
    ensures SymbolsOf(cfg, codec, b)[i].data == SourceOfBlock(cfg, b)[i * cfg.size..i * cfg.size + cfg.size]
  {
    hide Layout, SourceBytes;
    SourceSymbol(cfg, codec, b, i);
    SourceSlice(cfg, Sources(cfg, b), cfg.k, i);
  }

  lemma RepairSymbol(cfg: TxConfig, codec: FecWrapper.Codec, b: Sealed, i: nat)
    requires SealedOk(cfg, b) && cfg.k <= i < cfg.k + cfg.m
    ensures SymbolsOf(cfg, codec, b)[i].data == RepairData(cfg, codec, SourceOfBlock(cfg, b), i)
    ensures SymbolsOf(cfg, codec, b)[i].len == cfg.size
  {
    hide Layout, SourceBytes, RepairData;
  }

  lemma {:induction false} AllPresent(symbols: seq<Symbol>, i: nat)
    requires i <= |symbols| && forall f :: 0 <= f < |symbols| ==> FecWrapper.Present(symbols[f])
    ensures FecWrapper.CountValid(symbols, i) == i
  {
    if i > 0 { AllPresent(symbols, i - 1); }
  }

  /** A block received whole decodes to its source and yields its packets. */
  lemma BlockYields(cfg: TxConfig, codec: FecWrapper.Codec, b: Sealed)
    requires SealedOk(cfg, b) && Short(b.packets)
    requires FecWrapper.Ideal(codec, cfg.k, cfg.k + cfg.m, cfg.size)
    ensures SymbolsFit(cfg, SymbolsOf(cfg, codec, b))
    ensures BlockPackets(cfg, codec, SymbolsOf(cfg, codec, b)) == b.packets
  {
    hide Layout, SourceBytes, SymbolsOf, OneBlock, FecWrapper.Decode, Groups, Intact;
    var syms, src := SymbolsOf(cfg, codec, b), SourceOfBlock(cfg, b);
    forall i | 0 <= i < |syms|
      ensures FecWrapper.Present(syms[i]) && syms[i].fecId == i && syms[i].data == codec.encode(src, i)
    {
      SymbolsEncode(cfg, codec, b, i);
    }
    AllPresent(syms, |syms|);
    FecWrapper.DecodesSource(codec, cfg.k, cfg.size, src, syms);
    BlockIsIntact(cfg, codec, b);
    GroupingTheorem(cfg, b.packets, syms, src, b.id);
  }

  // ---------------------------------------------------------------------------
  // One window
  // ---------------------------------------------------------------------------

  ghost predicate DistinctIds(bs: seq<Sealed>) {
    forall i, j {:trigger bs[i].id, bs[j].id} :: 0 <= i < j < |bs| ==> bs[i].id != bs[j].id
  }

  lemma RowCells(cfg: TxConfig, codec: FecWrapper.Codec, bs: seq<Sealed>, r: nat)
    requires Sendable(cfg, bs) && r < cfg.depth
    ensures var row := SentRows(cfg, codec, bs)[r];
      row == if r < |bs| then RowOf(SymbolsOf(cfg, codec, bs[r]), bs[r].id) else PaddingRow(TxGeometry(cfg))
  {
    hide SymbolsOf;
  }

  /** Each cell of a sent row: the block's symbol, or padding. */
  lemma SentCell(cfg: TxConfig, codec: FecWrapper.Codec, bs: seq<Sealed>, r: nat, f: nat)
    requires Sendable(cfg, bs) && r < cfg.depth && f < cfg.k + cfg.m
    ensures var row := SentRows(cfg, codec, bs)[r];
      && f in row.cells
      && (r < |bs| ==> row.key == bs[r].id && row.cells[f] == SymbolsOf(cfg, codec, bs[r])[f])
      && (r >= |bs| ==> row.key == 0 && row.cells[f] == Symbol(0, f, f, cfg.k + cfg.m, 0, 0, Zeros(cfg.size)))
  {
    hide SymbolsOf;
    RowCells(cfg, codec, bs, r);
    if r >= |bs| { PaddingIsErased(TxGeometry(cfg), f); }
  }

  lemma CellsInRange(cfg: TxConfig, codec: FecWrapper.Codec, bs: seq<Sealed>, r: nat, f: int)
    requires Sendable(cfg, bs) && r < cfg.depth && f in SentRows(cfg, codec, bs)[r].cells
    ensures 0 <= f < cfg.k + cfg.m
  {
    hide SymbolsOf;
    RowCells(cfg, codec, bs, r);
  }

  lemma SentTransmittable(cfg: TxConfig, codec: FecWrapper.Codec, bs: seq<Sealed>)
    requires Sendable(cfg, bs) && DistinctIds(bs)
    ensures Transmittable(TxGeometry(cfg), RxConfig(cfg), SentRows(cfg, codec, bs))
  {
    hide SymbolsOf, SentRows;
    var g, c, rows := TxGeometry(cfg), RxConfig(cfg), SentRows(cfg, codec, bs);
    forall r, f | 0 <= r < |rows| && f in rows[r].cells
      ensures rows[r].cells[f].packetId == rows[r].key && rows[r].cells[f].fecId == f
    {
      CellsInRange(cfg, codec, bs, r, f);
      SentCell(cfg, codec, bs, r, f);
    }
    forall r, f | 0 <= r < |rows| && 0 <= f < g.n
      ensures if rows[r].key == 0 then rows[r].cells[f].len == 0 else rows[r].cells[f].len <= c.size
    {
      SentCell(cfg, codec, bs, r, f);
    }
    forall r, q | 0 <= r < q < |rows| && rows[r].key != 0 ensures rows[r].key != rows[q].key {
      SentCell(cfg, codec, bs, r, 0);
      SentCell(cfg, codec, bs, q, 0);
    }
  }

  lemma SealClean(cfg: TxConfig, s: Symbol)
    requires Fits(cfg, s) && cfg.size <= MAX_SYMBOL_DATA_SIZE && forall i :: s.len <= i < |s.data| ==> s.data[i] == 0
    ensures Clean(cfg, Seal(cfg, s))
  {
    hide SymbolCrc.Verifies, SymbolCrc.Stamped;
    SymbolCrc.StampedVerifies(s);
    assert Seal(cfg, s).data == s.data && Seal(cfg, s).len == s.len;
  }

  lemma {:induction false} LayoutClean(cfg: TxConfig, ps: seq<PacketBytes>)
    requires ValidTx(cfg) && forall i :: 0 <= i < |ps| ==> OneBlock(cfg, ps[i])
    ensures forall x :: 0 <= x < |Layout(cfg, ps)| ==> TailZero(Layout(cfg, ps)[x])
  {
    if ps != [] {
      LayoutClean(cfg, ps[..|ps| - 1]);
      var f := Bares(cfg, ps[|ps| - 1]);
      forall j | 0 <= j < |f| ensures TailZero(f[j]) {
        CountBounds(|ps[|ps| - 1]|, cfg.size, j);
      }
    }
  }

  /** Data beyond the payload length is zero. */
  ghost predicate TailZero(s: Symbol) {
    forall i :: s.len <= i < |s.data| ==> s.data[i] == 0
  }

  lemma SymbolClean(cfg: TxConfig, codec: FecWrapper.Codec, b: Sealed, i: nat)
    requires SealedOk(cfg, b) && i < cfg.k + cfg.m
    ensures Clean(cfg, SymbolsOf(cfg, codec, b)[i])
  {
    hide Layout, SourceBytes, Seal, Clean, RepairData, OneBlock;
    if i < cfg.k {
      LayoutClean(cfg, b.packets);
      var s := Sources(cfg, b)[i];
      assert TailZero(s);
      SealClean(cfg, s.(packetId := b.id, fecId := i));
    } else {
      var src := SourceBytes(Sources(cfg, b), cfg.k);
      SealClean(cfg, Symbol(b.id, i, i, cfg.k + cfg.m, cfg.size, 0, RepairData(cfg, codec, src, i)));
    }
  }

  lemma SentClean(cfg: TxConfig, codec: FecWrapper.Codec, bs: seq<Sealed>)
    requires Sendable(cfg, bs)
    ensures CleanRows(cfg, SentRows(cfg, codec, bs))
  {
    hide SymbolsOf, SentRows, SymbolCrc.Verifies;
    var rows := SentRows(cfg, codec, bs);
    forall r, f | 0 <= r < |rows| && f in rows[r].cells ensures Clean(cfg, rows[r].cells[f]) {
      CellsInRange(cfg, codec, bs, r, f);
      SentCell(cfg, codec, bs, r, f);
      if r < |bs| {
        SymbolClean(cfg, codec, bs[r], f);
      } else {
        PaddingClean(cfg, rows[r].cells[f]);
      }
    }
  }

  lemma PaddingClean(cfg: TxConfig, s: Symbol)
    requires ValidTx(cfg) && IsErasure(s) && s.data == Zeros(cfg.size)
    ensures Clean(cfg, s)
  {
  }

  /** A completed row of a sent window sends its block's packets. */
  lemma RowSends(cfg: TxConfig, codec: FecWrapper.Codec, bs: seq<Sealed>, r: nat)
    requires Sendable(cfg, bs) && DistinctIds(bs) && r < cfg.depth
    requires FecWrapper.Ideal(codec, cfg.k, cfg.k + cfg.m, cfg.size)
    requires forall q :: 0 <= q < |bs| ==> Short(bs[q].packets)
    requires Transmittable(TxGeometry(cfg), RxConfig(cfg), SentRows(cfg, codec, bs))
    ensures SentAt(cfg, codec, SentRows(cfg, codec, bs), cfg.k + cfg.m - 1, r)
         == if r < |bs| then bs[r].packets else []
  {
    hide SymbolsOf, SentRows, BlockPackets, FecWrapper.Ideal, Transmittable, SymbolsFit;
    var row, n := SentRows(cfg, codec, bs)[r], cfg.k + cfg.m;
    SentCell(cfg, codec, bs, r, 0);
    if r < |bs| {
      forall f | 0 <= f < n ensures f in row.cells && row.cells[f] == SymbolsOf(cfg, codec, bs[r])[f] {
        SentCell(cfg, codec, bs, r, f);
      }
      assert RowSymbols(row, n) == SymbolsOf(cfg, codec, bs[r]);
      BlockYields(cfg, codec, bs[r]);
    }
  }

  lemma {:induction false} RowsSend(cfg: TxConfig, codec: FecWrapper.Codec, bs: seq<Sealed>, r: nat)
    requires Sendable(cfg, bs) && DistinctIds(bs) && r <= cfg.depth
    requires FecWrapper.Ideal(codec, cfg.k, cfg.k + cfg.m, cfg.size)
    requires forall q :: 0 <= q < |bs| ==> Short(bs[q].packets)
    requires Transmittable(TxGeometry(cfg), RxConfig(cfg), SentRows(cfg, codec, bs))
    ensures RowsSent(cfg, codec, SentRows(cfg, codec, bs), r) == PacketsOf(bs[..if r < |bs| then r else |bs|])
  {
    hide SentRows, FecWrapper.Ideal, Transmittable, Sendable, SentAt, Short;
    if r > 0 {
      RowsSend(cfg, codec, bs, r - 1);
      RowSends(cfg, codec, bs, r - 1);
      if r <= |bs| { PacketsStep(bs, r - 1); }
    }
  }

  lemma PacketsStep(bs: seq<Sealed>, r: nat)
    requires r < |bs|
    ensures PacketsOf(bs[..r + 1]) == PacketsOf(bs[..r]) + bs[r].packets
  {
    assert bs[..r + 1][..r] == bs[..r];
  }

  /** A sent window, delivered in order and in time to an empty receiver, yields its packets. */
  lemma WindowYields(cfg: TxConfig, codec: FecWrapper.Codec, st: RxState, bs: seq<Sealed>, es: seq<RxEvent>, t0: int)
    requires RxOk(cfg, st.dil) && Blocks(st.dil.slots) == map[]
    requires Sendable(cfg, bs) && DistinctIds(bs) && forall q :: 0 <= q < |bs| ==> Short(bs[q].packets)
    requires FecWrapper.Ideal(codec, cfg.k, cfg.k + cfg.m, cfg.size)
    requires Delivers(cfg, es, Drained(TxGeometry(cfg), SentRows(cfg, codec, bs)), Area(cfg), t0)
    ensures var st' := RxRun(cfg, codec, st, es);
      Blocks(st'.dil.slots) == map[] && st'.sent == st.sent + PacketsOf(bs)
  {
    SentTransmittable(cfg, codec, bs);
    SentClean(cfg, codec, bs);
    hide SentRows, FecWrapper.Ideal, Transmittable, AllSealed, Drained, Delivers, RxRun, RowsSent, CleanRows, Blocks, RxOk;
    WindowTheorem(cfg, codec, st, SentRows(cfg, codec, bs), es, t0);
    RowsSend(cfg, codec, bs, cfg.depth);
    assert bs[..|bs|] == bs;
  }

  // ---------------------------------------------------------------------------
  // All windows
  // ---------------------------------------------------------------------------

  function Concat(segs: seq<seq<RxEvent>>): seq<RxEvent> {
    if segs == [] then [] else Concat(segs[..|segs| - 1]) + segs[|segs| - 1]
  }

  /** The wire's symbols arrive window by window, each window in order and within the timers from its t0. */
  ghost predicate DeliversWire(cfg: TxConfig, wire: seq<Symbol>, segs: seq<seq<RxEvent>>, t0s: seq<int>)
    decreases |segs|
  {
    |t0s| == |segs| &&
    if segs == [] then wire == []
    else
      var last := |segs| - 1;
      Area(cfg) <= |wire|
      && Delivers(cfg, segs[last], wire[|wire| - Area(cfg)..], Area(cfg), t0s[last])
      && DeliversWire(cfg, wire[..|wire| - Area(cfg)], segs[..last], t0s[..last])
  }

  lemma {:induction false} RunConcat(cfg: TxConfig, codec: FecWrapper.Codec, st: RxState, a: seq<RxEvent>, b: seq<RxEvent>)
    requires RxOk(cfg, st.dil)
    ensures RxRun(cfg, codec, st, a + b) == RxRun(cfg, codec, RxRun(cfg, codec, st, a), b)
  {
    hide RxOk, RxOnce;
    if b == [] {
      assert a + b == a;
    } else {
      assert (a + b)[..|a + b| - 1] == a + b[..|b| - 1];
      RunConcat(cfg, codec, st, a, b[..|b| - 1]);
    }
  }

  lemma {:induction false} PacketsConcat(a: seq<Sealed>, b: seq<Sealed>)
    ensures PacketsOf(a + b) == PacketsOf(a) + PacketsOf(b)
  {
    if b == [] {
      assert a + b == a;
    } else {
      assert (a + b)[..|a + b| - 1] == a + b[..|b| - 1];
      PacketsConcat(a, b[..|b| - 1]);
    }
  }

  /** What delivery needs of every sent window. */
  ghost predicate Deliverable(cfg: TxConfig, bs: seq<Sealed>) {
    Sendable(cfg, bs) && DistinctIds(bs) && forall q :: 0 <= q < |bs| ==> Short(bs[q].packets)
  }

  lemma WireParts(cfg: TxConfig, codec: FecWrapper.Codec, ws: seq<seq<Sealed>>)
    requires ValidTx(cfg) && ws != [] && forall w :: 0 <= w < |ws| ==> Sendable(cfg, ws[w])
    ensures var wire, last := WireOf(cfg, codec, ws), |ws| - 1;
      && Area(cfg) <= |wire|
      && wire[|wire| - Area(cfg)..] == Drained(TxGeometry(cfg), SentRows(cfg, codec, ws[last]))
      && wire[..|wire| - Area(cfg)] == WireOf(cfg, codec, ws[..last])
  {
    hide SentRows, Sendable;
    AreaIs(cfg);
    hide Area;
    var d := Drained(TxGeometry(cfg), SentRows(cfg, codec, ws[|ws| - 1]));
    assert |d| == Area(cfg);
  }

  lemma EmptyWire(cfg: TxConfig, codec: FecWrapper.Codec)
    requires ValidTx(cfg)
    ensures WireOf(cfg, codec, []) == []
  {
  }

  lemma AreaNotZero(cfg: TxConfig)
    requires ValidTx(cfg)
    ensures Area(cfg) > 0
  {
    AreaIs(cfg);
    AreaPositive(TxGeometry(cfg));
  }

  lemma NoSegments(cfg: TxConfig, codec: FecWrapper.Codec, segs: seq<seq<RxEvent>>, t0s: seq<int>)
    requires ValidTx(cfg) && DeliversWire(cfg, WireOf(cfg, codec, []), segs, t0s)
    ensures segs == []
  {
    hide Delivers, Area;
    EmptyWire(cfg, codec);
    AreaNotZero(cfg);
  }

  /** The last segment delivers the last window. */
  lemma LastSegment(cfg: TxConfig, codec: FecWrapper.Codec, ws: seq<seq<Sealed>>, segs: seq<seq<RxEvent>>, t0s: seq<int>)
    requires ValidTx(cfg) && ws != [] && forall w :: 0 <= w < |ws| ==> Sendable(cfg, ws[w])
    requires DeliversWire(cfg, WireOf(cfg, codec, ws), segs, t0s)
    ensures segs != [] && |t0s| == |segs|
    ensures var n, last := |segs| - 1, |ws| - 1;
      && Delivers(cfg, segs[n], Drained(TxGeometry(cfg), SentRows(cfg, codec, ws[last])), Area(cfg), t0s[n])
      && DeliversWire(cfg, WireOf(cfg, codec, ws[..last]), segs[..n], t0s[..n])
  {
    hide Delivers, SentRows, Drained, Sendable, Area, WireOf;
    AreaNotZero(cfg);
    WireParts(cfg, codec, ws);
  }

  /** From an empty receiver the events lead to an empty receiver, and these packets are sent. */
  ghost predicate Yields(cfg: TxConfig, codec: FecWrapper.Codec, st: RxState, es: seq<RxEvent>, ps: seq<PacketBytes>) {
    && RxOk(cfg, st.dil) && Blocks(st.dil.slots) == map[]
    && Blocks(RxRun(cfg, codec, st, es).dil.slots) == map[]
    && RxRun(cfg, codec, st, es).sent == st.sent + ps
  }

  lemma YieldsNothing(cfg: TxConfig, codec: FecWrapper.Codec, st: RxState)
    requires RxOk(cfg, st.dil) && Blocks(st.dil.slots) == map[]
    ensures Yields(cfg, codec, st, [], [])
  {
    hide RxOk, Blocks;
    assert st.sent + [] == st.sent;
  }

  lemma YieldsThen(cfg: TxConfig, codec: FecWrapper.Codec, st: RxState, a: seq<RxEvent>, ps: seq<PacketBytes>,
                   b: seq<RxEvent>, qs: seq<PacketBytes>)
    requires Yields(cfg, codec, st, a, ps) && RxOk(cfg, st.dil)
    requires Yields(cfg, codec, RxRun(cfg, codec, st, a), b, qs)
    ensures Yields(cfg, codec, st, a + b, ps + qs)
  {
    hide RxOk, Blocks, RxRun;
    RunConcat(cfg, codec, st, a, b);
    assert st.sent + (ps + qs) == st.sent + ps + qs;
  }

  lemma WindowYieldsAll(cfg: TxConfig, codec: FecWrapper.Codec, st: RxState, bs: seq<Sealed>, es: seq<RxEvent>, t0: int)
    requires RxOk(cfg, st.dil) && Blocks(st.dil.slots) == map[] && Deliverable(cfg, bs)
    requires FecWrapper.Ideal(codec, cfg.k, cfg.k + cfg.m, cfg.size)
    requires Delivers(cfg, es, Drained(TxGeometry(cfg), SentRows(cfg, codec, bs)), Area(cfg), t0)
    ensures Yields(cfg, codec, st, es, PacketsOf(bs))
  {
    hide SentRows, FecWrapper.Ideal, Drained, Delivers, RxRun, Blocks, RxOk;
    WindowYields(cfg, codec, st, bs, es, t0);
  }

  lemma YieldsEmpty(cfg: TxConfig, codec: FecWrapper.Codec, st: RxState, es: seq<RxEvent>, ps: seq<PacketBytes>)
    requires Yields(cfg, codec, st, es, ps)
    ensures RxOk(cfg, st.dil) && RxOk(cfg, RxRun(cfg, codec, st, es).dil)
    ensures Blocks(RxRun(cfg, codec, st, es).dil.slots) == map[]
  {
    hide RxOk, Blocks, RxRun;
  }

  /** All windows delivered: all packets sent, in order. */
  lemma {:induction false} WindowsYield(cfg: TxConfig, codec: FecWrapper.Codec, st: RxState, ws: seq<seq<Sealed>>,
                                        segs: seq<seq<RxEvent>>, t0s: seq<int>)
    requires RxOk(cfg, st.dil) && Blocks(st.dil.slots) == map[] && ValidTx(cfg)
    requires forall w :: 0 <= w < |ws| ==> Sendable(cfg, ws[w]) && Deliverable(cfg, ws[w])
    requires FecWrapper.Ideal(codec, cfg.k, cfg.k + cfg.m, cfg.size)
    requires DeliversWire(cfg, WireOf(cfg, codec, ws), segs, t0s)
    ensures Yields(cfg, codec, st, Concat(segs), PacketsOf(Flat(ws)))
    decreases |ws|
  {
    hide RxOk, Blocks, FecWrapper.Ideal, RxRun, Delivers, SentRows, Drained, Sendable, Deliverable, Area, WireOf,
      DeliversWire, Yields;
    if ws == [] {
      NoSegments(cfg, codec, segs, t0s);
      YieldsNothing(cfg, codec, st);
    } else {
      LastSegment(cfg, codec, ws, segs, t0s);
      var last, n := |ws| - 1, |segs| - 1;
      WindowsYield(cfg, codec, st, ws[..last], segs[..n], t0s[..n]);
      YieldsEmpty(cfg, codec, st, Concat(segs[..n]), PacketsOf(Flat(ws[..last])));
      WindowYieldsAll(cfg, codec, RxRun(cfg, codec, st, Concat(segs[..n])), ws[last], segs[n], t0s[n]);
      YieldsThen(cfg, codec, st, Concat(segs[..n]), PacketsOf(Flat(ws[..last])), segs[n], PacketsOf(ws[last]));
      PacketsConcat(Flat(ws[..last]), ws[last]);
    }
  }

  // ---------------------------------------------------------------------------
  // The final flushes
  // ---------------------------------------------------------------------------

  /** An idle call seals what has waited for the block timeout and sends what has waited for the flush timeout. */
  lemma IdleReflects(cfg: TxConfig, codec: FecWrapper.Codec, st: TxState, h: History, now: int) returns (h': History)
    requires BetweenSteps(cfg, codec, st, h) && st.builder.id < 0x1_0000_0000
    ensures var sealed := if TimedOut(st.builder, BLOCK_TIMEOUT, now) then SealBlock(cfg, h, st.builder.id) else h;
      && TxOk(cfg, st)
      && var mid := FlushIfTimedOut(cfg, codec, st, now).0;
      && h' == (if TickSends(mid, now) then SendOpen(sealed) else sealed)
      && BetweenSteps(cfg, codec, mid, sealed)
      && var (st', ok) := RunOnce(cfg, codec, st, Idle, now);
      && ok && BetweenSteps(cfg, codec, st', h') && AllPackets(h') == AllPackets(h) && st'.builder == mid.builder
  {
    hide Reflects, FlushIfTimedOut, TickAndDrain, AllPackets, TickSends;
    ReflectsOk(cfg, codec, st, h);
    var sealed := TimeoutSettled(cfg, codec, st, h, now);
    h' := TickSettled(cfg, codec, FlushIfTimedOut(cfg, codec, st, now).0, sealed, now);
  }

  /** A packet always leaves something in the builder, so an empty builder has no packet in hand. */
  lemma {:induction false} EmptyHand(cfg: TxConfig, ps: seq<PacketBytes>)
    requires ValidTx(cfg) && (forall i :: 0 <= i < |ps| ==> OneBlock(cfg, ps[i])) && Layout(cfg, ps) == []
    ensures ps == []
  {
    if ps != [] {
      var p := ps[|ps| - 1];
      CountPositive(|p|, cfg.size);
    }
  }

  lemma NothingInBuilder(cfg: TxConfig, codec: FecWrapper.Codec, st: TxState, h: History)
    requires Reflects(cfg, codec, st, h) && st.builder.syms == []
    ensures h.current == []
  {
    assert BareAll(st.builder.syms) == [];
    EmptyHand(cfg, h.current);
  }

  lemma NothingInWindow(cfg: TxConfig, codec: FecWrapper.Codec, st: TxState, h: History)
    requires Reflects(cfg, codec, st, h) && st.window.rows == []
    ensures h.open == []
  {
  }

  /** Once the block timeout has passed, an idle call leaves the builder empty. */
  lemma IdleEmptiesBuilder(cfg: TxConfig, codec: FecWrapper.Codec, st: TxState, h: History, last: int, now: int)
    returns (h': History)
    requires BetweenSteps(cfg, codec, st, h) && st.builder.id < 0x1_0000_0000
    requires Clocked(st, last) && now >= last + BLOCK_TIMEOUT
    ensures TxOk(cfg, st)
    ensures var (st', ok) := RunOnce(cfg, codec, st, Idle, now);
      && ok && BetweenSteps(cfg, codec, st', h') && AllPackets(h') == AllPackets(h) && st'.builder.syms == []
  {
    hide Reflects, FlushBlock, TickAndDrain, AllPackets, TickSends, RunOnce;
    ReflectsOk(cfg, codec, st, h);
    h' := IdleReflects(cfg, codec, st, h, now);
    if st.builder.syms != [] {
      FlushReflects(cfg, codec, st, h, now);
      FlushEmpties(cfg, codec, st, h, now);
    }
  }

  /** Once the flush timeout has passed too, an idle call leaves nothing waiting. */
  lemma IdleSendsAll(cfg: TxConfig, codec: FecWrapper.Codec, st: TxState, h: History, last: int, now: int)
    returns (h': History)
    requires BetweenSteps(cfg, codec, st, h) && st.builder.id < 0x1_0000_0000 && st.builder.syms == []
    requires Clocked(st, last) && now >= last + FLUSH_TIMEOUT
    ensures TxOk(cfg, st)
    ensures var (st', ok) := RunOnce(cfg, codec, st, Idle, now);
      && ok && BetweenSteps(cfg, codec, st', h') && AllPackets(h') == AllPackets(h)
      && h'.open == [] && h'.current == []
  {
    hide Reflects, FlushBlock, TickAndDrain, AllPackets, RunOnce;
    ReflectsOk(cfg, codec, st, h);
    NothingInBuilder(cfg, codec, st, h);
    h' := IdleReflects(cfg, codec, st, h, now);
    if !TickSends(st, now) { NothingInWindow(cfg, codec, st, h); }
  }

  /** A run followed by two idle calls, each late enough for its timeout. */
  function WithFlushes(es: seq<TxEvent>, t1: int, t2: int): seq<TxEvent> {
    es + [TxEvent(Idle, t1)] + [TxEvent(Idle, t2)]
  }

  /** The clock never goes back, and the idle calls come after the block and flush timeouts. */
  ghost predicate WellTimed(es: seq<TxEvent>, t1: int, t2: int) {
    && Ordered(es) && (es != [] ==> t1 >= es[|es| - 1].now + BLOCK_TIMEOUT)
    && t2 >= t1 + FLUSH_TIMEOUT
  }

  lemma FlushedRun(cfg: TxConfig, codec: FecWrapper.Codec, es: seq<TxEvent>, t1: int, t2: int) returns (h: History)
    requires ValidTx(cfg) && WellTimed(es, t1, t2) && InBounds(cfg, codec, WithFlushes(es, t1, t2))
    ensures BetweenSteps(cfg, codec, TxRun(cfg, codec, WithFlushes(es, t1, t2)), h)
    ensures AllPackets(h) == CarriedAll(es) && h.open == [] && h.current == []
  {
    hide BetweenSteps, RunOnce, AllPackets, Clocked;
    var es1, all := es + [TxEvent(Idle, t1)], WithFlushes(es, t1, t2);
    assert es1[..|es1| - 1] == es && all[..|all| - 1] == es1;
    assert InBounds(cfg, codec, es1) && InBounds(cfg, codec, es);
    IdsBounded(cfg, codec, es);
    IdsBounded(cfg, codec, es1);
    var h0 := PackingTheorem(cfg, codec, es);
    var last := if es == [] then t1 - BLOCK_TIMEOUT else es[|es| - 1].now;
    RunsClocked(cfg, codec, es, last);
    var h1 := IdleEmptiesBuilder(cfg, codec, TxRun(cfg, codec, es), h0, last, t1);
    assert Ordered(es1);
    RunsClocked(cfg, codec, es1, t1);
    h := IdleSendsAll(cfg, codec, TxRun(cfg, codec, es1), h1, t1, t2);
  }

  lemma IdsBounded(cfg: TxConfig, codec: FecWrapper.Codec, es: seq<TxEvent>)
    requires ValidTx(cfg) && InBounds(cfg, codec, es)
    ensures TxRun(cfg, codec, es).builder.id < 0x1_0000_0000
  {
  }

  // ---------------------------------------------------------------------------
  // The theorem
  // ---------------------------------------------------------------------------

  /** Every packet fits the receive buffer. */
  ghost predicate AllShort(es: seq<TxEvent>) {
    forall i :: 0 <= i < |es| && es[i].input.Lan? ==> |es[i].input.packet| <= 9200
  }

  lemma {:induction false} CarriedShort(es: seq<TxEvent>)
    requires AllShort(es)
    ensures Short(CarriedAll(es))
  {
    if es != [] { CarriedShort(es[..|es| - 1]); }
  }

  lemma {:induction false} BlocksShort(bs: seq<Sealed>)
    requires Short(PacketsOf(bs))
    ensures forall q :: 0 <= q < |bs| ==> Short(bs[q].packets)
  {
    if bs != [] {
      var before, last := PacketsOf(bs[..|bs| - 1]), bs[|bs| - 1].packets;
      forall i | 0 <= i < |before| ensures |before[i]| <= 9200 { assert PacketsOf(bs)[i] == before[i]; }
      forall i | 0 <= i < |last| ensures |last[i]| <= 9200 {
        assert PacketsOf(bs)[|before| + i] == last[i];
      }
      BlocksShort(bs[..|bs| - 1]);
    }
  }

  /** Where window w's blocks sit among all blocks. */
  lemma {:induction false} WindowBlocks(ws: seq<seq<Sealed>>, w: nat) returns (at: nat)
    requires w < |ws|
    ensures at + |ws[w]| <= |Flat(ws)| && Flat(ws)[at..at + |ws[w]|] == ws[w]
  {
    var before := Flat(ws[..|ws| - 1]);
    if w == |ws| - 1 {
      at := |before|;
    } else {
      at := WindowBlocks(ws[..|ws| - 1], w);
      assert Flat(ws)[at..at + |ws[w]|] == before[at..at + |ws[w]|];
    }
  }

  lemma WindowsDeliverable(cfg: TxConfig, h: History, w: nat)
    requires HistoryOk(cfg, h) && w < |h.sent| && h.open == [] && Short(PacketsOf(Flat(h.sent)))
    ensures Deliverable(cfg, h.sent[w])
  {
    hide Sendable, PacketsOf;
    assert AllBlocks(h) == Flat(h.sent);
    BlocksShort(Flat(h.sent));
    var at := WindowBlocks(h.sent, w);
    forall q | 0 <= q < |h.sent[w]| ensures h.sent[w][q].id == at + q + 1 && Short(h.sent[w][q].packets) {
      assert h.sent[w][q] == Flat(h.sent)[at + q];
    }
  }

  /**
   For every run of packets of at most k fragments, block ids below 2 to the 32, an ideal codec and a
   lossless link that delivers each window within the stabilization time: once the final idle
   flushes have run, the packets sent to the far LAN are exactly the packets taken.
   */
  lemma FifoTheorem(cfg: TxConfig, codec: FecWrapper.Codec, es: seq<TxEvent>, t1: int, t2: int,
                    segs: seq<seq<RxEvent>>, t0s: seq<int>)
    requires ValidTx(cfg) && FecWrapper.Ideal(codec, cfg.k, cfg.k + cfg.m, cfg.size)
    requires WellTimed(es, t1, t2) && InBounds(cfg, codec, WithFlushes(es, t1, t2)) && AllShort(es)
    requires DeliversWire(cfg, TxRun(cfg, codec, WithFlushes(es, t1, t2)).wire, segs, t0s)
    ensures RxOk(cfg, InitialRx(cfg).dil)
    ensures RxRun(cfg, codec, InitialRx(cfg), Concat(segs)).sent == CarriedAll(es)
  {
    hide FecWrapper.Ideal, InBounds, TxRun, DeliversWire, RxRun, AllShort, WellTimed, Sendable, Deliverable, PacketsOf,
      SealedOk, RxOk;
    var h := FlushedRun(cfg, codec, es, t1, t2);
    var st := TxRun(cfg, codec, WithFlushes(es, t1, t2));
    CarriedShort(es);
    AllSentPackets(cfg, codec, st, h);
    forall w | 0 <= w < |h.sent| ensures Sendable(cfg, h.sent[w]) && Deliverable(cfg, h.sent[w]) {
      WindowsDeliverable(cfg, h, w);
    }
    InitialRxOk(cfg);
    StartsEmpty(cfg);
    WindowsYield(cfg, codec, InitialRx(cfg), h.sent, segs, t0s);
  }

  lemma AllSentPackets(cfg: TxConfig, codec: FecWrapper.Codec, st: TxState, h: History)
    requires BetweenSteps(cfg, codec, st, h) && h.open == [] && h.current == []
    ensures HistoryOk(cfg, h) && st.wire == WireOf(cfg, codec, h.sent)
    ensures AllPackets(h) == PacketsOf(Flat(h.sent))
  {
    assert AllBlocks(h) == Flat(h.sent);
    assert PacketsOf(Flat(h.sent)) + [] == PacketsOf(Flat(h.sent));
  }

  lemma StartsEmpty(cfg: TxConfig)
    requires ValidTx(cfg)
    ensures Blocks(InitialRx(cfg).dil.slots) == map[]
  {
  }
}
