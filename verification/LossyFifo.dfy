/** End to end over a link that loses symbols: each block that keeps k is restored, and which packets get through. */
module LossyFifo {
  import opened Types
  import opened InterleaverWindows
  import opened DeinterleaverSpec
  import opened DeinterleaverMap
  import opened WindowRuns
  import FecWrapper
  import opened TxSpec
  import opened TxHistory
  import opened TxPacking
  import opened RxGrouping
  import opened RxSpec
  import opened EndToEnd
  import opened LossDecoding
  import opened RxIntegrity
  import opened LossPackets
  import opened LossyDrain
  import opened LossyRuns
  import opened LossyWindows

  // ---------------------------------------------------------------------------
  // A decoded block
  // ---------------------------------------------------------------------------

  /**
   A block that is decoded with what was left of it comes to its source bytes; every packet that lost nothing is
   sent, in order, and nothing else exactly when the stored metadata makes no other accepted group.
   */
  lemma RestoredSends(cfg: TxConfig, codec: FecWrapper.Codec, bs: seq<Sealed>, lost: set<int>, r: nat, s: Slot)
    requires Restores(cfg, codec, bs, lost, r, s) && Short(bs[r].packets)
    requires FecWrapper.Ideal(codec, cfg.k, cfg.k + cfg.m, cfg.size)
    ensures FecWrapper.Decode(codec, cfg.k, s.block.symbols) == FecWrapper.Ok(SourceOfBlock(cfg, bs[r]))
    ensures |s.block.symbols| == cfg.k + cfg.m && cfg.k < MAX_SYMBOLS_PER_BLOCK
    ensures var sent, whole := SlotSends(cfg, codec, s), UntouchedPackets(cfg, bs[r], |bs[r].packets|, r, lost);
      Subsequence(whole, sent) && (sent == whole <==> Unmixed(cfg.k, s.block.symbols))
  {
    hide SymbolsOf, SourceOfBlock, FecWrapper.Decode, FecWrapper.Ideal, HoldsPart, Groups, Sent, Damaged, Survivors, Unmixed,
      Subsequence, BlockPackets, UntouchedPackets, SparedOnly, SealedOk, SymbolsFit;
    SealedValid(cfg, bs[r]);
    PartDecodes(cfg, codec, s, bs[r]);
    PartIsDamaged(cfg, codec, s, bs[r]);
    UntouchedSurvive(cfg, codec, s, bs[r], |bs[r].packets|, r, lost);
    SlotPackets(cfg, codec, s, bs[r]);
  }

  lemma SealedValid(cfg: TxConfig, b: Sealed)
    requires SealedOk(cfg, b)
    ensures ValidTx(cfg)
  {
  }

  // ---------------------------------------------------------------------------
  // Any number of windows
  // ---------------------------------------------------------------------------

  /** The wire is heard window by window, each less losses of its own. */
  ghost predicate HeardAll(cfg: TxConfig, wire: seq<Symbol>, ws: seq<Hearing>)
    decreases |ws|
  {
    if ws == [] then wire == []
    else
      var last := |ws| - 1;
      Area(cfg) <= |wire|
      && Heard(cfg, wire[|wire| - Area(cfg)..], ws[last])
      && HeardAll(cfg, wire[..|wire| - Area(cfg)], ws[..last])
  }

  function AllEvents(ws: seq<Hearing>): seq<RxEvent> {
    if ws == [] then [] else AllEvents(ws[..|ws| - 1]) + Events(ws[|ws| - 1])
  }

  /** The slots decoded while window w is heard. */
  ghost function WindowDecodes(cfg: TxConfig, codec: FecWrapper.Codec, st: RxState, ws: seq<Hearing>, w: nat): (log: seq<Slot>)
    requires RxOk(cfg, st.dil) && w < |ws|
  {
    RunDecodes(cfg, codec, RxRun(cfg, codec, st, AllEvents(ws[..w])), Events(ws[w]))
  }

  /** In every window the slots decoded are those of its blocks, one for each. */
  ghost predicate AllRestored(cfg: TxConfig, codec: FecWrapper.Codec, st: RxState, bss: seq<seq<Sealed>>, ws: seq<Hearing>)
    requires RxOk(cfg, st.dil)
  {
    |bss| == |ws| && forall w: nat :: w < |ws| ==> RestoresAll(cfg, codec, bss[w], ws[w].lost, WindowDecodes(cfg, codec, st, ws, w))
  }

  lemma NoWindows(cfg: TxConfig, codec: FecWrapper.Codec, ws: seq<Hearing>)
    requires ValidTx(cfg) && HeardAll(cfg, WireOf(cfg, codec, []), ws)
    ensures ws == []
  {
    hide Heard, Area;
    EmptyWire(cfg, codec);
    AreaNotZero(cfg);
  }

  lemma LastWindow(cfg: TxConfig, codec: FecWrapper.Codec, bss: seq<seq<Sealed>>, ws: seq<Hearing>)
    requires ValidTx(cfg) && bss != [] && forall w :: 0 <= w < |bss| ==> Sendable(cfg, bss[w])
    requires HeardAll(cfg, WireOf(cfg, codec, bss), ws)
    ensures ws != []
    ensures Heard(cfg, WindowDrained(cfg, codec, bss[|bss| - 1]), ws[|ws| - 1])
    ensures HeardAll(cfg, WireOf(cfg, codec, bss[..|bss| - 1]), ws[..|ws| - 1])
  {
    hide Heard, SentRows, Drained, Sendable, Area, WireOf;
    AreaNotZero(cfg);
    WireParts(cfg, codec, bss);
  }

  lemma {:induction false} DecodesConcat(cfg: TxConfig, codec: FecWrapper.Codec, st: RxState, a: seq<RxEvent>, b: seq<RxEvent>)
    requires RxOk(cfg, st.dil)
    ensures RunDecodes(cfg, codec, st, a + b) == RunDecodes(cfg, codec, st, a) + RunDecodes(cfg, codec, RxRun(cfg, codec, st, a), b)
  {
    hide RxOk, RxOnce, OnceDecodes;
    if b == [] {
      assert a + b == a;
    } else {
      assert (a + b)[..|a + b| - 1] == a + b[..|b| - 1];
      DecodesConcat(cfg, codec, st, a, b[..|b| - 1]);
      RunConcat(cfg, codec, st, a, b[..|b| - 1]);
    }
  }

  lemma SuccessesConcat(finals: seq<Final>, a: seq<Slot>, b: seq<Slot>)
    ensures finals + Successes(a) + Successes(b) == finals + Successes(a + b)
  {
  }

  lemma ClearsNothing(cfg: TxConfig, codec: FecWrapper.Codec, st: RxState)
    requires RxOk(cfg, st.dil) && Blocks(st.dil.slots) == map[]
    ensures Clears(cfg, codec, st, [])
  {
    hide RxOk, Blocks;
    assert st.sent + [] == st.sent;
    assert st.dil.finals + Successes([]) == st.dil.finals;
  }

  lemma ClearsThen(cfg: TxConfig, codec: FecWrapper.Codec, st: RxState, a: seq<RxEvent>, b: seq<RxEvent>)
    requires Clears(cfg, codec, st, a) && RxOk(cfg, st.dil) && Clears(cfg, codec, RxRun(cfg, codec, st, a), b)
    ensures Clears(cfg, codec, st, a + b)
  {
    hide RxOk, Blocks, RxRun, RunDecodes, LogSends, Successes;
    var mid := RxRun(cfg, codec, st, a);
    RunConcat(cfg, codec, st, a, b);
    DecodesConcat(cfg, codec, st, a, b);
    SendsConcat(cfg, codec, RunDecodes(cfg, codec, st, a), RunDecodes(cfg, codec, mid, b));
    SuccessesConcat(st.dil.finals, RunDecodes(cfg, codec, st, a), RunDecodes(cfg, codec, mid, b));
  }

  lemma ClearsOpen(cfg: TxConfig, codec: FecWrapper.Codec, st: RxState, es: seq<RxEvent>)
    requires Clears(cfg, codec, st, es)
    ensures RxOk(cfg, st.dil) && RxOk(cfg, RxRun(cfg, codec, st, es).dil) && Blocks(RxRun(cfg, codec, st, es).dil.slots) == map[]
  {
    hide RxOk, Blocks, RxRun, RunDecodes;
  }

  /** Earlier windows decode the same whether or not more follow. */
  lemma RestoredStill(cfg: TxConfig, codec: FecWrapper.Codec, st: RxState, bss: seq<seq<Sealed>>, ws: seq<Hearing>)
    requires RxOk(cfg, st.dil) && |bss| == |ws| > 0 && AllRestored(cfg, codec, st, bss[..|bss| - 1], ws[..|ws| - 1])
    requires RestoresAll(cfg, codec, bss[|bss| - 1], ws[|ws| - 1].lost, WindowDecodes(cfg, codec, st, ws, |ws| - 1))
    ensures AllRestored(cfg, codec, st, bss, ws)
  {
    hide RxOk, RxRun, RunDecodes, RestoresAll, AllEvents, Events;
    var n := |ws| - 1;
    forall w: nat | w < |ws| ensures RestoresAll(cfg, codec, bss[w], ws[w].lost, WindowDecodes(cfg, codec, st, ws, w)) {
      if w < n {
        assert ws[..n][..w] == ws[..w];
        assert WindowDecodes(cfg, codec, st, ws[..n], w) == WindowDecodes(cfg, codec, st, ws, w);
      }
    }
  }

  /** The same for any number of windows one after the other. */
  lemma {:induction false} WindowsRestored(cfg: TxConfig, codec: FecWrapper.Codec, st: RxState, bss: seq<seq<Sealed>>,
                                           ws: seq<Hearing>)
    requires RxOk(cfg, st.dil) && Blocks(st.dil.slots) == map[] && ValidTx(cfg)
    requires FecWrapper.Ideal(codec, cfg.k, cfg.k + cfg.m, cfg.size)
    requires forall w :: 0 <= w < |bss| ==> Sendable(cfg, bss[w]) && DistinctIds(bss[w])
    requires HeardAll(cfg, WireOf(cfg, codec, bss), ws)
    ensures AllRestored(cfg, codec, st, bss, ws) && Clears(cfg, codec, st, AllEvents(ws))
    decreases |bss|
  {
    hide RxOk, Blocks, RxRun, Heard, SentRows, Drained, Sendable, DistinctIds, Area, WireOf, HeardAll, Clears, RestoresAll,
      Events, FecWrapper.Ideal, RunDecodes;
    if bss == [] {
      NoWindows(cfg, codec, ws);
      ClearsNothing(cfg, codec, st);
    } else {
      LastWindow(cfg, codec, bss, ws);
      var b, n := |bss| - 1, |ws| - 1;
      WindowsRestored(cfg, codec, st, bss[..b], ws[..n]);
      ClearsOpen(cfg, codec, st, AllEvents(ws[..n]));
      WindowRestored(cfg, codec, RxRun(cfg, codec, st, AllEvents(ws[..n])), bss[b], ws[n]);
      ClearsThen(cfg, codec, st, AllEvents(ws[..n]), Events(ws[n]));
      RestoredStill(cfg, codec, st, bss, ws);
    }
  }

  // ---------------------------------------------------------------------------
  // From LAN to LAN
  // ---------------------------------------------------------------------------

  /** Block r of window w is decoded in one of the window's slots, which sends what lost nothing, in order. */
  ghost predicate BlockSends(cfg: TxConfig, codec: FecWrapper.Codec, bs: seq<Sealed>, lost: set<int>, log: seq<Slot>, r: nat)
    requires r < |bs| && SealedOk(cfg, bs[r])
  {
    exists i :: 0 <= i < |log| && Restores(cfg, codec, bs, lost, r, log[i]) && SendsWhole(cfg, codec, bs[r], lost, r, log[i])
  }

  /** The packets that lost nothing are sent, in order; no others exactly when the slot's metadata makes no other group. */
  ghost predicate SendsWhole(cfg: TxConfig, codec: FecWrapper.Codec, b: Sealed, lost: set<int>, r: nat, s: Slot)
    requires SealedOk(cfg, b)
  {
    && cfg.k <= |s.block.symbols| && cfg.k < MAX_SYMBOLS_PER_BLOCK
    && var sent, whole := SlotSends(cfg, codec, s), UntouchedPackets(cfg, b, |b.packets|, r, lost);
    && Subsequence(whole, sent) && (sent == whole <==> Unmixed(cfg.k, s.block.symbols))
  }

  ghost predicate AllSend(cfg: TxConfig, codec: FecWrapper.Codec, st: RxState, bss: seq<seq<Sealed>>, ws: seq<Hearing>)
    requires RxOk(cfg, st.dil)
  {
    forall w: nat, r: nat :: w < |bss| && w < |ws| && r < |bss[w]| ==>
      SealedOk(cfg, bss[w][r]) && BlockSends(cfg, codec, bss[w], ws[w].lost, WindowDecodes(cfg, codec, st, ws, w), r)
  }

  lemma BlockSent(cfg: TxConfig, codec: FecWrapper.Codec, bs: seq<Sealed>, lost: set<int>, log: seq<Slot>, r: nat)
    requires RestoresAll(cfg, codec, bs, lost, log) && r < |bs| && Short(bs[r].packets)
    requires FecWrapper.Ideal(codec, cfg.k, cfg.k + cfg.m, cfg.size)
    ensures SealedOk(cfg, bs[r]) && BlockSends(cfg, codec, bs, lost, log, r)
  {
    hide FecWrapper.Ideal, Untouched, UntouchedPackets, Subsequence, SlotSends, Unmixed, FecWrapper.Decode, SourceOfBlock, Short,
      HoldsPart, SparedOnly, SymbolsFit, Packed;
    assert Restored(cfg, codec, bs, lost, log, r);
    var i: nat :| i < |log| && Restores(cfg, codec, bs, lost, r, log[i]);
    RestoredSends(cfg, codec, bs, lost, r, log[i]);
    assert SendsWhole(cfg, codec, bs[r], lost, r, log[i]);
  }

  lemma AllSent(cfg: TxConfig, codec: FecWrapper.Codec, st: RxState, bss: seq<seq<Sealed>>, ws: seq<Hearing>)
    requires RxOk(cfg, st.dil) && AllRestored(cfg, codec, st, bss, ws)
    requires forall w :: 0 <= w < |bss| ==> Sendable(cfg, bss[w]) && Deliverable(cfg, bss[w])
    requires FecWrapper.Ideal(codec, cfg.k, cfg.k + cfg.m, cfg.size)
    ensures AllSend(cfg, codec, st, bss, ws)
  {
    hide FecWrapper.Ideal, RxOk, WindowDecodes, RestoresAll, DistinctIds, Sendable, BlockSends, SealedOk, Short;
    forall w: nat, r: nat | w < |bss| && w < |ws| && r < |bss[w]|
      ensures SealedOk(cfg, bss[w][r]) && BlockSends(cfg, codec, bss[w], ws[w].lost, WindowDecodes(cfg, codec, st, ws, w), r)
    {
      BlockSent(cfg, codec, bss[w], ws[w].lost, WindowDecodes(cfg, codec, st, ws, w), r);
    }
  }

  /**
   For every run of packets of at most k fragments, block ids below 2 to the 32, an ideal codec and a link that loses
   any symbols, at most m of every row of every window, each window heard in order and with no event when a block with
   symbols still to come is due: h is what was put on the wire and holds the packets taken, whole and in order; the slots
   that the receiver decodes are those of the blocks of h, window by window, one for each; it reports a success for each
   and nothing else; what it sends is what they yield; and each of them yields the packets that lost nothing, in order,
   and no others exactly when its metadata makes no other group.
   */
  lemma LossyFifoTheorem(cfg: TxConfig, codec: FecWrapper.Codec, es: seq<TxEvent>, t1: int, t2: int, ws: seq<Hearing>)
    returns (h: History)
    requires ValidTx(cfg) && FecWrapper.Ideal(codec, cfg.k, cfg.k + cfg.m, cfg.size)
    requires WellTimed(es, t1, t2) && InBounds(cfg, codec, WithFlushes(es, t1, t2)) && AllShort(es)
    requires HeardAll(cfg, TxRun(cfg, codec, WithFlushes(es, t1, t2)).wire, ws)
    ensures HistoryOk(cfg, h) && TxRun(cfg, codec, WithFlushes(es, t1, t2)).wire == WireOf(cfg, codec, h.sent)
    ensures PacketsOf(Flat(h.sent)) == CarriedAll(es)
    ensures RxOk(cfg, InitialRx(cfg).dil)
    ensures AllRestored(cfg, codec, InitialRx(cfg), h.sent, ws) && AllSend(cfg, codec, InitialRx(cfg), h.sent, ws)
    ensures Clears(cfg, codec, InitialRx(cfg), AllEvents(ws))
  {
    hide FecWrapper.Ideal, InBounds, TxRun, HeardAll, RxRun, AllShort, WellTimed, Sendable, DistinctIds, PacketsOf, SealedOk,
      RxOk, AllEvents, AllRestored, HistoryOk, Blocks, Clears, AllSend;
    h := FlushedRun(cfg, codec, es, t1, t2);
    var st := TxRun(cfg, codec, WithFlushes(es, t1, t2));
    CarriedShort(es);
    AllSentPackets(cfg, codec, st, h);
    forall w | 0 <= w < |h.sent| ensures Sendable(cfg, h.sent[w]) && DistinctIds(h.sent[w]) && Deliverable(cfg, h.sent[w]) {
      WindowsDeliverable(cfg, h, w);
    }
    InitialRxOk(cfg);
    StartsEmpty(cfg);
    WindowsRestored(cfg, codec, InitialRx(cfg), h.sent, ws);
    AllSent(cfg, codec, InitialRx(cfg), h.sent, ws);
  }
}
