/**
 Every run of the transmit pipeline keeps whole packets in whole blocks: nothing is rejected, split
 across blocks, reordered or lost between the LAN and the sent windows.
 */
module TxPacking {
  import opened Types
  import opened BlockBuilding
  import opened Fragmentation
  import FecWrapper
  import opened Interleaving
  import opened TxSpec
  import opened WholeBlocks
  import opened TxHistory
  import Arithmetic

  /** Between steps the builder also has room for one more symbol. */
  ghost predicate BetweenSteps(cfg: TxConfig, codec: FecWrapper.Codec, st: TxState, h: History) {
    Reflects(cfg, codec, st, h) && |st.builder.syms| < cfg.k
  }

  // ---------------------------------------------------------------------------
  // Flushing and ticking
  // ---------------------------------------------------------------------------

  lemma BarePad(cfg: TxConfig, syms: seq<Symbol>)
    requires |syms| <= cfg.k
    ensures BareAll(PadTo(syms, cfg.k, cfg.size)) == PadTo(BareAll(syms), cfg.k, cfg.size)
  {
  }

  /** A flush seals the builder's block, padded with zero symbols. */
  lemma FlushReflects(cfg: TxConfig, codec: FecWrapper.Codec, st: TxState, h: History, now: int)
    requires Reflects(cfg, codec, st, h) && st.builder.id < 0x1_0000_0000
    ensures var (st', ok) := FlushBlock(cfg, codec, st, now);
      && ok && BetweenSteps(cfg, codec, st', SealBlock(cfg, h, st.builder.id))
      && st'.nextPacket == st.nextPacket && st'.builder.id == st.builder.id + 1
  {
    hide CloseBlock, Layout, BareAll, AllFit, WireOf, RowsOf, AllBlocks, HistoryOk, WindowHolds;
    var padded := PadTo(st.builder.syms, cfg.k, cfg.size);
    PadFits(cfg, st.builder.syms);
    BarePad(cfg, st.builder.syms);
    EncodeReflects(cfg, codec, st, h, padded, now);
    AfterClose(cfg, codec, st, padded, now);
  }

  lemma AfterClose(cfg: TxConfig, codec: FecWrapper.Codec, st: TxState, padded: seq<Symbol>, now: int)
    requires TxOk(cfg, st.(builder := st.builder.(syms := padded))) && |padded| == cfg.k
    requires 0 < st.builder.id < 0x1_0000_0000
    ensures var (st', ok) := CloseBlock(cfg, codec, st.(builder := st.builder.(syms := padded)), now);
      ok ==> st'.builder.syms == [] && st'.builder.id == st.builder.id + 1
  {
    hide EncodeAndDrain, TxOk;
  }

  /** The history after the open window is sent part-filled. */
  function SendOpen(h: History): History {
    History(h.sent + [h.open], [], h.current)
  }

  lemma SendOpenKeeps(cfg: TxConfig, h: History)
    requires HistoryOk(cfg, h) && h.open != []
    ensures HistoryOk(cfg, SendOpen(h)) && AllBlocks(SendOpen(h)) == AllBlocks(h)
    ensures AllPackets(SendOpen(h)) == AllPackets(h)
  {
    hide Layout, OneBlock;
    FlatAppend(h.sent, h.open);
    assert AllBlocks(h) + [] == AllBlocks(h);
  }

  /** Whether a tick sends the open window. */
  ghost predicate TickSends(st: TxState, now: int) {
    st.window.rows != [] && Elapsed(st.window.start, now) >= FLUSH_TIMEOUT
  }

  /** The window a tick leaves ready: the open blocks' rows, then padding rows. */
  lemma TickPads(cfg: TxConfig, codec: FecWrapper.Codec, st: TxState, h: History, now: int)
    requires Reflects(cfg, codec, st, h)
    ensures TickSends(st, now) ==> Sendable(cfg, h.open)
    ensures Tick(TxGeometry(cfg), st.window, now) ==
      if TickSends(st, now) then (Window(SentRows(cfg, codec, h.open), st.window.start, true, 0, 0), 1)
      else (st.window, 0)
  {
    hide SymbolsOf, Layout, BareAll, AllFit, WireOf, RowsOf, AllBlocks, FullRow, SealedOk;
    WindowIsWhole(cfg, codec, st.window, h.open);
    TickWhole(TxGeometry(cfg), st.window, now);
  }

  lemma TickReflects(cfg: TxConfig, codec: FecWrapper.Codec, st: TxState, h: History, now: int)
    requires Reflects(cfg, codec, st, h)
    ensures var h' := if TickSends(st, now) then SendOpen(h) else h;
      && Reflects(cfg, codec, TickAndDrain(cfg, st, now), h')
      && AllPackets(h') == AllPackets(h)
      && TickAndDrain(cfg, st, now).nextPacket == st.nextPacket
  {
    hide SymbolsOf, Layout, BareAll, AllFit, WireOf, RowsOf, AllBlocks, AllPackets, SealedOk, Tick, SentRows,
      HistoryOk, OneBlock;
    TickPads(cfg, codec, st, h, now);
    if TickSends(st, now) {
      TickSendsWindow(cfg, codec, st, h, now);
    } else {
      assert st.(window := st.window) == st;
    }
  }

  lemma TickSendsWindow(cfg: TxConfig, codec: FecWrapper.Codec, st: TxState, h: History, now: int)
    requires Reflects(cfg, codec, st, h) && TickSends(st, now)
    ensures Reflects(cfg, codec, TickAndDrain(cfg, st, now), SendOpen(h))
    ensures AllPackets(SendOpen(h)) == AllPackets(h)
    ensures TickAndDrain(cfg, st, now).nextPacket == st.nextPacket
  {
    hide SymbolsOf, Layout, BareAll, AllFit, WireOf, AllBlocks, AllPackets, SealedOk, Tick, SentRows, Drain,
      OneBlock, FitsAll, WellFormed;
    TickPads(cfg, codec, st, h, now);
    Interleaving.TickKeeps(TxGeometry(cfg), st.window, now);
    TickFits(cfg, st.window, now);
    SendOpenKeeps(cfg, h);
    var ready := st.(window := Tick(TxGeometry(cfg), st.window, now).0);
    DrainReflects(cfg, codec, ready, h.sent, h.open);
    DrainKeepsCounter(cfg, ready);
    EmptyLayout(cfg, codec);
  }

  /** A tick leaves the builder alone. */
  lemma TickSettled(cfg: TxConfig, codec: FecWrapper.Codec, st: TxState, h: History, now: int) returns (h': History)
    requires BetweenSteps(cfg, codec, st, h)
    ensures h' == if TickSends(st, now) then SendOpen(h) else h
    ensures BetweenSteps(cfg, codec, TickAndDrain(cfg, st, now), h') && AllPackets(h') == AllPackets(h)
    ensures TickAndDrain(cfg, st, now).nextPacket == st.nextPacket
    ensures TickAndDrain(cfg, st, now).builder == st.builder
  {
    hide Reflects, TickAndDrain, AllPackets;
    h' := if TickSends(st, now) then SendOpen(h) else h;
    TickReflects(cfg, codec, st, h, now);
  }

  // ---------------------------------------------------------------------------
  // Block ids only grow
  // ---------------------------------------------------------------------------

  lemma CloseGrows(cfg: TxConfig, codec: FecWrapper.Codec, st: TxState, now: int)
    requires TxOk(cfg, st) && |st.builder.syms| == cfg.k && 0 < st.builder.id < TWO_TO_64 - 1
    ensures var (st', ok) := CloseBlock(cfg, codec, st, now);
      st'.builder.id == st.builder.id + if ok then 1 else 0
  {
    hide EncodeAndDrain, TxOk;
  }

  lemma FlushGrows(cfg: TxConfig, codec: FecWrapper.Codec, st: TxState, now: int)
    requires TxOk(cfg, st) && 0 < st.builder.id < TWO_TO_64 - 1
    ensures var (st', ok) := FlushBlock(cfg, codec, st, now);
      st'.builder.id == st.builder.id + if ok then 1 else 0
  {
    PadFits(cfg, st.builder.syms);
    CloseGrows(cfg, codec, st.(builder := st.builder.(syms := PadTo(st.builder.syms, cfg.k, cfg.size))), now);
  }

  lemma {:induction false} AddGrows(cfg: TxConfig, codec: FecWrapper.Codec, st: TxState, f: seq<Symbol>, i: nat, now: int)
    requires TxOk(cfg, st) && AllFit(cfg, f) && i <= |f| && 0 < st.builder.id && st.builder.id + |f| - i < TWO_TO_64 - 1
    ensures var (st', ok) := AddFrom(cfg, codec, st, f, i, now);
      st.builder.id <= st'.builder.id <= st.builder.id + |f| - i
    decreases |f| - i
  {
    hide CloseBlock, TickAndDrain, TxOk;
    if i < |f| {
      AddKeepsOk(cfg, st, f, i, now);
      var added := st.(builder := Add(st.builder, f[i], now));
      if |st.builder.syms| == cfg.k {
        AddGrows(cfg, codec, st, f, i + 1, now);
      } else if |added.builder.syms| < cfg.k {
        AddGrows(cfg, codec, added, f, i + 1, now);
      } else {
        CloseGrows(cfg, codec, added, now);
        var (closed, ok) := CloseBlock(cfg, codec, added, now);
        if ok { AddGrows(cfg, codec, TickAndDrain(cfg, closed, now), f, i + 1, now); }
      }
    }
  }

  lemma AddKeepsOk(cfg: TxConfig, st: TxState, f: seq<Symbol>, i: nat, now: int)
    requires TxOk(cfg, st) && AllFit(cfg, f) && i < |f|
    ensures |st.builder.syms| <= cfg.k
    ensures |st.builder.syms| < cfg.k ==> TxOk(cfg, st.(builder := Add(st.builder, f[i], now)))
  {
  }

  // ---------------------------------------------------------------------------
  // Taking a packet
  // ---------------------------------------------------------------------------

  function WithPacket(h: History, p: PacketBytes): History {
    h.(current := h.current + [p])
  }

  /** The fragments fragment_packet makes of a packet that fits in a block. */
  lemma FragmentsAre(cfg: TxConfig, p: PacketBytes, id: uint32)
    requires ValidTx(cfg) && OneBlock(cfg, p)
    ensures FragmentAll(p, id, cfg.size, MaxFrags(cfg)).Some?
    ensures BareAll(FragmentAll(p, id, cfg.size, MaxFrags(cfg)).syms) == Bares(cfg, p)
  {
    var f := FragmentAll(p, id, cfg.size, MaxFrags(cfg)).syms;
    forall i | 0 <= i < |f| ensures BareAll(f)[i] == Bares(cfg, p)[i] {
      assert f[i] == Fragment(p, id, cfg.size, i);
    }
  }

  /** The first i fragments of p are in the builder, after what the history has in hand. */
  ghost predicate Midway(cfg: TxConfig, codec: FecWrapper.Codec, st: TxState, h: History, p: PacketBytes, i: nat) {
    && TxOk(cfg, st) && HistoryOk(cfg, h) && OneBlock(cfg, p) && i <= |Bares(cfg, p)|
    && |Layout(cfg, h.current)| + |Bares(cfg, p)| <= cfg.k
    && st.builder.id == |AllBlocks(h)| + 1
    && BareAll(st.builder.syms) == Layout(cfg, h.current) + Bares(cfg, p)[..i]
    && WindowHolds(cfg, codec, st.window, h.open)
    && st.wire == WireOf(cfg, codec, h.sent)
  }

  lemma StartMidway(cfg: TxConfig, codec: FecWrapper.Codec, st: TxState, h: History, p: PacketBytes)
    requires Reflects(cfg, codec, st, h) && OneBlock(cfg, p)
    requires |st.builder.syms| + |Bares(cfg, p)| <= cfg.k
    ensures Midway(cfg, codec, st, h, p, 0)
  {
    assert |BareAll(st.builder.syms)| == |st.builder.syms|;
    assert Layout(cfg, h.current) + Bares(cfg, p)[..0] == Layout(cfg, h.current);
  }

  lemma WithPacketOk(cfg: TxConfig, h: History, p: PacketBytes)
    requires HistoryOk(cfg, h) && OneBlock(cfg, p) && |Layout(cfg, h.current)| + |Bares(cfg, p)| <= cfg.k
    ensures HistoryOk(cfg, WithPacket(h, p)) && AllBlocks(WithPacket(h, p)) == AllBlocks(h)
    ensures Layout(cfg, WithPacket(h, p).current) == Layout(cfg, h.current) + Bares(cfg, p)
    ensures AllPackets(WithPacket(h, p)) == AllPackets(h) + [p]
  {
    hide Bares, OneBlock;
    var ps := h.current + [p];
    assert ps[..|ps| - 1] == h.current && ps[|ps| - 1] == p;
    assert PacketsOf(AllBlocks(h)) + h.current + [p] == PacketsOf(AllBlocks(h)) + ps;
  }

  lemma EndMidway(cfg: TxConfig, codec: FecWrapper.Codec, st: TxState, h: History, p: PacketBytes)
    requires ValidTx(cfg) && OneBlock(cfg, p) && Midway(cfg, codec, st, h, p, |Bares(cfg, p)|)
    ensures Reflects(cfg, codec, st, WithPacket(h, p))
  {
    hide Layout, Bares, AllBlocks, AllPackets, WireOf, TxOk, BareAll;
    WithPacketOk(cfg, h, p);
    assert Bares(cfg, p)[..|Bares(cfg, p)|] == Bares(cfg, p);
  }

  lemma BareAppend(syms: seq<Symbol>, s: Symbol)
    ensures BareAll(syms + [s]) == BareAll(syms) + [Bare(s)]
  {
  }

  lemma NextFragment(l: seq<Symbol>, b: seq<Symbol>, f: seq<Symbol>, i: nat)
    requires BareAll(f) == b && i < |f|
    ensures l + b[..i] + [Bare(f[i])] == l + b[..i + 1]
  {
    assert BareAll(f)[i] == b[i];
    assert b[..i + 1] == b[..i] + [b[i]];
  }

  lemma AddMidway(cfg: TxConfig, codec: FecWrapper.Codec, st: TxState, h: History, p: PacketBytes, f: seq<Symbol>, i: nat, now: int)
    requires ValidTx(cfg) && OneBlock(cfg, p)
    requires Midway(cfg, codec, st, h, p, i) && BareAll(f) == Bares(cfg, p) && AllFit(cfg, f) && i < |f|
    ensures |st.builder.syms| < cfg.k
    ensures Midway(cfg, codec, st.(builder := Add(st.builder, f[i], now)), h, p, i + 1)
  {
    var l := Layout(cfg, h.current);
    hide Layout, Bares, AllBlocks, WireOf, HistoryOk, WindowHolds, OneBlock, TxOk, BareAll, AllFit;
    assert |BareAll(st.builder.syms)| == |st.builder.syms|;
    AddKeepsOk(cfg, st, f, i, now);
    BareAppend(st.builder.syms, f[i]);
    NextFragment(l, Bares(cfg, p), f, i);
  }

  /** The builder fills up exactly at the packet's last fragment: its block is closed with the packet in it. */
  lemma CloseFull(cfg: TxConfig, codec: FecWrapper.Codec, st: TxState, h: History, p: PacketBytes, now: int)
    requires ValidTx(cfg) && OneBlock(cfg, p) && Midway(cfg, codec, st, h, p, |Bares(cfg, p)|)
    requires |st.builder.syms| == cfg.k && st.builder.id < 0x1_0000_0000
    ensures var (st', ok) := CloseBlock(cfg, codec, st, now);
      && ok && BetweenSteps(cfg, codec, st', SealBlock(cfg, WithPacket(h, p), st.builder.id))
      && st'.builder.syms == [] && st'.builder.id == st.builder.id + 1
      && st'.nextPacket == st.nextPacket
      && AllPackets(SealBlock(cfg, WithPacket(h, p), st.builder.id)) == AllPackets(h) + [p]
  {
    hide Layout, Bares, BareAll, AllBlocks, WireOf, HistoryOk, WindowHolds, CloseBlock, AllPackets, AllFit;
    EndMidway(cfg, codec, st, h, p);
    MidwayPacks(cfg, codec, st, h, p);
    var h1 := WithPacket(h, p);
    var full := st.builder.syms;
    assert st.(builder := st.builder.(syms := full)) == st;
    FullLayout(cfg, codec, st, h1);
    SealKeepsPackets(cfg, h1, st.builder.id);
    EncodeReflects(cfg, codec, st, h1, full, now);
    AfterClose(cfg, codec, st, full, now);
  }

  lemma FullLayout(cfg: TxConfig, codec: FecWrapper.Codec, st: TxState, h: History)
    requires Reflects(cfg, codec, st, h) && |st.builder.syms| == cfg.k && st.builder.id < 0x1_0000_0000
    ensures Filled(cfg, st, h, st.builder.syms)
  {
    hide Layout, WireOf, AllBlocks;
    assert |BareAll(st.builder.syms)| == |st.builder.syms|;
  }

  lemma MidwayPacks(cfg: TxConfig, codec: FecWrapper.Codec, st: TxState, h: History, p: PacketBytes)
    requires ValidTx(cfg) && OneBlock(cfg, p) && Midway(cfg, codec, st, h, p, |Bares(cfg, p)|)
    ensures AllPackets(WithPacket(h, p)) == AllPackets(h) + [p]
  {
    WithPacketOk(cfg, h, p);
  }

  /** The fragment loop puts all of a packet's fragments in one block, closing it if that fills it. */
  lemma {:induction false} AddReflects(cfg: TxConfig, codec: FecWrapper.Codec, st: TxState, h: History, p: PacketBytes,
                                       f: seq<Symbol>, i: nat, now: int) returns (h': History)
    requires ValidTx(cfg) && OneBlock(cfg, p)
    requires Midway(cfg, codec, st, h, p, i) && BareAll(f) == Bares(cfg, p) && AllFit(cfg, f)
    requires st.builder.id < 0x1_0000_0000
    requires i == |f| ==> |st.builder.syms| < cfg.k
    ensures var (st', ok) := AddFrom(cfg, codec, st, f, i, now);
      && ok && BetweenSteps(cfg, codec, st', h') && AllPackets(h') == AllPackets(h) + [p]
      && st'.nextPacket == st.nextPacket
    decreases |f| - i
  {
    hide Layout, Bares, BareAll, AllBlocks, WireOf, HistoryOk, WindowHolds, CloseBlock, AllPackets, AllFit, TxOk,
      TickAndDrain, OneBlock, Midway, Reflects;
    MidwayFits(cfg, codec, st, h, p, i);
    assert |BareAll(f)| == |f|;
    if i == |f| {
      h' := WithPacket(h, p);
      EndMidway(cfg, codec, st, h, p);
      MidwayPacks(cfg, codec, st, h, p);
    } else {
      AddMidway(cfg, codec, st, h, p, f, i, now);
      var added := st.(builder := Add(st.builder, f[i], now));
      MidwayFits(cfg, codec, added, h, p, i + 1);
      if |added.builder.syms| < cfg.k {
        h' := AddReflects(cfg, codec, added, h, p, f, i + 1, now);
      } else {
        FullAtLast(cfg, codec, added, h, p, i + 1);
        CloseFull(cfg, codec, added, h, p, now);
        var closed := CloseBlock(cfg, codec, added, now).0;
        h' := TickSettled(cfg, codec, closed, SealBlock(cfg, WithPacket(h, p), added.builder.id), now);
      }
    }
  }

  lemma MidwayFits(cfg: TxConfig, codec: FecWrapper.Codec, st: TxState, h: History, p: PacketBytes, i: nat)
    requires Midway(cfg, codec, st, h, p, i)
    ensures ValidTx(cfg) && OneBlock(cfg, p) && TxOk(cfg, st) && |st.builder.syms| <= cfg.k
    ensures i <= |Bares(cfg, p)|
  {
  }

  lemma FullAtLast(cfg: TxConfig, codec: FecWrapper.Codec, st: TxState, h: History, p: PacketBytes, i: nat)
    requires ValidTx(cfg) && OneBlock(cfg, p)
    requires Midway(cfg, codec, st, h, p, i) && |st.builder.syms| == cfg.k
    ensures i == |Bares(cfg, p)|
  {
    assert |BareAll(st.builder.syms)| == |st.builder.syms|;
  }

  // ---------------------------------------------------------------------------
  // One step
  // ---------------------------------------------------------------------------

  /** A flush on timeout seals what is in hand. */
  lemma TimeoutSettled(cfg: TxConfig, codec: FecWrapper.Codec, st: TxState, h: History, now: int) returns (h': History)
    requires BetweenSteps(cfg, codec, st, h) && st.builder.id < 0x1_0000_0000
    ensures h' == if TimedOut(st.builder, BLOCK_TIMEOUT, now) then SealBlock(cfg, h, st.builder.id) else h
    ensures var (st', ok) := FlushIfTimedOut(cfg, codec, st, now);
      && ok && BetweenSteps(cfg, codec, st', h') && AllPackets(h') == AllPackets(h)
      && st'.nextPacket == st.nextPacket
  {
    hide Reflects, FlushBlock, AllPackets;
    h' := h;
    if TimedOut(st.builder, BLOCK_TIMEOUT, now) {
      h' := SealBlock(cfg, h, st.builder.id);
      SealKeepsPackets(cfg, h, st.builder.id);
      FlushReflects(cfg, codec, st, h, now);
    }
  }

  /** Room is made by sealing what is in hand; then the whole packet fits. */
  lemma RoomSettled(cfg: TxConfig, codec: FecWrapper.Codec, st: TxState, h: History, frags: nat, now: int)
    returns (h': History)
    requires BetweenSteps(cfg, codec, st, h) && st.builder.id < 0x1_0000_0000 && frags <= cfg.k
    ensures var (st', ok) := MakeRoom(cfg, codec, st, frags, now);
      && ok && BetweenSteps(cfg, codec, st', h') && AllPackets(h') == AllPackets(h)
      && st'.nextPacket == st.nextPacket && |st'.builder.syms| + frags <= cfg.k
      && st.builder.id <= st'.builder.id <= st.builder.id + 1
  {
    hide Reflects, FlushBlock, AllPackets, TickAndDrain;
    h' := h;
    ReflectsOk(cfg, codec, st, h);
    if frags > 0 && st.builder.syms != [] && |st.builder.syms| + frags > cfg.k {
      SealKeepsPackets(cfg, h, st.builder.id);
      FlushReflects(cfg, codec, st, h, now);
      FlushEmpties(cfg, codec, st, h, now);
      h' := TickSettled(cfg, codec, FlushBlock(cfg, codec, st, now).0, SealBlock(cfg, h, st.builder.id), now);
    }
  }

  lemma FlushEmpties(cfg: TxConfig, codec: FecWrapper.Codec, st: TxState, h: History, now: int)
    requires TxOk(cfg, st) && 0 < st.builder.id < 0x1_0000_0000
    ensures var (st', ok) := FlushBlock(cfg, codec, st, now); ok ==> st'.builder.syms == []
  {
    PadFits(cfg, st.builder.syms);
    AfterClose(cfg, codec, st, PadTo(st.builder.syms, cfg.k, cfg.size), now);
  }

  /** The packets of an input that are carried: an empty packet has no fragment. */
  function Carried(input: Input): seq<PacketBytes> {
    if input.Lan? && input.packet != [] then [input.packet] else []
  }

  /** Every packet has at most k fragments. */
  ghost predicate FitsBlock(cfg: TxConfig, input: Input)
    requires ValidTx(cfg)
  {
    input.Lan? ==> Count(|input.packet|, cfg.size) <= cfg.k
  }

  lemma AddsNothing(cfg: TxConfig, codec: FecWrapper.Codec, st: TxState, f: seq<Symbol>, now: int)
    requires TxOk(cfg, st) && AllFit(cfg, f) && BareAll(f) == []
    ensures AddFrom(cfg, codec, st, f, 0, now) == (st, true)
  {
    assert |BareAll(f)| == |f|;
  }

  lemma AddsPacket(cfg: TxConfig, codec: FecWrapper.Codec, st: TxState, h: History, p: PacketBytes, f: seq<Symbol>, now: int)
    returns (h': History)
    requires BetweenSteps(cfg, codec, st, h) && st.builder.id < 0x1_0000_0000 && AllFit(cfg, f)
    requires p == [] || OneBlock(cfg, p)
    requires BareAll(f) == if p == [] then [] else Bares(cfg, p)
    requires |st.builder.syms| + |f| <= cfg.k
    ensures var (st', ok) := AddFrom(cfg, codec, st, f, 0, now);
      && ok && BetweenSteps(cfg, codec, st', h') && AllPackets(h') == AllPackets(h) + Carried(Lan(p))
      && st'.nextPacket == st.nextPacket
  {
    hide AllPackets, BareAll, Bares, AllFit, OneBlock;
    assert |BareAll(f)| == |f|;
    if p == [] {
      hide BetweenSteps, AddFrom;
      AddsNothing(cfg, codec, st, f, now);
      h' := h;
      assert AllPackets(h) + [] == AllPackets(h);
    } else {
      StartMidway(cfg, codec, st, h, p);
      hide Reflects, AddFrom;
      h' := AddReflects(cfg, codec, st, h, p, f, 0, now);
    }
  }

  lemma TakeReflects(cfg: TxConfig, codec: FecWrapper.Codec, st: TxState, h: History, p: PacketBytes, f: seq<Symbol>, now: int)
    returns (h': History)
    requires BetweenSteps(cfg, codec, st, h) && st.builder.id < 0x1_0000_0000 && AllFit(cfg, f)
    requires p == [] || OneBlock(cfg, p)
    requires BareAll(f) == if p == [] then [] else Bares(cfg, p)
    requires TakePacket(cfg, codec, st, f, now).0.builder.id < 0x1_0000_0000
    ensures var (st', ok) := TakePacket(cfg, codec, st, f, now);
      && ok && BetweenSteps(cfg, codec, st', h') && AllPackets(h') == AllPackets(h) + Carried(Lan(p))
      && st'.nextPacket == st.nextPacket
  {
    hide Reflects, AllPackets, BareAll, Bares, AllFit, MakeRoom, AddFrom, FlushIfTimedOut, Carried;
    assert |BareAll(f)| == |f| <= cfg.k;
    ReflectsOk(cfg, codec, st, h);
    var h1 := RoomSettled(cfg, codec, st, h, |f|, now);
    var roomy := MakeRoom(cfg, codec, st, |f|, now).0;
    ReflectsOk(cfg, codec, roomy, h1);
    AddGrows(cfg, codec, roomy, f, 0, now);
    var added := AddFrom(cfg, codec, roomy, f, 0, now).0;
    TimeoutGrows(cfg, codec, added, now);
    var h2 := AddsPacket(cfg, codec, roomy, h1, p, f, now);
    h' := TimeoutSettled(cfg, codec, added, h2, now);
  }

  lemma ReflectsOk(cfg: TxConfig, codec: FecWrapper.Codec, st: TxState, h: History)
    requires Reflects(cfg, codec, st, h)
    ensures TxOk(cfg, st) && 0 < st.builder.id && ValidTx(cfg)
  {
  }

  lemma TimeoutGrows(cfg: TxConfig, codec: FecWrapper.Codec, st: TxState, now: int)
    requires TxOk(cfg, st) && 0 < st.builder.id < TWO_TO_64 - 1
    ensures st.builder.id <= FlushIfTimedOut(cfg, codec, st, now).0.builder.id <= st.builder.id + 1
  {
    FlushGrows(cfg, codec, st, now);
  }

  /** One call of run_once extends the history by the packet it carried, and never fails. */
  lemma StepReflects(cfg: TxConfig, codec: FecWrapper.Codec, st: TxState, h: History, input: Input, now: int)
    returns (h': History)
    requires BetweenSteps(cfg, codec, st, h) && st.builder.id < 0x1_0000_0000 && FitsBlock(cfg, input)
    requires RunOnce(cfg, codec, st, input, now).0.builder.id < 0x1_0000_0000
    ensures var (st', ok) := RunOnce(cfg, codec, st, input, now);
      ok && BetweenSteps(cfg, codec, st', h') && AllPackets(h') == AllPackets(h) + Carried(input)
  {
    hide Reflects, AllPackets, FlushIfTimedOut, TickAndDrain, TakePacket, FragmentAll;
    ReflectsOk(cfg, codec, st, h);
    match input
    case Idle =>
      var h1 := TimeoutSettled(cfg, codec, st, h, now);
      h' := TickSettled(cfg, codec, FlushIfTimedOut(cfg, codec, st, now).0, h1, now);
      assert AllPackets(h) + [] == AllPackets(h);
    case NotForwarded =>
      h' := h;
      assert AllPackets(h) + [] == AllPackets(h);
    case Lan(p) =>
      PacketFragments(cfg, p, st.nextPacket);
      var f := FragmentAll(p, st.nextPacket, cfg.size, MaxFrags(cfg)).syms;
      FragmentsFit(cfg, p, st.nextPacket);
      var counted := st.(nextPacket := (st.nextPacket + 1) % 0x1_0000_0000);
      CounterIgnored(cfg, codec, st, counted, h);
      var h1 := TakeReflects(cfg, codec, counted, h, p, f, now);
      h' := TickSettled(cfg, codec, TakePacket(cfg, codec, counted, f, now).0, h1, now);
  }

  lemma CounterIgnored(cfg: TxConfig, codec: FecWrapper.Codec, st: TxState, st': TxState, h: History)
    requires BetweenSteps(cfg, codec, st, h) && st' == st.(nextPacket := st'.nextPacket)
    ensures BetweenSteps(cfg, codec, st', h)
  {
  }

  lemma PacketFragments(cfg: TxConfig, p: PacketBytes, id: uint32)
    requires ValidTx(cfg) && Count(|p|, cfg.size) <= cfg.k
    ensures FragmentAll(p, id, cfg.size, MaxFrags(cfg)).Some?
    ensures p == [] || OneBlock(cfg, p)
    ensures BareAll(FragmentAll(p, id, cfg.size, MaxFrags(cfg)).syms) == if p == [] then [] else Bares(cfg, p)
  {
    if p == [] {
      CountZero(cfg.size);
    } else {
      FragmentsAre(cfg, p, id);
    }
  }

  // ---------------------------------------------------------------------------
  // Runs
  // ---------------------------------------------------------------------------

  datatype TxEvent = TxEvent(input: Input, now: int)

  ghost function TxRun(cfg: TxConfig, codec: FecWrapper.Codec, es: seq<TxEvent>): (st: TxState)
    requires ValidTx(cfg)
    ensures TxOk(cfg, st)
  {
    if es == [] then
      InitialOk(cfg);
      InitialTx
    else
      var e := es[|es| - 1];
      RunOnce(cfg, codec, TxRun(cfg, codec, es[..|es| - 1]), e.input, e.now).0
  }

  /** Every call returned 0. */
  ghost predicate NeverFails(cfg: TxConfig, codec: FecWrapper.Codec, es: seq<TxEvent>)
    requires ValidTx(cfg)
  {
    es == [] ||
      var e := es[|es| - 1];
      NeverFails(cfg, codec, es[..|es| - 1])
      && RunOnce(cfg, codec, TxRun(cfg, codec, es[..|es| - 1]), e.input, e.now).1
  }

  function CarriedAll(es: seq<TxEvent>): seq<PacketBytes> {
    if es == [] then [] else CarriedAll(es[..|es| - 1]) + Carried(es[|es| - 1].input)
  }

  /** Every packet has at most k fragments, and the block id stays below 2 to the 32 throughout. */
  ghost predicate InBounds(cfg: TxConfig, codec: FecWrapper.Codec, es: seq<TxEvent>)
    requires ValidTx(cfg)
  {
    && TxRun(cfg, codec, es).builder.id < 0x1_0000_0000
    && (es != [] ==> FitsBlock(cfg, es[|es| - 1].input) && InBounds(cfg, codec, es[..|es| - 1]))
  }

  /**
   Over every run the pipeline reflects a history of whole packets in numbered blocks and whole
   blocks in sent windows, which together are exactly the packets taken, in order; the interleaver
   is never ready between steps and no call fails.
   */
  lemma {:induction false} PackingTheorem(cfg: TxConfig, codec: FecWrapper.Codec, es: seq<TxEvent>) returns (h: History)
    requires ValidTx(cfg) && InBounds(cfg, codec, es)
    ensures BetweenSteps(cfg, codec, TxRun(cfg, codec, es), h)
    ensures AllPackets(h) == CarriedAll(es)
    ensures NeverFails(cfg, codec, es)
  {
    if es == [] {
      h := NoHistory;
      InitiallyReflects(cfg, codec);
      NothingYet();
    } else {
      hide BetweenSteps, AllPackets, RunOnce, FitsBlock, Carried;
      var before, e := es[..|es| - 1], es[|es| - 1];
      var h0 := PackingTheorem(cfg, codec, before);
      h := StepReflects(cfg, codec, TxRun(cfg, codec, before), h0, e.input, e.now);
    }
  }

  lemma NothingYet()
    ensures AllPackets(NoHistory) == CarriedAll([]) == []
  {
  }

  // ---------------------------------------------------------------------------
  // Where fragments sit
  // ---------------------------------------------------------------------------

  lemma {:induction false} LayoutPrefix(cfg: TxConfig, ps: seq<PacketBytes>, q: nat)
    requires ValidTx(cfg) && (forall i :: 0 <= i < |ps| ==> OneBlock(cfg, ps[i])) && q < |ps|
    ensures |Layout(cfg, ps[..q])| + |Bares(cfg, ps[q])| <= |Layout(cfg, ps)|
    ensures forall i :: 0 <= i < |Bares(cfg, ps[q])| ==>
              Layout(cfg, ps)[|Layout(cfg, ps[..q])| + i] == Bares(cfg, ps[q])[i]
  {
    hide OneBlock, Bares;
    var rest := ps[..|ps| - 1];
    if q < |rest| {
      LayoutPrefix(cfg, rest, q);
      assert rest[..q] == ps[..q];
    }
  }

  /** Fragment i of a block's packet q: consecutive positions, one fragment each. */
  lemma PacketPosition(cfg: TxConfig, codec: FecWrapper.Codec, b: Sealed, q: nat, i: nat)
    requires SealedOk(cfg, b) && q < |b.packets| && i < Count(|b.packets[q]|, cfg.size)
    ensures var at := |Layout(cfg, b.packets[..q])| + i;
      && at < cfg.k
      && Bare(SymbolsOf(cfg, codec, b)[at]).(crc := 0) == Bare(Fragment(b.packets[q], 0, cfg.size, i))
      && SymbolsOf(cfg, codec, b)[at].packetId == b.id && SymbolsOf(cfg, codec, b)[at].fecId == at
  {
    hide Layout;
    LayoutPrefix(cfg, b.packets, q);
    LayoutFits(cfg, b.packets);
  }

  /** Positions past the layout carry no payload and zero data, under the block's id. */
  lemma UnusedPosition(cfg: TxConfig, codec: FecWrapper.Codec, b: Sealed, at: nat)
    requires SealedOk(cfg, b) && |Layout(cfg, b.packets)| <= at < cfg.k
    ensures SymbolsOf(cfg, codec, b)[at].len == 0
    ensures SymbolsOf(cfg, codec, b)[at].data == Zeros(cfg.size)
    ensures SymbolsOf(cfg, codec, b)[at].packetId == b.id != 0
  {
    hide Layout;
    LayoutFits(cfg, b.packets);
  }

  // ---------------------------------------------------------------------------
  // Packets longer than a block
  // ---------------------------------------------------------------------------

  /** Some accepted packet needs more than one block exactly when the longest packet does. */
  lemma StraddlersExist(cfg: TxConfig)
    requires ValidTx(cfg)
    ensures (exists len: nat :: Fragmentable(len, cfg.size, MaxFrags(cfg)) && Count(len, cfg.size) > cfg.k)
            <==> Count(TX_MAX_PACKET_LEN, cfg.size) > cfg.k
  {
    CountWithin(TX_MAX_PACKET_LEN, cfg.size, TX_MAX_PACKET_LEN);
    Arithmetic.MulMono(TX_MAX_PACKET_LEN, 1, cfg.size);
    if Count(TX_MAX_PACKET_LEN, cfg.size) > cfg.k {
      assert Fragmentable(TX_MAX_PACKET_LEN, cfg.size, MaxFrags(cfg));
    }
  }

  /** The builder after the next j of the fragments. */
  function Loaded(st: TxState, f: seq<Symbol>, i: nat, j: nat, now: int): TxState
    requires i + j <= |f|
  {
    if j == 0 then st
    else
      var before := Loaded(st, f, i, j - 1, now);
      before.(builder := Add(before.builder, f[i + j - 1], now))
  }

  lemma {:induction false} LoadedHolds(cfg: TxConfig, st: TxState, f: seq<Symbol>, j: nat, now: int)
    requires TxOk(cfg, st) && AllFit(cfg, f) && j <= |f| && |st.builder.syms| + j <= cfg.k
    ensures TxOk(cfg, Loaded(st, f, 0, j, now))
    ensures Loaded(st, f, 0, j, now).builder.syms == st.builder.syms + f[..j]
  {
    hide TxOk, AllFit;
    if j > 0 {
      LoadedHolds(cfg, st, f, j - 1, now);
      AddKeepsOk(cfg, Loaded(st, f, 0, j - 1, now), f, j - 1, now);
      assert f[..j] == f[..j - 1] + [f[j - 1]];
    }
  }

  lemma {:induction false} AddLoads(cfg: TxConfig, codec: FecWrapper.Codec, st: TxState, f: seq<Symbol>, j: nat, now: int)
    requires TxOk(cfg, st) && AllFit(cfg, f) && st.builder.syms == [] && j < cfg.k < |f|
    ensures TxOk(cfg, Loaded(st, f, 0, j, now))
    ensures AddFrom(cfg, codec, st, f, 0, now) == AddFrom(cfg, codec, Loaded(st, f, 0, j, now), f, j, now)
  {
    hide TxOk, AllFit, CloseBlock, TickAndDrain;
    if j > 0 {
      LoadedHolds(cfg, st, f, j - 1, now);
      LoadedHolds(cfg, st, f, j, now);
      AddLoads(cfg, codec, st, f, j - 1, now);
    } else {
      assert Loaded(st, f, 0, 0, now) == st;
    }
  }

  /** A packet of more than k fragments is split: its first k fragments are sealed as a block of their own. */
  lemma LongPacketSplits(cfg: TxConfig, codec: FecWrapper.Codec, st: TxState, f: seq<Symbol>, now: int)
    requires TxOk(cfg, st) && AllFit(cfg, f) && st.builder.syms == [] && cfg.k < |f|
    ensures var full := Loaded(st, f, 0, cfg.k, now);
      && TxOk(cfg, full) && full.builder.syms == f[..cfg.k]
      && var (closed, ok) := CloseBlock(cfg, codec, full, now);
      AddFrom(cfg, codec, st, f, 0, now)
        == if ok then AddFrom(cfg, codec, TickAndDrain(cfg, closed, now), f, cfg.k, now) else (closed, false)
  {
    hide TxOk, AllFit, CloseBlock, TickAndDrain;
    SizesKnown(cfg, st);
    AddLoads(cfg, codec, st, f, cfg.k - 1, now);
    LoadedHolds(cfg, st, f, cfg.k - 1, now);
    LoadedHolds(cfg, st, f, cfg.k, now);
  }

  lemma SizesKnown(cfg: TxConfig, st: TxState)
    requires TxOk(cfg, st)
    ensures ValidTx(cfg)
  {
  }
}
