/**
 What the transmit pipeline has done, in terms of the packets it was given: which packets each block
 carries, which blocks each sent window carries, and what is still waiting.
 */
module TxHistory {
  import opened Types
  import opened BlockBuilding
  import opened Fragmentation
  import FecWrapper
  import opened Interleaving
  import opened InterleaverWindows
  import opened TxSpec
  import opened WholeBlocks

  type PacketBytes = seq<byte>

  /** One encoded block: its id and the packets whose fragments it holds. */
  datatype Sealed = Sealed(id: nat, packets: seq<PacketBytes>)

  /** Windows already sent, blocks in the open window, and packets in the builder. */
  datatype History = History(sent: seq<seq<Sealed>>, open: seq<Sealed>, current: seq<PacketBytes>)

  const NoHistory := History([], [], [])

  /** A packet that fits in one block. */
  ghost predicate OneBlock(cfg: TxConfig, p: PacketBytes)
    requires ValidTx(cfg)
  {
    0 < |p| && Count(|p|, cfg.size) <= cfg.k
  }

  // ---------------------------------------------------------------------------
  // Layout
  // ---------------------------------------------------------------------------

  /** What encoding keeps of a builder symbol. */
  function Bare(s: Symbol): Symbol {
    s.(packetId := 0, fecId := 0)
  }

  function BareAll(syms: seq<Symbol>): (b: seq<Symbol>)
    ensures |b| == |syms| && forall i :: 0 <= i < |b| ==> b[i] == Bare(syms[i])
  {
    seq(|syms|, i requires 0 <= i < |syms| => Bare(syms[i]))
  }

  /** A packet's fragments, bare. */
  function Bares(cfg: TxConfig, p: PacketBytes): (f: seq<Symbol>)
    requires ValidTx(cfg) && OneBlock(cfg, p)
    ensures |f| == Count(|p|, cfg.size) <= cfg.k
    ensures forall i :: 0 <= i < |f| ==> f[i] == Bare(Fragment(p, 0, cfg.size, i))
  {
    seq(Count(|p|, cfg.size), i requires 0 <= i < Count(|p|, cfg.size) => Bare(Fragment(p, 0, cfg.size, i)))
  }

  /** The packets' fragments at consecutive positions. */
  function Layout(cfg: TxConfig, ps: seq<PacketBytes>): (l: seq<Symbol>)
    requires ValidTx(cfg) && forall i :: 0 <= i < |ps| ==> OneBlock(cfg, ps[i])
  {
    if ps == [] then [] else Layout(cfg, ps[..|ps| - 1]) + Bares(cfg, ps[|ps| - 1])
  }

  /** Every packet fits in a block, and all of them together do. */
  ghost predicate Packed(cfg: TxConfig, ps: seq<PacketBytes>) {
    && ValidTx(cfg)
    && (forall i :: 0 <= i < |ps| ==> OneBlock(cfg, ps[i]))
    && |Layout(cfg, ps)| <= cfg.k
  }

  lemma BaresFit(cfg: TxConfig, p: PacketBytes)
    requires ValidTx(cfg) && OneBlock(cfg, p)
    ensures AllFit(cfg, Bares(cfg, p))
  {
    forall i | 0 <= i < Count(|p|, cfg.size) ensures Fits(cfg, Bare(Fragment(p, 0, cfg.size, i))) {
      CountBounds(|p|, cfg.size, i);
    }
  }

  lemma {:induction false} LayoutFits(cfg: TxConfig, ps: seq<PacketBytes>)
    requires ValidTx(cfg) && forall i :: 0 <= i < |ps| ==> OneBlock(cfg, ps[i])
    ensures AllFit(cfg, Layout(cfg, ps))
  {
    if ps != [] {
      LayoutFits(cfg, ps[..|ps| - 1]);
      BaresFit(cfg, ps[|ps| - 1]);
    }
  }

  // ---------------------------------------------------------------------------
  // Blocks and windows
  // ---------------------------------------------------------------------------

  ghost predicate SealedOk(cfg: TxConfig, b: Sealed) {
    Packed(cfg, b.packets) && 1 <= b.id < 0x1_0000_0000
  }

  /** The source symbols of a block: the layout, then zero symbols. */
  ghost function Sources(cfg: TxConfig, b: Sealed): (s: seq<Symbol>)
    requires SealedOk(cfg, b)
    ensures |s| == cfg.k && AllFit(cfg, s)
  {
    LayoutFits(cfg, b.packets);
    PadFits(cfg, Layout(cfg, b.packets));
    PadTo(Layout(cfg, b.packets), cfg.k, cfg.size)
  }

  /** The symbols a block puts on the wire. */
  ghost function SymbolsOf(cfg: TxConfig, codec: FecWrapper.Codec, b: Sealed): (s: seq<Symbol>)
    requires SealedOk(cfg, b)
    ensures AllFit(cfg, s) && BlockLike(TxGeometry(cfg), s, b.id)
  {
    BlockSymbols(cfg, codec, Sources(cfg, b), b.id)
  }

  ghost predicate AllSealed(cfg: TxConfig, bs: seq<Sealed>) {
    forall r :: 0 <= r < |bs| ==> SealedOk(cfg, bs[r])
  }

  ghost function RowsOf(cfg: TxConfig, codec: FecWrapper.Codec, bs: seq<Sealed>): (rows: seq<Row>)
    requires AllSealed(cfg, bs)
    ensures |rows| == |bs|
    ensures forall r :: 0 <= r < |bs| ==> rows[r] == RowOf(SymbolsOf(cfg, codec, bs[r]), bs[r].id)
  {
    seq(|bs|, r requires 0 <= r < |bs| => RowOf(SymbolsOf(cfg, codec, bs[r]), bs[r].id))
  }

  /** A window that can be sent: between one and depth blocks. */
  ghost predicate Sendable(cfg: TxConfig, bs: seq<Sealed>) {
    ValidTx(cfg) && 1 <= |bs| <= cfg.depth && AllSealed(cfg, bs)
  }

  ghost function SentRows(cfg: TxConfig, codec: FecWrapper.Codec, bs: seq<Sealed>): (rows: seq<Row>)
    requires Sendable(cfg, bs)
    ensures Complete(TxGeometry(cfg), rows)
  {
    var g := TxGeometry(cfg);
    var rows := Padded(g, RowsOf(cfg, codec, bs));
    SentComplete(cfg, codec, bs);
    rows
  }

  lemma SentComplete(cfg: TxConfig, codec: FecWrapper.Codec, bs: seq<Sealed>)
    requires Sendable(cfg, bs)
    ensures Complete(TxGeometry(cfg), Padded(TxGeometry(cfg), RowsOf(cfg, codec, bs)))
  {
    var g := TxGeometry(cfg);
    var rows := Padded(g, RowsOf(cfg, codec, bs));
    forall r, c | 0 <= r < g.depth && 0 <= c < g.n ensures c in rows[r].cells {
      if r >= |bs| { PaddingIsErased(g, c); }
    }
  }

  /** What the windows sent so far put on the wire. */
  ghost function WireOf(cfg: TxConfig, codec: FecWrapper.Codec, ws: seq<seq<Sealed>>): seq<Symbol>
    requires ValidTx(cfg) && forall w :: 0 <= w < |ws| ==> Sendable(cfg, ws[w])
  {
    if ws == [] then []
    else WireOf(cfg, codec, ws[..|ws| - 1]) + Drained(TxGeometry(cfg), SentRows(cfg, codec, ws[|ws| - 1]))
  }

  /** All blocks of the sent windows, in order. */
  function Flat(ws: seq<seq<Sealed>>): seq<Sealed> {
    if ws == [] then [] else Flat(ws[..|ws| - 1]) + ws[|ws| - 1]
  }

  /** The packets of a sequence of blocks, in order. */
  function PacketsOf(bs: seq<Sealed>): seq<PacketBytes> {
    if bs == [] then [] else PacketsOf(bs[..|bs| - 1]) + bs[|bs| - 1].packets
  }

  function AllBlocks(h: History): seq<Sealed> {
    Flat(h.sent) + h.open
  }

  /** Every packet taken so far, in order. */
  function AllPackets(h: History): seq<PacketBytes> {
    PacketsOf(AllBlocks(h)) + h.current
  }

  /** Block ids count up from one. */
  ghost predicate Numbered(bs: seq<Sealed>) {
    forall j :: 0 <= j < |bs| ==> bs[j].id == j + 1
  }

  ghost predicate HistoryOk(cfg: TxConfig, h: History) {
    && ValidTx(cfg)
    && (forall w :: 0 <= w < |h.sent| ==> Sendable(cfg, h.sent[w]))
    && |h.open| < cfg.depth && AllSealed(cfg, h.open)
    && Packed(cfg, h.current)
    && Numbered(AllBlocks(h))
  }

  /** The window half of the relation: whole blocks, in rows of their own. */
  ghost predicate WindowHolds(cfg: TxConfig, codec: FecWrapper.Codec, w: Window, open: seq<Sealed>)
    requires AllSealed(cfg, open)
  {
    !w.ready && w.popCol == w.popRow == 0 && w.rows == RowsOf(cfg, codec, open)
  }

  /** The state of the pipeline is the one this history leads to. */
  ghost predicate Reflects(cfg: TxConfig, codec: FecWrapper.Codec, st: TxState, h: History) {
    && TxOk(cfg, st) && HistoryOk(cfg, h)
    && st.builder.id == |AllBlocks(h)| + 1
    && BareAll(st.builder.syms) == Layout(cfg, h.current)
    && WindowHolds(cfg, codec, st.window, h.open)
    && st.wire == WireOf(cfg, codec, h.sent)
  }

  lemma InitiallyReflects(cfg: TxConfig, codec: FecWrapper.Codec)
    requires ValidTx(cfg)
    ensures Reflects(cfg, codec, InitialTx, NoHistory)
  {
    InitialOk(cfg);
    assert RowsOf(cfg, codec, []) == [];
  }

  // ---------------------------------------------------------------------------
  // Encoding depends on the layout only
  // ---------------------------------------------------------------------------

  lemma {:induction false} SameBytes(a: seq<Symbol>, b: seq<Symbol>, n: nat)
    requires n <= |a| == |b| && BareAll(a) == BareAll(b)
    ensures SourceBytes(a, n) == SourceBytes(b, n)
  {
    if n > 0 {
      SameBytes(a, b, n - 1);
      assert BareAll(a)[n - 1] == BareAll(b)[n - 1];
    }
  }

  lemma SameBlock(cfg: TxConfig, codec: FecWrapper.Codec, a: seq<Symbol>, b: seq<Symbol>, id: uint32)
    requires ValidTx(cfg) && |a| == |b| == cfg.k && AllFit(cfg, a) && AllFit(cfg, b)
    requires BareAll(a) == BareAll(b)
    ensures BlockSymbols(cfg, codec, a, id) == BlockSymbols(cfg, codec, b, id)
  {
    hide Seal, RepairOf;
    SameBytes(a, b, cfg.k);
    forall i: uint32 | i < cfg.k ensures SourceOf(cfg, a[i], id, i) == SourceOf(cfg, b[i], id, i) {
      assert BareAll(a)[i] == BareAll(b)[i];
      assert a[i].(packetId := id, fecId := i) == b[i].(packetId := id, fecId := i);
    }
  }

  /** The builder's padded block is the one the history names. */
  lemma BuilderBlock(cfg: TxConfig, codec: FecWrapper.Codec, syms: seq<Symbol>, b: Sealed)
    requires SealedOk(cfg, b) && |syms| == cfg.k && AllFit(cfg, syms)
    requires BareAll(syms) == PadTo(Layout(cfg, b.packets), cfg.k, cfg.size)
    ensures BlockSymbols(cfg, codec, syms, b.id) == SymbolsOf(cfg, codec, b)
  {
    hide BlockSymbols;
    BareTwice(syms, Sources(cfg, b));
    SameBlock(cfg, codec, syms, Sources(cfg, b), b.id);
  }

  lemma BareTwice(syms: seq<Symbol>, s: seq<Symbol>)
    requires BareAll(syms) == s
    ensures BareAll(s) == s
  {
    forall i | 0 <= i < |s| ensures BareAll(s)[i] == s[i] { assert s[i] == Bare(syms[i]); }
  }

  // ---------------------------------------------------------------------------
  // Closing a block
  // ---------------------------------------------------------------------------

  lemma WindowIsWhole(cfg: TxConfig, codec: FecWrapper.Codec, w: Window, open: seq<Sealed>)
    requires ValidTx(cfg) && AllSealed(cfg, open) && |open| < cfg.depth && WindowHolds(cfg, codec, w, open)
    ensures Whole(TxGeometry(cfg), w)
  {
    hide BlockSymbols, SymbolsOf, SealedOk;
    forall r | 0 <= r < |w.rows| ensures FullRow(TxGeometry(cfg), w.rows[r]) {
      PrefixSize(SymbolsOf(cfg, codec, open[r]), open[r].id, cfg.k + cfg.m);
    }
  }

  /** The history after the builder's block is sealed: a full window is sent. */
  function SealBlock(cfg: TxConfig, h: History, id: nat): History {
    var open := h.open + [Sealed(id, h.current)];
    if |open| == cfg.depth then History(h.sent + [open], [], []) else History(h.sent, open, [])
  }

  lemma FlatAppend(ws: seq<seq<Sealed>>, w: seq<Sealed>)
    ensures Flat(ws + [w]) == Flat(ws) + w
  {
    assert (ws + [w])[..|ws|] == ws;
  }

  lemma PacketsAppend(bs: seq<Sealed>, b: Sealed)
    ensures PacketsOf(bs + [b]) == PacketsOf(bs) + b.packets
  {
    assert (bs + [b])[..|bs|] == bs;
  }

  lemma SealAddsBlock(cfg: TxConfig, h: History, id: nat)
    ensures AllBlocks(SealBlock(cfg, h, id)) == AllBlocks(h) + [Sealed(id, h.current)]
  {
    var b := Sealed(id, h.current);
    FlatAppend(h.sent, h.open + [b]);
    assert Flat(h.sent) + (h.open + [b]) == AllBlocks(h) + [b];
    assert AllBlocks(h) + [b] + [] == AllBlocks(h) + [b];
  }

  lemma SealKeepsPackets(cfg: TxConfig, h: History, id: nat)
    ensures AllPackets(SealBlock(cfg, h, id)) == AllPackets(h)
  {
    hide AllBlocks;
    SealAddsBlock(cfg, h, id);
    PacketsAppend(AllBlocks(h), Sealed(id, h.current));
    assert AllPackets(h) + [] == AllPackets(h);
  }

  lemma SealKeepsHistory(cfg: TxConfig, h: History, id: nat)
    requires HistoryOk(cfg, h) && id == |AllBlocks(h)| + 1 < 0x1_0000_0000
    ensures HistoryOk(cfg, SealBlock(cfg, h, id))
    ensures AllBlocks(SealBlock(cfg, h, id)) == AllBlocks(h) + [Sealed(id, h.current)]
    ensures AllPackets(SealBlock(cfg, h, id)) == AllPackets(h)
  {
    hide AllBlocks, AllPackets, Layout, OneBlock;
    SealAddsBlock(cfg, h, id);
    SealKeepsPackets(cfg, h, id);
    NothingPacked(cfg);
  }

  lemma NothingPacked(cfg: TxConfig)
    requires ValidTx(cfg)
    ensures Packed(cfg, []) && Layout(cfg, []) == []
  {
  }

  lemma OpenIdsUnused(cfg: TxConfig, codec: FecWrapper.Codec, h: History, w: Window, id: nat)
    requires HistoryOk(cfg, h) && id == |AllBlocks(h)| + 1 < 0x1_0000_0000
    requires WindowHolds(cfg, codec, w, h.open)
    ensures Unused(w, id)
  {
    forall r | 0 <= r < |w.rows| ensures w.rows[r].key != id {
      assert h.open[r] == AllBlocks(h)[|Flat(h.sent)| + r];
    }
  }

  lemma RowsAppend(cfg: TxConfig, codec: FecWrapper.Codec, bs: seq<Sealed>, b: Sealed)
    requires AllSealed(cfg, bs) && SealedOk(cfg, b)
    ensures AllSealed(cfg, bs + [b])
    ensures RowsOf(cfg, codec, bs + [b]) == RowsOf(cfg, codec, bs) + [RowOf(SymbolsOf(cfg, codec, b), b.id)]
  {
  }

  lemma WireAppend(cfg: TxConfig, codec: FecWrapper.Codec, ws: seq<seq<Sealed>>, w: seq<Sealed>)
    requires ValidTx(cfg) && (forall i :: 0 <= i < |ws| ==> Sendable(cfg, ws[i])) && Sendable(cfg, w)
    ensures forall i :: 0 <= i < |ws + [w]| ==> Sendable(cfg, (ws + [w])[i])
    ensures WireOf(cfg, codec, ws + [w])
         == WireOf(cfg, codec, ws) + Drained(TxGeometry(cfg), SentRows(cfg, codec, w))
  {
    assert (ws + [w])[..|ws|] == ws;
  }

  /** A full builder whose block is the history's next one. */
  ghost predicate Filled(cfg: TxConfig, st: TxState, h: History, padded: seq<Symbol>)
    requires HistoryOk(cfg, h)
  {
    && st.builder.id < 0x1_0000_0000 && |padded| == cfg.k && AllFit(cfg, padded)
    && BareAll(padded) == PadTo(Layout(cfg, h.current), cfg.k, cfg.size)
  }

  /** The pushes of encode_and_drain: all accepted, adding the block's row. */
  lemma EncodePushes(cfg: TxConfig, codec: FecWrapper.Codec, st: TxState, h: History, padded: seq<Symbol>, now: int)
    requires Reflects(cfg, codec, st, h) && Filled(cfg, st, h, padded)
    ensures var open := h.open + [Sealed(st.builder.id, h.current)];
      var block := BlockSymbols(cfg, codec, padded, st.builder.id);
      var w := PartWay(TxGeometry(cfg), st.window, block, st.builder.id, |block|, now);
      && AllSealed(cfg, open) && w.rows == RowsOf(cfg, codec, open)
      && w.ready == (|open| == cfg.depth) && w.popCol == w.popRow == 0
      && PushFrom(cfg, st.window, block, 0, now) == (w, true)
  {
    hide BlockSymbols, SymbolsOf, Layout, Whole, BareAll, AllFit, WireOf, Drained, RowOf;
    var id := st.builder.id;
    var b := Sealed(id, h.current);
    BuilderBlock(cfg, codec, padded, b);
    WindowIsWhole(cfg, codec, st.window, h.open);
    OpenIdsUnused(cfg, codec, h, st.window, id);
    PushWhole(cfg, st.window, BlockSymbols(cfg, codec, padded, id), id, now);
    RowsAppend(cfg, codec, h.open, b);
    RowOfIs(BlockSymbols(cfg, codec, padded, id), id);
  }

  lemma RowOfIs(syms: seq<Symbol>, id: uint32)
    ensures RowOf(syms, id) == RowPrefix(syms, id, |syms|)
  {
  }

  lemma EncodeDrains(cfg: TxConfig, codec: FecWrapper.Codec, st: TxState, h: History, padded: seq<Symbol>, now: int)
    returns (st': TxState)
    requires Reflects(cfg, codec, st, h) && Filled(cfg, st, h, padded)
    ensures TxOk(cfg, st.(builder := st.builder.(syms := padded)))
    ensures EncodeAndDrain(cfg, codec, st.(builder := st.builder.(syms := padded)), now) == (st', true)
    ensures st'.builder.id == st.builder.id && st'.nextPacket == st.nextPacket && TxOk(cfg, st')
    ensures var h' := SealBlock(cfg, h, st.builder.id);
      && AllSealed(cfg, h'.open) && (forall w :: 0 <= w < |h'.sent| ==> Sendable(cfg, h'.sent[w]))
      && WindowHolds(cfg, codec, st'.window, h'.open) && st'.wire == WireOf(cfg, codec, h'.sent)
  {
    hide BlockSymbols, Layout, BareAll, AllFit, WireOf, PartWay, RowsOf, Drain, SealedOk, HistoryOk, TxOk, PushFrom,
      Sendable, EncodeAndDrain, Filled;
    var open := h.open + [Sealed(st.builder.id, h.current)];
    var full := st.(builder := st.builder.(syms := padded));
    IdBelow(cfg, st, h, padded);
    FullOk(cfg, st, h, padded);
    EncodePushes(cfg, codec, st, h, padded, now);
    var w := PushFrom(cfg, st.window, BlockSymbols(cfg, codec, padded, st.builder.id), 0, now).0;
    EncodeIs(cfg, codec, full, w, now);
    var pushed := Pushed(cfg, codec, full, w);
    st' := Drain(cfg, pushed);
    SentIfFull(cfg, codec, h, open);
    DrainReflects(cfg, codec, pushed, h.sent, open);
    DrainKeepsCounter(cfg, pushed);
    EmptyLayout(cfg, codec);
  }

  lemma FullOk(cfg: TxConfig, st: TxState, h: History, padded: seq<Symbol>)
    requires TxOk(cfg, st) && HistoryOk(cfg, h) && Filled(cfg, st, h, padded)
    ensures TxOk(cfg, st.(builder := st.builder.(syms := padded))) && AllFit(cfg, padded)
    ensures WellFormed(TxGeometry(cfg), st.window) && FitsAll(cfg, st.window.rows)
  {
  }

  lemma EncodeIs(cfg: TxConfig, codec: FecWrapper.Codec, full: TxState, w: Window, now: int)
    requires TxOk(cfg, full) && |full.builder.syms| == cfg.k && !full.window.ready
    requires full.builder.id < 0x1_0000_0000
    requires PushFrom(cfg, full.window, BlockSymbols(cfg, codec, full.builder.syms, full.builder.id), 0, now) == (w, true)
    ensures TxOk(cfg, Pushed(cfg, codec, full, w))
    ensures EncodeAndDrain(cfg, codec, full, now) == (Drain(cfg, Pushed(cfg, codec, full, w)), true)
  {
    hide PushFrom, BlockSymbols, FitsAll, WellFormed;
    assert WireId(full.builder) == full.builder.id;
    var sealed := Pushed(cfg, codec, full, full.window);
    DrainIdle(cfg, sealed);
    hide Drain;
    assert sealed.(window := w) == Pushed(cfg, codec, full, w);
  }

  /** The pipeline once the block's symbols are sealed and pushed. */
  ghost function Pushed(cfg: TxConfig, codec: FecWrapper.Codec, full: TxState, w: Window): TxState
    requires TxOk(cfg, full) && |full.builder.syms| == cfg.k && full.builder.id < 0x1_0000_0000
  {
    full.(builder := full.builder.(syms := BlockSymbols(cfg, codec, full.builder.syms, full.builder.id)[..cfg.k]),
          window := w)
  }

  lemma DrainKeepsCounter(cfg: TxConfig, st: TxState)
    requires TxOk(cfg, st)
    ensures Drain(cfg, st).nextPacket == st.nextPacket
  {
  }

  lemma DrainIdle(cfg: TxConfig, st: TxState)
    requires TxOk(cfg, st) && !st.window.ready
    ensures Drain(cfg, st) == st
  {
  }

  lemma SentIfFull(cfg: TxConfig, codec: FecWrapper.Codec, h: History, open: seq<Sealed>)
    requires HistoryOk(cfg, h) && |open| == |h.open| + 1 && AllSealed(cfg, open)
    ensures Sendable(cfg, open) && forall w :: 0 <= w < |h.sent| ==> Sendable(cfg, h.sent[w])
    ensures |open| == cfg.depth ==> SentRows(cfg, codec, open) == RowsOf(cfg, codec, open)
  {
    hide RowsOf;
  }

  /** encode_and_drain seals the builder's block; every push is accepted, and a full window is sent whole. */
  lemma EncodeReflects(cfg: TxConfig, codec: FecWrapper.Codec, st: TxState, h: History, padded: seq<Symbol>, now: int)
    requires Reflects(cfg, codec, st, h) && Filled(cfg, st, h, padded)
    ensures var full := st.(builder := st.builder.(syms := padded));
      && TxOk(cfg, full)
      && var (st', ok) := CloseBlock(cfg, codec, full, now);
      ok && Reflects(cfg, codec, st', SealBlock(cfg, h, st.builder.id))
      && st'.nextPacket == st.nextPacket
  {
    hide TxOk, HistoryOk, Filled, WindowHolds, AllSealed, Sendable, Layout, BareAll, WireOf, RowsOf, EncodeAndDrain,
      AllBlocks, AllFit;
    var st' := EncodeDrains(cfg, codec, st, h, padded, now);
    IdBelow(cfg, st, h, padded);
    SealKeepsHistory(cfg, h, st.builder.id);
    NextIdIs(st.builder.id);
    Fresh(cfg, codec, st', SealBlock(cfg, h, st.builder.id));
  }

  lemma IdBelow(cfg: TxConfig, st: TxState, h: History, padded: seq<Symbol>)
    requires HistoryOk(cfg, h) && Filled(cfg, st, h, padded)
    ensures st.builder.id < 0x1_0000_0000 && |padded| == cfg.k && ValidTx(cfg)
  {
  }

  lemma NextIdIs(id: nat)
    requires 0 < id < 0x1_0000_0000
    ensures NextId(id) == id + 1
  {
  }

  /** A reset builder reflects a history with nothing in hand. */
  lemma Fresh(cfg: TxConfig, codec: FecWrapper.Codec, st: TxState, h: History)
    requires TxOk(cfg, st) && HistoryOk(cfg, h) && h.current == []
    requires 0 < st.builder.id < 0x1_0000_0000 && st.builder.id == |AllBlocks(h)|
    requires WindowHolds(cfg, codec, st.window, h.open) && st.wire == WireOf(cfg, codec, h.sent)
    ensures Reflects(cfg, codec, st.(builder := BlockBuilding.Reset(st.builder)), h)
  {
    hide AllBlocks, WindowHolds, WireOf;
    EmptyLayout(cfg, codec);
  }

  lemma EmptyLayout(cfg: TxConfig, codec: FecWrapper.Codec)
    requires ValidTx(cfg)
    ensures Packed(cfg, []) && Layout(cfg, []) == BareAll([]) == []
    ensures RowsOf(cfg, codec, []) == []
    ensures AllFit(cfg, [])
  {
  }

  /** Draining a full window sends exactly its blocks; otherwise nothing happens. */
  lemma DrainReflects(cfg: TxConfig, codec: FecWrapper.Codec, st: TxState, sent: seq<seq<Sealed>>, open: seq<Sealed>)
    requires TxOk(cfg, st) && Sendable(cfg, open) && forall w :: 0 <= w < |sent| ==> Sendable(cfg, sent[w])
    requires st.window.popCol == st.window.popRow == 0
    requires st.window.rows == (if st.window.ready then SentRows(cfg, codec, open) else RowsOf(cfg, codec, open))
    requires st.wire == WireOf(cfg, codec, sent)
    ensures var st' := Drain(cfg, st);
      if st.window.ready
      then st'.window == EmptyWindow && st'.wire == WireOf(cfg, codec, sent + [open])
      else st' == st
  {
    hide WireOf, Drained, DrainFrom, SentRows, RowsOf;
    if st.window.ready {
      DrainTheorem(TxGeometry(cfg), st.window);
      WireAppend(cfg, codec, sent, open);
    }
  }
}
