/** When blocks are sealed and windows sent, and what they hold, over every run of the transmit pipeline. */
module TxSchedule {
  import opened Types
  import opened BlockBuilding
  import FecWrapper
  import opened Interleaving
  import opened InterleaverWindows
  import opened TxSpec
  import opened WholeBlocks
  import TxHistory
  import opened TxPacking

  // ---------------------------------------------------------------------------
  // The schedule
  // ---------------------------------------------------------------------------

  /** A fragment in the order of arrival: what encoding keeps of it, and the time of the call that took its packet. */
  datatype Piece = Piece(sym: Symbol, at: int)

  /** Everything before position upTo is closed, at this time. */
  datatype Cut = Cut(upTo: nat, at: int)

  /** Block b holds the pieces from cut b - 1 to cut b and makes row b; window w holds the blocks from send w - 1 to send w. */
  datatype Log = Log(cuts: seq<Cut>, blocks: seq<Row>, sends: seq<Cut>)

  function Syms(f: seq<Piece>): (s: seq<Symbol>)
    ensures |s| == |f| && forall i :: 0 <= i < |f| ==> s[i] == f[i].sym
  {
    seq(|f|, i requires 0 <= i < |f| => f[i].sym)
  }

  /** Where part b begins. */
  function Begin(cuts: seq<Cut>, b: nat): nat
    requires b <= |cuts|
  {
    if b == 0 then 0 else cuts[b - 1].upTo
  }

  function Last(cuts: seq<Cut>): nat {
    Begin(cuts, |cuts|)
  }

  /** Parts of one to `width` elements, among n. */
  ghost predicate Parts(cuts: seq<Cut>, width: nat, n: nat) {
    forall b: nat :: b < |cuts| ==> Begin(cuts, b) < cuts[b].upTo <= Begin(cuts, b) + width && cuts[b].upTo <= n
  }

  ghost predicate Laid(cfg: TxConfig, f: seq<Piece>, cuts: seq<Cut>) {
    ValidTx(cfg) && AllFit(cfg, Syms(f)) && Parts(cuts, cfg.k, |f|) && |cuts| < 0x1_0000_0000
  }

  /** The source symbols of block b: its pieces, then zero symbols. */
  ghost function Source(cfg: TxConfig, f: seq<Piece>, cuts: seq<Cut>, b: nat): (s: seq<Symbol>)
    requires Laid(cfg, f, cuts) && b < |cuts|
    ensures |s| == cfg.k && AllFit(cfg, s)
  {
    var mine := Syms(f[Begin(cuts, b)..cuts[b].upTo]);
    assert forall i :: 0 <= i < |mine| ==> mine[i] == Syms(f)[Begin(cuts, b) + i];
    PadFits(cfg, mine);
    PadTo(mine, cfg.k, cfg.size)
  }

  /** The row of block b, under id b + 1. */
  ghost function RowAt(cfg: TxConfig, codec: FecWrapper.Codec, f: seq<Piece>, cuts: seq<Cut>, b: nat): Row
    requires Laid(cfg, f, cuts) && b < |cuts|
  {
    RowOf(BlockSymbols(cfg, codec, Source(cfg, f, cuts, b), b + 1), b + 1)
  }

  ghost predicate AllFull(g: Geometry, blocks: seq<Row>) {
    forall b :: 0 <= b < |blocks| ==> FullRow(g, blocks[b])
  }

  lemma PaddedComplete(g: Geometry, rows: seq<Row>)
    requires ValidGeometry(g) && AllFull(g, rows) && |rows| <= g.depth
    ensures Complete(g, Padded(g, rows))
  {
    forall r, c | 0 <= r < g.depth && 0 <= c < g.n ensures c in Padded(g, rows)[r].cells {
      if r >= |rows| { PaddingIsErased(g, c); }
    }
  }

  /** What the first w windows put on the wire: each its blocks' rows, then padding rows, column by column. */
  ghost function WireFrom(g: Geometry, blocks: seq<Row>, sends: seq<Cut>): seq<Symbol>
    requires ValidGeometry(g) && AllFull(g, blocks) && Parts(sends, g.depth, |blocks|)
    decreases |sends|
  {
    if sends == [] then []
    else
      var before, rows := sends[..|sends| - 1], blocks[Begin(sends, |sends| - 1)..sends[|sends| - 1].upTo];
      PartsPrefix(sends, g.depth, |blocks|);
      PaddedComplete(g, rows);
      WireFrom(g, blocks, before) + Drained(g, Padded(g, rows))
  }

  lemma PartsEnd(cuts: seq<Cut>, width: nat, n: nat)
    requires Parts(cuts, width, n) && cuts != []
    ensures Begin(cuts, |cuts| - 1) < cuts[|cuts| - 1].upTo <= Begin(cuts, |cuts| - 1) + width && cuts[|cuts| - 1].upTo <= n
  {
  }

  lemma PartsPrefix(cuts: seq<Cut>, width: nat, n: nat)
    requires Parts(cuts, width, n) && cuts != []
    ensures Parts(cuts[..|cuts| - 1], width, n)
  {
    var before := cuts[..|cuts| - 1];
    forall b: nat | b < |before|
      ensures Begin(before, b) < before[b].upTo <= Begin(before, b) + width && before[b].upTo <= n
    {
      assert Begin(before, b) == Begin(cuts, b) && before[b] == cuts[b];
    }
  }

  // ---------------------------------------------------------------------------
  // Why a block is sealed, and a window sent
  // ---------------------------------------------------------------------------

  /**
   Pieces s to e - 1 make a block at this time: they are k, or the first of them came 2 ms ago or earlier, or the next
   packet, just arriving, has too many fragments to join them.
   */
  ghost predicate SealedWhy(k: nat, f: seq<Piece>, s: nat, e: nat, at: int) {
    && s < e <= |f|
    && (|| e - s == k
        || at - f[s].at >= 2_000_000
        || (e < |f| && f[e].sym.index == 0 && f[e].at == at && e - s + f[e].sym.total > k))
    && (e < |f| && f[e].sym.index != 0 ==> f[e].sym.total > k)
  }

  ghost predicate CutsWhy(k: nat, f: seq<Piece>, cuts: seq<Cut>) {
    forall b: nat :: b < |cuts| ==> SealedWhy(k, f, Begin(cuts, b), cuts[b].upTo, cuts[b].at)
  }

  /** A window is full, or its first block was sealed 5 ms ago or earlier. */
  ghost predicate SentWhy(depth: nat, cuts: seq<Cut>, s: nat, e: nat, at: int) {
    s < e <= |cuts| && (e - s == depth || at - cuts[s].at >= 5_000_000)
  }

  ghost predicate SendsWhy(depth: nat, cuts: seq<Cut>, sends: seq<Cut>) {
    forall w: nat :: w < |sends| ==> SentWhy(depth, cuts, Begin(sends, w), sends[w].upTo, sends[w].at)
  }

  // ---------------------------------------------------------------------------
  // The state
  // ---------------------------------------------------------------------------

  /** The builder holds the pieces after the last cut, up to n, and knows when the first of them came. */
  ghost predicate InBuilder(b: Builder, f: seq<Piece>, n: nat, cuts: seq<Cut>) {
    && Last(cuts) <= n <= |f| && b.id == |cuts| + 1
    && TxHistory.BareAll(b.syms) == Syms(f[Last(cuts)..n])
    && (b.syms != [] ==> b.first == f[Last(cuts)].at)
  }

  /** The interleaver holds the rows of the blocks after the last send, and knows when the first of them was sealed. */
  ghost predicate InWindow(g: Geometry, w: Window, l: Log) {
    && |l.cuts| == |l.blocks| && Last(l.sends) <= |l.blocks| < Last(l.sends) + g.depth
    && !w.ready && w.popCol == w.popRow == 0 && w.rows == l.blocks[Last(l.sends)..]
    && (w.rows != [] ==> w.start == l.cuts[Last(l.sends)].at)
  }

  ghost predicate BlocksAre(cfg: TxConfig, codec: FecWrapper.Codec, f: seq<Piece>, l: Log)
    requires Laid(cfg, f, l.cuts)
  {
    |l.blocks| == |l.cuts| && forall b: nat :: b < |l.blocks| ==> l.blocks[b] == RowAt(cfg, codec, f, l.cuts, b)
  }

  lemma RowFull(cfg: TxConfig, codec: FecWrapper.Codec, f: seq<Piece>, cuts: seq<Cut>, b: nat)
    requires Laid(cfg, f, cuts) && b < |cuts|
    ensures FullRow(TxGeometry(cfg), RowAt(cfg, codec, f, cuts, b)) && RowAt(cfg, codec, f, cuts, b).key == b + 1
  {
    hide Source, SourceBytes;
    var block := BlockSymbols(cfg, codec, Source(cfg, f, cuts, b), b + 1);
    PrefixSize(block, b + 1, |block|);
  }

  lemma BlocksFull(cfg: TxConfig, codec: FecWrapper.Codec, f: seq<Piece>, l: Log)
    requires Laid(cfg, f, l.cuts) && BlocksAre(cfg, codec, f, l)
    ensures AllFull(TxGeometry(cfg), l.blocks) && forall b: nat :: b < |l.blocks| ==> l.blocks[b].key == b + 1
  {
    hide RowAt, FullRow, Laid;
    forall b: nat | b < |l.blocks| ensures FullRow(TxGeometry(cfg), l.blocks[b]) && l.blocks[b].key == b + 1 {
      RowFull(cfg, codec, f, l.cuts, b);
    }
  }

  /** The wire holds what the log says. */
  ghost predicate OnWire(cfg: TxConfig, codec: FecWrapper.Codec, wire: seq<Symbol>, f: seq<Piece>, l: Log)
    requires Laid(cfg, f, l.cuts)
  {
    && BlocksAre(cfg, codec, f, l) && Parts(l.sends, cfg.depth, |l.blocks|)
    && (BlocksFull(cfg, codec, f, l); wire == WireFrom(TxGeometry(cfg), l.blocks, l.sends))
  }

  /** A log with its blocks, its wire and its reasons. */
  ghost predicate Logged(cfg: TxConfig, codec: FecWrapper.Codec, wire: seq<Symbol>, f: seq<Piece>, l: Log) {
    && Laid(cfg, f, l.cuts) && OnWire(cfg, codec, wire, f, l)
    && CutsWhy(cfg.k, f, l.cuts) && SendsWhy(cfg.depth, l.cuts, l.sends)
  }

  /** The pipeline has been given the first n pieces, and has gone by the log. */
  ghost predicate Scheduled(cfg: TxConfig, codec: FecWrapper.Codec, st: TxState, f: seq<Piece>, n: nat, l: Log) {
    && TxOk(cfg, st) && InBuilder(st.builder, f, n, l.cuts) && InWindow(TxGeometry(cfg), st.window, l)
    && Logged(cfg, codec, st.wire, f, l)
  }

  lemma ScheduledParts(cfg: TxConfig, codec: FecWrapper.Codec, st: TxState, f: seq<Piece>, n: nat, l: Log)
    requires Scheduled(cfg, codec, st, f, n, l)
    ensures TxOk(cfg, st) && InBuilder(st.builder, f, n, l.cuts) && InWindow(TxGeometry(cfg), st.window, l)
    ensures Logged(cfg, codec, st.wire, f, l) && ValidTx(cfg) && 0 < st.builder.id == |l.cuts| + 1
    ensures |st.builder.syms| <= cfg.k
  {
  }

  // ---------------------------------------------------------------------------
  // Longer logs
  // ---------------------------------------------------------------------------

  /** l' continues l, and what it adds happens now. */
  ghost predicate Continues(l: Log, l': Log, now: int) {
    && l.cuts <= l'.cuts && l.blocks <= l'.blocks && l.sends <= l'.sends
    && (forall b :: |l.cuts| <= b < |l'.cuts| ==> l'.cuts[b].at == now)
    && (forall w :: |l.sends| <= w < |l'.sends| ==> l'.sends[w].at == now)
  }

  lemma ContinuesOn(l: Log, m: Log, r: Log, now: int)
    requires Continues(l, m, now) && Continues(m, r, now)
    ensures Continues(l, r, now)
  {
  }

  lemma BeginSame(cuts: seq<Cut>, cuts': seq<Cut>, b: nat)
    requires cuts <= cuts' && b <= |cuts|
    ensures Begin(cuts', b) == Begin(cuts, b)
  {
  }

  lemma PartsMore(cuts: seq<Cut>, width: nat, n: nat, c: Cut)
    requires Parts(cuts, width, n) && Last(cuts) < c.upTo <= Last(cuts) + width && c.upTo <= n
    ensures Parts(cuts + [c], width, n) && Last(cuts + [c]) == c.upTo
  {
    var cuts' := cuts + [c];
    forall b: nat | b < |cuts'| ensures Begin(cuts', b) < cuts'[b].upTo <= Begin(cuts', b) + width && cuts'[b].upTo <= n {
      BeginSame(cuts, cuts', b);
    }
  }

  lemma PartsWider(cuts: seq<Cut>, width: nat, n: nat, m: nat)
    requires Parts(cuts, width, n) && n <= m
    ensures Parts(cuts, width, m)
  {
  }

  /** A block's row does not depend on later cuts or later pieces. */
  lemma RowSame(cfg: TxConfig, codec: FecWrapper.Codec, f: seq<Piece>, cuts: seq<Cut>, f': seq<Piece>, cuts': seq<Cut>, b: nat)
    requires Laid(cfg, f, cuts) && Laid(cfg, f', cuts') && f <= f' && cuts <= cuts' && b < |cuts|
    ensures RowAt(cfg, codec, f', cuts', b) == RowAt(cfg, codec, f, cuts, b)
  {
    hide BlockSymbols, RowOf, AllFit;
    assert Begin(cuts', b) == Begin(cuts, b) && cuts'[b] == cuts[b];
    assert f'[Begin(cuts, b)..cuts[b].upTo] == f[Begin(cuts, b)..cuts[b].upTo];
  }

  /** Nor does what was sent depend on later blocks. */
  lemma {:induction false} WireSame(g: Geometry, blocks: seq<Row>, blocks': seq<Row>, sends: seq<Cut>)
    requires ValidGeometry(g) && AllFull(g, blocks) && AllFull(g, blocks') && blocks <= blocks'
    requires Parts(sends, g.depth, |blocks|) && Parts(sends, g.depth, |blocks'|)
    ensures WireFrom(g, blocks', sends) == WireFrom(g, blocks, sends)
    decreases |sends|
  {
    hide FullRow, Drained, Padded;
    if sends != [] {
      PartsPrefix(sends, g.depth, |blocks|);
      PartsPrefix(sends, g.depth, |blocks'|);
      WireSame(g, blocks, blocks', sends[..|sends| - 1]);
      var i, j := Begin(sends, |sends| - 1), sends[|sends| - 1].upTo;
      assert blocks'[i..j] == blocks[i..j];
    }
  }

  lemma WireMore(g: Geometry, blocks: seq<Row>, sends: seq<Cut>, c: Cut)
    requires ValidGeometry(g) && AllFull(g, blocks) && Parts(sends, g.depth, |blocks|)
    requires Last(sends) < c.upTo <= Last(sends) + g.depth && c.upTo <= |blocks|
    ensures var rows := blocks[Last(sends)..c.upTo];
      && Parts(sends + [c], g.depth, |blocks|) && |rows| <= g.depth && Complete(g, Padded(g, rows))
      && WireFrom(g, blocks, sends + [c]) == WireFrom(g, blocks, sends) + Drained(g, Padded(g, rows))
  {
    hide FullRow, Drained, Padded, Complete, Parts;
    PartsMore(sends, g.depth, |blocks|, c);
    BeginSame(sends, sends + [c], |sends|);
    PartsEnd(sends + [c], g.depth, |blocks|);
    PaddedComplete(g, blocks[Last(sends)..c.upTo]);
    assert (sends + [c])[..|sends|] == sends;
  }

  // ---------------------------------------------------------------------------
  // Sealing a block
  // ---------------------------------------------------------------------------

  /** The row the builder's block makes. */
  lemma NewRow(cfg: TxConfig, codec: FecWrapper.Codec, b: Builder, f: seq<Piece>, n: nat, cuts: seq<Cut>, now: int)
    requires Laid(cfg, f, cuts) && InBuilder(b, f, n, cuts) && Last(cuts) < n && b.id < 0x1_0000_0000
    requires |b.syms| <= cfg.k && AllFit(cfg, b.syms)
    ensures AllFit(cfg, PadTo(b.syms, cfg.k, cfg.size)) && Laid(cfg, f, cuts + [Cut(n, now)])
    ensures RowAt(cfg, codec, f, cuts + [Cut(n, now)], |cuts|)
         == RowOf(BlockSymbols(cfg, codec, PadTo(b.syms, cfg.k, cfg.size), b.id), b.id)
  {
    var padded, cuts' := PadTo(b.syms, cfg.k, cfg.size), cuts + [Cut(n, now)];
    PadFits(cfg, b.syms);
    BarePad(cfg, b.syms);
    assert |TxHistory.BareAll(b.syms)| == |b.syms| == n - Last(cuts);
    PartsMore(cuts, cfg.k, |f|, Cut(n, now));
    var source := Source(cfg, f, cuts', |cuts|);
    assert TxHistory.BareAll(padded) == source;
    TxHistory.BareTwice(padded, source);
    hide BlockSymbols, RowOf, Source, AllFit;
    TxHistory.SameBlock(cfg, codec, padded, source, b.id);
  }

  lemma BlocksMore(cfg: TxConfig, codec: FecWrapper.Codec, f: seq<Piece>, l: Log, c: Cut, row: Row)
    requires Laid(cfg, f, l.cuts) && Laid(cfg, f, l.cuts + [c]) && BlocksAre(cfg, codec, f, l)
    requires row == RowAt(cfg, codec, f, l.cuts + [c], |l.cuts|)
    ensures BlocksAre(cfg, codec, f, Log(l.cuts + [c], l.blocks + [row], l.sends))
  {
    hide RowAt, Laid;
    forall b: nat | b < |l.cuts| ensures RowAt(cfg, codec, f, l.cuts + [c], b) == RowAt(cfg, codec, f, l.cuts, b) {
      RowSame(cfg, codec, f, l.cuts, f, l.cuts + [c], b);
    }
  }

  lemma WindowReady(cfg: TxConfig, codec: FecWrapper.Codec, w: Window, f: seq<Piece>, l: Log)
    requires Laid(cfg, f, l.cuts) && BlocksAre(cfg, codec, f, l) && InWindow(TxGeometry(cfg), w, l)
    requires |l.cuts| + 1 < 0x1_0000_0000
    ensures Whole(TxGeometry(cfg), w) && Unused(w, |l.cuts| + 1)
  {
    hide RowAt, FullRow, Laid, BlocksAre;
    BlocksFull(cfg, codec, f, l);
    forall r | 0 <= r < |w.rows| ensures FullRow(TxGeometry(cfg), w.rows[r]) && w.rows[r].key != |l.cuts| + 1 {
      assert w.rows[r] == l.blocks[Last(l.sends) + r];
    }
  }

  lemma Alike(cfg: TxConfig, codec: FecWrapper.Codec, syms: seq<Symbol>, id: uint32)
    requires ValidTx(cfg) && |syms| == cfg.k && AllFit(cfg, syms)
    ensures BlockLike(TxGeometry(cfg), BlockSymbols(cfg, codec, syms, id), id)
    ensures |BlockSymbols(cfg, codec, syms, id)| == cfg.k + cfg.m
  {
    hide SourceBytes;
  }

  lemma TxParts(cfg: TxConfig, st: TxState)
    requires TxOk(cfg, st)
    ensures ValidTx(cfg) && WellFormed(TxGeometry(cfg), st.window) && FitsAll(cfg, st.window.rows)
    ensures |st.builder.syms| <= cfg.k && AllFit(cfg, st.builder.syms)
  {
  }

  /** encode_and_drain accepts every push: the block takes the next row. */
  lemma BlockPushed(cfg: TxConfig, codec: FecWrapper.Codec, full: TxState, f: seq<Piece>, l: Log, now: int) returns (w: Window)
    requires TxOk(cfg, full) && |full.builder.syms| == cfg.k && full.builder.id == |l.cuts| + 1 < 0x1_0000_0000
    requires Laid(cfg, f, l.cuts) && BlocksAre(cfg, codec, f, l) && InWindow(TxGeometry(cfg), full.window, l)
    ensures w == PartWay(TxGeometry(cfg), full.window, BlockSymbols(cfg, codec, full.builder.syms, full.builder.id),
                         full.builder.id, cfg.k + cfg.m, now)
    ensures TxOk(cfg, TxHistory.Pushed(cfg, codec, full, w))
    ensures EncodeAndDrain(cfg, codec, full, now) == (Drain(cfg, TxHistory.Pushed(cfg, codec, full, w)), true)
  {
    hide TxOk, BlockSymbols, PartWay, RowAt, WellFormed, FitsAll, AllFit, BlocksAre, Laid, InWindow, EncodeAndDrain, Drain, PushFrom;
    TxParts(cfg, full);
    var block := BlockSymbols(cfg, codec, full.builder.syms, full.builder.id);
    Alike(cfg, codec, full.builder.syms, full.builder.id);
    AllPushed(cfg, codec, full.window, f, l, block, full.builder.id, now);
    w := PartWay(TxGeometry(cfg), full.window, block, full.builder.id, cfg.k + cfg.m, now);
    NotReady(TxGeometry(cfg), full.window, l);
    TxHistory.EncodeIs(cfg, codec, full, w, now);
  }

  lemma AllPushed(cfg: TxConfig, codec: FecWrapper.Codec, w: Window, f: seq<Piece>, l: Log, block: seq<Symbol>, id: uint32, now: int)
    requires ValidTx(cfg) && WellFormed(TxGeometry(cfg), w) && FitsAll(cfg, w.rows) && AllFit(cfg, block)
    requires |block| == cfg.k + cfg.m && BlockLike(TxGeometry(cfg), block, id) && id == |l.cuts| + 1
    requires Laid(cfg, f, l.cuts) && BlocksAre(cfg, codec, f, l) && InWindow(TxGeometry(cfg), w, l)
    ensures PushFrom(cfg, w, block, 0, now) == (PartWay(TxGeometry(cfg), w, block, id, cfg.k + cfg.m, now), true)
  {
    hide PartWay, RowAt, WellFormed, FitsAll, AllFit, BlocksAre, Laid, InWindow, PushFrom, Whole, Unused, BlockLike;
    WindowReady(cfg, codec, w, f, l);
    PushWhole(cfg, w, block, id, now);
  }

  lemma NotReady(g: Geometry, w: Window, l: Log)
    requires InWindow(g, w, l)
    ensures !w.ready
  {
  }

  lemma CutsWhyMore(k: nat, f: seq<Piece>, cuts: seq<Cut>, c: Cut)
    requires CutsWhy(k, f, cuts) && SealedWhy(k, f, Last(cuts), c.upTo, c.at)
    ensures CutsWhy(k, f, cuts + [c])
  {
    hide SealedWhy;
    forall b: nat | b < |cuts| + 1
      ensures SealedWhy(k, f, Begin(cuts + [c], b), (cuts + [c])[b].upTo, (cuts + [c])[b].at)
    {
      BeginSame(cuts, cuts + [c], b);
    }
  }

  lemma SendsWhyMore(depth: nat, cuts: seq<Cut>, sends: seq<Cut>, c: Cut)
    requires SendsWhy(depth, cuts, sends) && SentWhy(depth, cuts, Last(sends), c.upTo, c.at)
    ensures SendsWhy(depth, cuts, sends + [c])
  {
    hide SentWhy;
    forall w: nat | w < |sends| + 1
      ensures SentWhy(depth, cuts, Begin(sends + [c], w), (sends + [c])[w].upTo, (sends + [c])[w].at)
    {
      BeginSame(sends, sends + [c], w);
    }
  }

  lemma SendsWhyStill(depth: nat, cuts: seq<Cut>, cuts': seq<Cut>, sends: seq<Cut>)
    requires SendsWhy(depth, cuts, sends) && cuts <= cuts'
    ensures SendsWhy(depth, cuts', sends)
  {
    forall w: nat | w < |sends| ensures SentWhy(depth, cuts', Begin(sends, w), sends[w].upTo, sends[w].at) {
      assert SentWhy(depth, cuts, Begin(sends, w), sends[w].upTo, sends[w].at);
    }
  }

  /** What was sent, once a further block is sealed. */
  lemma OnWireStill(cfg: TxConfig, codec: FecWrapper.Codec, wire: seq<Symbol>, f: seq<Piece>, l: Log, l': Log)
    requires Laid(cfg, f, l.cuts) && OnWire(cfg, codec, wire, f, l)
    requires Laid(cfg, f, l'.cuts) && BlocksAre(cfg, codec, f, l') && l.blocks <= l'.blocks && l'.sends == l.sends
    ensures OnWire(cfg, codec, wire, f, l')
  {
    hide BlocksAre, RowAt, WireFrom, Parts;
    GeometryOk(cfg, f, l.cuts);
    BlocksFull(cfg, codec, f, l);
    BlocksFull(cfg, codec, f, l');
    hide Laid;
    PartsWider(l.sends, cfg.depth, |l.blocks|, |l'.blocks|);
    WireSame(TxGeometry(cfg), l.blocks, l'.blocks, l.sends);
  }

  lemma GeometryOk(cfg: TxConfig, f: seq<Piece>, cuts: seq<Cut>)
    requires Laid(cfg, f, cuts)
    ensures ValidTx(cfg) && ValidGeometry(TxGeometry(cfg)) && TxGeometry(cfg).depth == cfg.depth
  {
  }

  /** The log with the builder's block in it. */
  function Sealed(l: Log, n: nat, row: Row, now: int): Log {
    Log(l.cuts + [Cut(n, now)], l.blocks + [row], l.sends)
  }

  lemma LogSealed(cfg: TxConfig, codec: FecWrapper.Codec, st: TxState, f: seq<Piece>, n: nat, l: Log, row: Row, now: int)
    requires Scheduled(cfg, codec, st, f, n, l) && st.builder.id < 0x1_0000_0000
    requires SealedWhy(cfg.k, f, Last(l.cuts), n, now)
    requires AllFit(cfg, PadTo(st.builder.syms, cfg.k, cfg.size))
    requires row == RowOf(BlockSymbols(cfg, codec, PadTo(st.builder.syms, cfg.k, cfg.size), st.builder.id), st.builder.id)
    ensures Logged(cfg, codec, st.wire, f, Sealed(l, n, row, now))
  {
    TxParts(cfg, st);
    var c := Cut(n, now);
    assert Last(l.cuts) < n;
    NewRow(cfg, codec, st.builder, f, n, l.cuts, now);
    hide TxOk, BlockSymbols, RowOf, RowAt, SealedWhy, AllFit, InWindow, InBuilder, WireFrom, Laid;
    BlocksMore(cfg, codec, f, l, c, row);
    CutsWhyMore(cfg.k, f, l.cuts, c);
    SendsWhyStill(cfg.depth, l.cuts, l.cuts + [c], l.sends);
    hide CutsWhy, SendsWhy, BlocksAre, OnWire;
    OnWireStill(cfg, codec, st.wire, f, l, Sealed(l, n, row, now));
  }

  /** The window's rows are those of the blocks after the last send, and it is ready when they are depth. */
  ghost predicate Grown(g: Geometry, w: Window, l: Log) {
    && Last(l.sends) < |l.blocks| == |l.cuts| && w.rows == l.blocks[Last(l.sends)..]
    && w.popCol == w.popRow == 0 && |w.rows| <= g.depth && w.ready == (|w.rows| == g.depth)
    && (!w.ready ==> InWindow(g, w, l))
  }

  /** The window with the block's row in it. */
  lemma WindowSealed(g: Geometry, w: Window, l: Log, n: nat, block: seq<Symbol>, id: uint32, now: int)
    requires InWindow(g, w, l) && |block| == g.n
    ensures Grown(g, PartWay(g, w, block, id, g.n, now), Sealed(l, n, RowOf(block, id), now))
  {
    assert (l.blocks + [RowOf(block, id)])[Last(l.sends)..] == l.blocks[Last(l.sends)..] + [RowOf(block, id)];
  }

  /** The log with a window more. */
  function Dispatched(l: Log, now: int): Log {
    l.(sends := l.sends + [Cut(|l.blocks|, now)])
  }

  lemma LogSent(cfg: TxConfig, codec: FecWrapper.Codec, wire: seq<Symbol>, rows: seq<Row>, f: seq<Piece>, l: Log, now: int)
    requires Logged(cfg, codec, wire, f, l) && ValidTx(cfg) && Last(l.sends) < |l.blocks| <= Last(l.sends) + cfg.depth
    requires SentWhy(cfg.depth, l.cuts, Last(l.sends), |l.blocks|, now)
    requires rows == Padded(TxGeometry(cfg), l.blocks[Last(l.sends)..]) && Complete(TxGeometry(cfg), rows)
    ensures Logged(cfg, codec, wire + Drained(TxGeometry(cfg), rows), f, Dispatched(l, now))
    ensures Continues(l, Dispatched(l, now), now) && InWindow(TxGeometry(cfg), EmptyWindow, Dispatched(l, now))
  {
    hide SentWhy, Padded, Drained, Laid, Complete, OnWire, CutsWhy, SendsWhy;
    WireSent(cfg, codec, wire, f, l, now);
    SendsWhyMore(cfg.depth, l.cuts, l.sends, Cut(|l.blocks|, now));
    EmptyHeld(TxGeometry(cfg), Dispatched(l, now));
  }

  /** A window whose rows are all complete, ready to be drained, is sent. */
  lemma WindowSent(cfg: TxConfig, codec: FecWrapper.Codec, st: TxState, f: seq<Piece>, l: Log, now: int)
    requires TxOk(cfg, st) && Logged(cfg, codec, st.wire, f, l) && ValidTx(cfg)
    requires Last(l.sends) < |l.blocks| <= Last(l.sends) + cfg.depth
    requires SentWhy(cfg.depth, l.cuts, Last(l.sends), |l.blocks|, now)
    requires st.window.ready && st.window.popCol == st.window.popRow == 0
    requires st.window.rows == Padded(TxGeometry(cfg), l.blocks[Last(l.sends)..])
    ensures Drain(cfg, st).builder == st.builder && Drain(cfg, st).window == EmptyWindow
    ensures Logged(cfg, codec, Drain(cfg, st).wire, f, Dispatched(l, now)) && Continues(l, Dispatched(l, now), now)
    ensures InWindow(TxGeometry(cfg), EmptyWindow, Dispatched(l, now))
  {
    hide SentWhy, TxOk, Padded, Logged, Drained, Complete, Drain, Dispatched, Continues, InWindow;
    DrainIs(cfg, st);
    LogSent(cfg, codec, st.wire, st.window.rows, f, l, now);
  }

  lemma EmptyHeld(g: Geometry, l: Log)
    requires ValidGeometry(g) && |l.cuts| == |l.blocks| == Last(l.sends)
    ensures InWindow(g, EmptyWindow, l)
  {
  }

  lemma WireSent(cfg: TxConfig, codec: FecWrapper.Codec, wire: seq<Symbol>, f: seq<Piece>, l: Log, now: int)
    requires Laid(cfg, f, l.cuts) && OnWire(cfg, codec, wire, f, l)
    requires Last(l.sends) < |l.blocks| <= Last(l.sends) + cfg.depth
    ensures var rows := Padded(TxGeometry(cfg), l.blocks[Last(l.sends)..]);
      var l' := l.(sends := l.sends + [Cut(|l.blocks|, now)]);
      && Complete(TxGeometry(cfg), rows) && |l.cuts| == |l.blocks| == Last(l'.sends)
      && OnWire(cfg, codec, wire + Drained(TxGeometry(cfg), rows), f, l')
  {
    var g, c := TxGeometry(cfg), Cut(|l.blocks|, now);
    var l' := l.(sends := l.sends + [c]);
    GeometryOk(cfg, f, l.cuts);
    BlocksFull(cfg, codec, f, l);
    hide RowAt, Padded, WireFrom, Drained, FullRow, Laid, Complete, Parts;
    WireMore(g, l.blocks, l.sends, c);
    assert l.blocks[Last(l.sends)..|l.blocks|] == l.blocks[Last(l.sends)..];
    SentLast(l.sends, c);
    assert BlocksAre(cfg, codec, f, l');
  }

  lemma SentLast(sends: seq<Cut>, c: Cut)
    ensures Last(sends + [c]) == c.upTo
  {
  }

  lemma DrainIs(cfg: TxConfig, st: TxState)
    requires TxOk(cfg, st) && st.window.ready && st.window.popCol == st.window.popRow == 0
    ensures Complete(TxGeometry(cfg), st.window.rows)
    ensures Drain(cfg, st) == st.(window := EmptyWindow, wire := st.wire + Drained(TxGeometry(cfg), st.window.rows))
  {
    hide Drained, DrainFrom, FitsAll, AllFit;
    DrainTheorem(TxGeometry(cfg), st.window);
  }

  lemma PaddedFull(g: Geometry, rows: seq<Row>)
    requires ValidGeometry(g) && |rows| == g.depth
    ensures Padded(g, rows) == rows
  {
  }

  /** The builder with its block padded. */
  ghost function Full(cfg: TxConfig, st: TxState): (full: TxState)
    requires TxOk(cfg, st)
    ensures TxOk(cfg, full) && |full.builder.syms| == cfg.k && full.builder.id == st.builder.id && full.window == st.window
    ensures full.wire == st.wire
  {
    PadFits(cfg, st.builder.syms);
    st.(builder := st.builder.(syms := PadTo(st.builder.syms, cfg.k, cfg.size)))
  }

  /** After the pushes: a full window is sent. */
  lemma PushedDrains(cfg: TxConfig, codec: FecWrapper.Codec, pushed: TxState, f: seq<Piece>, m: Log, now: int)
    returns (l': Log)
    requires TxOk(cfg, pushed) && ValidTx(cfg) && Logged(cfg, codec, pushed.wire, f, m)
    requires Grown(TxGeometry(cfg), pushed.window, m)
    ensures InWindow(TxGeometry(cfg), Drain(cfg, pushed).window, l') && Drain(cfg, pushed).builder == pushed.builder
    ensures Logged(cfg, codec, Drain(cfg, pushed).wire, f, l') && Continues(m, l', now) && l'.cuts == m.cuts
  {
    hide InWindow, Logged, TxOk, Drain, Padded;
    if pushed.window.ready {
      EmptySlice(m.blocks, Last(m.sends));
      PaddedFull(TxGeometry(cfg), pushed.window.rows);
      WindowSent(cfg, codec, pushed, f, m, now);
      l' := Dispatched(m, now);
    } else {
      l' := m;
      TxHistory.DrainIdle(cfg, pushed);
    }
  }

  lemma EmptySlice(blocks: seq<Row>, i: nat)
    requires i <= |blocks|
    ensures |blocks[i..]| == |blocks| - i
  {
  }

  /** The symbols of the builder's block. */
  ghost function NextBlock(cfg: TxConfig, codec: FecWrapper.Codec, st: TxState): (block: seq<Symbol>)
    requires TxOk(cfg, st) && st.builder.id < 0x1_0000_0000
    ensures |block| == cfg.k + cfg.m
  {
    BlockSymbols(cfg, codec, Full(cfg, st).builder.syms, st.builder.id)
  }

  lemma NextLogged(cfg: TxConfig, codec: FecWrapper.Codec, st: TxState, f: seq<Piece>, n: nat, l: Log, now: int)
    requires Scheduled(cfg, codec, st, f, n, l) && TxOk(cfg, st) && st.builder.id < 0x1_0000_0000
    requires SealedWhy(cfg.k, f, Last(l.cuts), n, now)
    ensures Logged(cfg, codec, st.wire, f, Sealed(l, n, RowOf(NextBlock(cfg, codec, st), st.builder.id), now))
  {
    hide BlockSymbols, AllFit, RowOf, SealedWhy, Scheduled, Logged, TxOk;
    FullFits(cfg, st);
    LogSealed(cfg, codec, st, f, n, l, RowOf(NextBlock(cfg, codec, st), st.builder.id), now);
  }

  lemma NextPushed(cfg: TxConfig, codec: FecWrapper.Codec, st: TxState, f: seq<Piece>, n: nat, l: Log, now: int)
    returns (pushed: TxState)
    requires Scheduled(cfg, codec, st, f, n, l) && TxOk(cfg, st) && st.builder.id < 0x1_0000_0000
    ensures TxOk(cfg, pushed) && pushed.builder.id == st.builder.id && pushed.wire == st.wire && ValidTx(cfg)
    ensures EncodeAndDrain(cfg, codec, Full(cfg, st), now) == (Drain(cfg, pushed), true)
    ensures Grown(TxGeometry(cfg), pushed.window, Sealed(l, n, RowOf(NextBlock(cfg, codec, st), st.builder.id), now))
  {
    hide TxOk, BlockSymbols, AllFit, RowOf, Drain, EncodeAndDrain, InWindow, Laid, InBuilder, Scheduled, BlocksAre, PartWay, Logged, Grown;
    ScheduledParts(cfg, codec, st, f, n, l);
    BlocksOf(cfg, codec, st.wire, f, l);
    var w := BlockPushed(cfg, codec, Full(cfg, st), f, l, now);
    WindowSealed(TxGeometry(cfg), st.window, l, n, NextBlock(cfg, codec, st), st.builder.id, now);
    pushed := TxHistory.Pushed(cfg, codec, Full(cfg, st), w);
  }

  lemma SealedContinues(l: Log, n: nat, row: Row, now: int)
    ensures Continues(l, Sealed(l, n, row, now), now)
  {
  }

  lemma FullFits(cfg: TxConfig, st: TxState)
    requires TxOk(cfg, st)
    ensures AllFit(cfg, PadTo(st.builder.syms, cfg.k, cfg.size))
    ensures Full(cfg, st).builder.syms == PadTo(st.builder.syms, cfg.k, cfg.size)
  {
    PadFits(cfg, st.builder.syms);
  }

  lemma BlocksOf(cfg: TxConfig, codec: FecWrapper.Codec, wire: seq<Symbol>, f: seq<Piece>, l: Log)
    requires Logged(cfg, codec, wire, f, l)
    ensures Laid(cfg, f, l.cuts) && BlocksAre(cfg, codec, f, l)
  {
  }

  lemma StartsNext(cfg: TxConfig, codec: FecWrapper.Codec, st: TxState, f: seq<Piece>, n: nat, l: Log)
    requires TxOk(cfg, st) && n <= |f| && Last(l.cuts) == n && |l.cuts| == st.builder.id
    requires 0 < st.builder.id < 0x1_0000_0000
    requires InWindow(TxGeometry(cfg), st.window, l) && Logged(cfg, codec, st.wire, f, l)
    ensures Scheduled(cfg, codec, st.(builder := BlockBuilding.Reset(st.builder)), f, n, l)
    ensures BlockBuilding.Reset(st.builder).id == st.builder.id + 1
  {
    hide Logged, InWindow, WellFormed, FitsAll;
    TxHistory.NextIdIs(st.builder.id);
    assert TxHistory.BareAll([]) == Syms(f[n..n]);
  }

  /** Sealing the builder's block: it takes the next row, and a full window is sent. */
  lemma CloseScheduled(cfg: TxConfig, codec: FecWrapper.Codec, st: TxState, f: seq<Piece>, n: nat, l: Log, now: int)
    returns (l': Log)
    requires Scheduled(cfg, codec, st, f, n, l) && st.builder.id < 0x1_0000_0000
    requires SealedWhy(cfg.k, f, Last(l.cuts), n, now)
    ensures TxOk(cfg, st)
    ensures var (st', ok) := CloseBlock(cfg, codec, Full(cfg, st), now);
      && ok && Scheduled(cfg, codec, st', f, n, l') && st'.builder.syms == [] && st'.builder.id == st.builder.id + 1
    ensures Continues(l, l', now)
  {
    hide TxOk, SealedWhy, Drain, EncodeAndDrain, InWindow, InBuilder, Scheduled, BlockSymbols, Logged, Grown, Continues, NextBlock,
      RowOf;
    ScheduledParts(cfg, codec, st, f, n, l);
    WhyEnds(cfg.k, f, Last(l.cuts), n, now);
    var pushed := NextPushed(cfg, codec, st, f, n, l, now);
    NextLogged(cfg, codec, st, f, n, l, now);
    var row := RowOf(NextBlock(cfg, codec, st), st.builder.id);
    var m := Sealed(l, n, row, now);
    SealedContinues(l, n, row, now);
    l' := PushedDrains(cfg, codec, pushed, f, m, now);
    ContinuesOn(l, m, l', now);
    SentLast(l.cuts, Cut(n, now));
    StartsNext(cfg, codec, Drain(cfg, pushed), f, n, l');
  }

  lemma WhyEnds(k: nat, f: seq<Piece>, s: nat, e: nat, at: int)
    requires SealedWhy(k, f, s, e, at)
    ensures s < e <= |f|
  {
  }

  // ---------------------------------------------------------------------------
  // The other operations
  // ---------------------------------------------------------------------------

  lemma FlushScheduled(cfg: TxConfig, codec: FecWrapper.Codec, st: TxState, f: seq<Piece>, n: nat, l: Log, now: int)
    returns (l': Log)
    requires Scheduled(cfg, codec, st, f, n, l) && st.builder.id < 0x1_0000_0000
    requires SealedWhy(cfg.k, f, Last(l.cuts), n, now)
    ensures TxOk(cfg, st)
    ensures var (st', ok) := FlushBlock(cfg, codec, st, now);
      && ok && Scheduled(cfg, codec, st', f, n, l') && st'.builder.syms == [] && st'.builder.id == st.builder.id + 1
    ensures Continues(l, l', now)
  {
    hide CloseBlock, Scheduled, SealedWhy, TxOk;
    l' := CloseScheduled(cfg, codec, st, f, n, l, now);
  }

  /** The first block waiting in the interleaver was sealed less than 5 ms ago. */
  ghost predicate WindowPrompt(l: Log, now: int) {
    Last(l.sends) < |l.cuts| ==> now - l.cuts[Last(l.sends)].at < 5_000_000
  }

  lemma TickIs(cfg: TxConfig, codec: FecWrapper.Codec, st: TxState, f: seq<Piece>, n: nat, l: Log, now: int)
    requires Scheduled(cfg, codec, st, f, n, l)
    ensures TxOk(cfg, st) && ValidTx(cfg) && Last(l.sends) <= |l.cuts| == |l.blocks| < Last(l.sends) + cfg.depth
    ensures var due := Last(l.sends) < |l.cuts| && now - l.cuts[Last(l.sends)].at >= 5_000_000;
      var ready := Window(Padded(TxGeometry(cfg), l.blocks[Last(l.sends)..]), st.window.start, true, 0, 0);
      && (due ==> TxOk(cfg, st.(window := ready)))
      && TickAndDrain(cfg, st, now) == if due then Drain(cfg, st.(window := ready)) else st
  {
    hide RowAt, Laid, BlocksAre, Scheduled, Logged, Padded, Whole, FullRow, InBuilder, WellFormed, FitsAll, AllFit, Tick, Drain, TxOk;
    ScheduledParts(cfg, codec, st, f, n, l);
    BlocksOf(cfg, codec, st.wire, f, l);
    TxParts(cfg, st);
    var g := TxGeometry(cfg);
    Interleaving.TickKeeps(g, st.window, now);
    TickFits(cfg, st.window, now);
    if |l.cuts| + 1 < 0x1_0000_0000 { WindowReady(cfg, codec, st.window, f, l); } else { WindowWhole(cfg, codec, st.window, f, l); }
    TickWhole(g, st.window, now);
    WindowOk(cfg, st, Tick(g, st.window, now).0);
    EmptySlice(l.blocks, Last(l.sends));
  }

  lemma WindowOk(cfg: TxConfig, st: TxState, w: Window)
    requires TxOk(cfg, st) && WellFormed(TxGeometry(cfg), w) && FitsAll(cfg, w.rows)
    ensures TxOk(cfg, st.(window := w))
  {
  }

  lemma WindowWhole(cfg: TxConfig, codec: FecWrapper.Codec, w: Window, f: seq<Piece>, l: Log)
    requires Laid(cfg, f, l.cuts) && BlocksAre(cfg, codec, f, l) && InWindow(TxGeometry(cfg), w, l)
    ensures Whole(TxGeometry(cfg), w)
  {
    hide RowAt, FullRow, Laid, BlocksAre;
    BlocksFull(cfg, codec, f, l);
  }

  lemma OtherWindow(cfg: TxConfig, codec: FecWrapper.Codec, st: TxState, st': TxState, f: seq<Piece>, n: nat, l: Log, l': Log)
    requires Scheduled(cfg, codec, st, f, n, l) && TxOk(cfg, st') && st'.builder == st.builder && l'.cuts == l.cuts
    requires InWindow(TxGeometry(cfg), st'.window, l') && Logged(cfg, codec, st'.wire, f, l')
    ensures Scheduled(cfg, codec, st', f, n, l')
  {
  }

  /** After a tick nothing has waited 5 ms, and what it sends has a reason. */
  lemma TickScheduled(cfg: TxConfig, codec: FecWrapper.Codec, st: TxState, f: seq<Piece>, n: nat, l: Log, now: int)
    returns (l': Log)
    requires Scheduled(cfg, codec, st, f, n, l)
    ensures TxOk(cfg, st) && Scheduled(cfg, codec, TickAndDrain(cfg, st, now), f, n, l') && Continues(l, l', now)
    ensures TickAndDrain(cfg, st, now).builder == st.builder && l'.cuts == l.cuts && WindowPrompt(l', now)
  {
    hide TxOk, Padded, Logged, Drain, Scheduled, InWindow, TickAndDrain;
    ScheduledParts(cfg, codec, st, f, n, l);
    TickIs(cfg, codec, st, f, n, l, now);
    if Last(l.sends) < |l.cuts| && now - l.cuts[Last(l.sends)].at >= 5_000_000 {
      var ready := st.(window := Window(Padded(TxGeometry(cfg), l.blocks[Last(l.sends)..]), st.window.start, true, 0, 0));
      WindowSent(cfg, codec, ready, f, l, now);
      l' := Dispatched(l, now);
      SentLast(l.sends, Cut(|l.blocks|, now));
      OtherWindow(cfg, codec, st, Drain(cfg, ready), f, n, l, l');
    } else {
      l' := l;
    }
  }

  /** The first fragment of the open block came less than 2 ms ago. */
  ghost predicate BuilderPrompt(f: seq<Piece>, n: nat, l: Log, now: int) {
    Last(l.cuts) < n <= |f| ==> now - f[Last(l.cuts)].at < 2_000_000
  }

  lemma BuilderCount(cfg: TxConfig, codec: FecWrapper.Codec, st: TxState, f: seq<Piece>, n: nat, l: Log)
    requires Scheduled(cfg, codec, st, f, n, l)
    ensures Last(l.cuts) <= n <= |f| && |st.builder.syms| == n - Last(l.cuts)
    ensures st.builder.syms != [] ==> st.builder.first == f[Last(l.cuts)].at
  {
    assert |TxHistory.BareAll(st.builder.syms)| == |st.builder.syms|;
  }

  /** Once a packet is in, or when none comes: no open block is left whose first fragment came 2 ms ago. */
  lemma TimeoutScheduled(cfg: TxConfig, codec: FecWrapper.Codec, st: TxState, f: seq<Piece>, l: Log, now: int) returns (l': Log)
    requires Scheduled(cfg, codec, st, f, |f|, l) && st.builder.id < 0x1_0000_0000
    ensures TxOk(cfg, st)
    ensures var (st', ok) := FlushIfTimedOut(cfg, codec, st, now);
      && ok && Scheduled(cfg, codec, st', f, |f|, l') && st'.builder.id <= st.builder.id + 1
      && (|st.builder.syms| < cfg.k ==> |st'.builder.syms| < cfg.k)
    ensures Continues(l, l', now) && BuilderPrompt(f, |f|, l', now)
  {
    hide TxOk, Scheduled, FlushBlock, InBuilder, InWindow, Logged;
    ScheduledParts(cfg, codec, st, f, |f|, l);
    BuilderCount(cfg, codec, st, f, |f|, l);
    if st.builder.syms != [] && now - st.builder.first >= 2_000_000 {
      l' := FlushScheduled(cfg, codec, st, f, |f|, l, now);
      BuilderCount(cfg, codec, FlushBlock(cfg, codec, st, now).0, f, |f|, l');
    } else {
      l' := l;
    }
  }

  /** The pieces from n on are one packet's, just arriving. */
  ghost predicate Arriving(f: seq<Piece>, n: nat, frags: nat, now: int) {
    n + frags == |f| && (frags > 0 ==> f[n].sym.index == 0 && f[n].sym.total == frags && f[n].at == now)
  }

  /** Once room is made a packet of at most k fragments fits in the open block. */
  lemma RoomScheduled(cfg: TxConfig, codec: FecWrapper.Codec, st: TxState, f: seq<Piece>, n: nat, l: Log, frags: nat, now: int)
    returns (l': Log)
    requires Scheduled(cfg, codec, st, f, n, l) && st.builder.id < 0x1_0000_0000 && Arriving(f, n, frags, now)
    ensures TxOk(cfg, st)
    ensures var (st', ok) := MakeRoom(cfg, codec, st, frags, now);
      && ok && Scheduled(cfg, codec, st', f, n, l') && st.builder.id <= st'.builder.id <= st.builder.id + 1
      && (|st.builder.syms| < cfg.k ==> |st'.builder.syms| < cfg.k)
      && (frags > cfg.k || |st'.builder.syms| + frags <= cfg.k)
    ensures Continues(l, l', now)
  {
    hide TxOk, Scheduled, FlushBlock, InBuilder, InWindow, Logged, TickAndDrain, Continues;
    ScheduledParts(cfg, codec, st, f, n, l);
    BuilderCount(cfg, codec, st, f, n, l);
    if frags > 0 && st.builder.syms != [] && |st.builder.syms| + frags > cfg.k {
      var m := FlushScheduled(cfg, codec, st, f, n, l, now);
      l' := TickScheduled(cfg, codec, FlushBlock(cfg, codec, st, now).0, f, n, m, now);
      ContinuesOn(l, m, l', now);
    } else {
      l' := l;
      SameLog(l, now);
    }
  }

  lemma SameLog(l: Log, now: int)
    ensures Continues(l, l, now)
  {
  }

  /** A packet that fits in what is left of the open block shares it. */
  lemma RoomKept(cfg: TxConfig, codec: FecWrapper.Codec, st: TxState, frags: nat, now: int)
    requires TxOk(cfg, st) && |st.builder.syms| + frags <= cfg.k
    ensures MakeRoom(cfg, codec, st, frags, now) == (st, true)
  {
  }
}
