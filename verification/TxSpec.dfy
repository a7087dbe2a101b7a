/**
 Specification of the transmit pipeline (src/tx_pipeline.c): packing, encoding, interleaving, sending, each
 as a function from state to state.
 */
module TxSpec {
  import opened Types
  import opened BlockBuilding
  import opened Fragmentation
  import opened SymbolCrc
  import FecWrapper
  import opened Interleaving
  import opened InterleaverWindows
  import Arithmetic

  datatype TxConfig = TxConfig(k: nat, m: nat, depth: nat, size: nat, crcOn: bool)

  ghost predicate ValidTx(cfg: TxConfig) {
    2 <= cfg.k && 1 <= cfg.m && cfg.k + cfg.m <= MAX_SYMBOLS_PER_BLOCK
    && 1 <= cfg.depth && 0 < cfg.size <= MAX_SYMBOL_DATA_SIZE
  }

  /** The clock runs in nanoseconds. */
  const BLOCK_TIMEOUT := 2_000_000
  const FLUSH_TIMEOUT := 5_000_000
  const TX_MAX_PACKET_LEN := 9000

  function TxGeometry(cfg: TxConfig): Geometry {
    Geometry(cfg.depth, cfg.k + cfg.m, cfg.size, FLUSH_TIMEOUT)
  }

  /** max_frags_per_packet: at least k, whatever the longest packet needs. */
  function MaxFrags(cfg: TxConfig): nat
    requires cfg.size > 0
  {
    var need := Count(TX_MAX_PACKET_LEN, cfg.size);
    if need < cfg.k then cfg.k else need
  }

  // ---------------------------------------------------------------------------
  // Encoding a block
  // ---------------------------------------------------------------------------

  predicate Fits(cfg: TxConfig, s: Symbol) {
    |s.data| == cfg.size && s.len <= cfg.size
  }

  predicate AllFit(cfg: TxConfig, syms: seq<Symbol>) {
    forall i :: 0 <= i < |syms| ==> Fits(cfg, syms[i])
  }

  /** source_buf: the first n symbols' data, end to end. */
  function SourceBytes(syms: seq<Symbol>, n: nat): seq<byte>
    requires n <= |syms|
  {
    if n == 0 then [] else SourceBytes(syms, n - 1) + syms[n - 1].data
  }

  function Seal(cfg: TxConfig, s: Symbol): (t: Symbol)
    requires Fits(cfg, s)
    ensures Fits(cfg, t) && t == s.(crc := t.crc)
  {
    if cfg.crcOn then Stamped(s) else s
  }

  /** A source symbol takes the block's id and its position; index and total stay the packet's. */
  function SourceOf(cfg: TxConfig, s: Symbol, id: uint32, i: uint32): (t: Symbol)
    requires Fits(cfg, s)
    ensures Fits(cfg, t)
  {
    Seal(cfg, s.(packetId := id, fecId := i))
  }

  /** Repair data; the encoder always fills a whole symbol. */
  function RepairData(cfg: TxConfig, codec: FecWrapper.Codec, src: seq<byte>, i: nat): (d: seq<byte>)
    ensures |d| == cfg.size
  {
    var d := codec.encode(src, i);
    if |d| == cfg.size then d else Zeros(cfg.size)
  }

  function RepairOf(cfg: TxConfig, codec: FecWrapper.Codec, src: seq<byte>, id: uint32, i: uint16): (t: Symbol)
    requires cfg.k + cfg.m <= MAX_SYMBOLS_PER_BLOCK && cfg.size <= MAX_SYMBOL_DATA_SIZE
    ensures Fits(cfg, t)
  {
    Seal(cfg, Symbol(id, i, i, cfg.k + cfg.m, cfg.size, 0, RepairData(cfg, codec, src, i)))
  }

  /** The k + m symbols of an encoded block. */
  function BlockSymbols(cfg: TxConfig, codec: FecWrapper.Codec, syms: seq<Symbol>, id: uint32): (b: seq<Symbol>)
    requires ValidTx(cfg) && |syms| == cfg.k && AllFit(cfg, syms)
    ensures |b| == cfg.k + cfg.m && AllFit(cfg, b)
    ensures forall i :: 0 <= i < |b| ==> b[i].packetId == id && b[i].fecId == i
  {
    var src := SourceBytes(syms, cfg.k);
    seq(cfg.k + cfg.m, i requires 0 <= i < cfg.k + cfg.m =>
      if i < cfg.k then SourceOf(cfg, syms[i], id, i) else RepairOf(cfg, codec, src, id, i))
  }

  // ---------------------------------------------------------------------------
  // The pipeline
  // ---------------------------------------------------------------------------

  /** `wire` is the sequence of symbols sent so far. */
  datatype TxState = TxState(builder: Builder, window: Window, nextPacket: uint32, wire: seq<Symbol>)

  const InitialTx := TxState(EmptyBuilder, EmptyWindow, 0, [])

  /** What every operation may rely on: the buffers hold whole symbols and are within bounds. */
  ghost predicate TxOk(cfg: TxConfig, st: TxState) {
    && ValidTx(cfg) && WellFormed(TxGeometry(cfg), st.window)
    && |st.builder.syms| <= cfg.k && AllFit(cfg, st.builder.syms)
    && FitsAll(cfg, st.window.rows) && AllFit(cfg, st.wire)
  }

  ghost predicate FitsAll(cfg: TxConfig, rows: seq<Row>) {
    forall r, c :: 0 <= r < |rows| && c in rows[r].cells ==> Fits(cfg, rows[r].cells[c])
  }

  lemma InitialOk(cfg: TxConfig)
    requires ValidTx(cfg)
    ensures TxOk(cfg, InitialTx)
  {
  }

  lemma ItemFits(cfg: TxConfig, rows: seq<Row>, i: nat)
    requires ValidTx(cfg) && Complete(TxGeometry(cfg), rows) && FitsAll(cfg, rows)
    requires i < (cfg.k + cfg.m) * cfg.depth
    ensures Fits(cfg, DrainItem(TxGeometry(cfg), rows, i))
  {
    hide Fits;
    Arithmetic.DivBound(cfg.depth, cfg.k + cfg.m, i);
  }

  lemma DrainedFits(cfg: TxConfig, rows: seq<Row>)
    requires ValidTx(cfg) && Complete(TxGeometry(cfg), rows) && FitsAll(cfg, rows)
    ensures AllFit(cfg, Drained(TxGeometry(cfg), rows))
  {
    hide Fits, Complete, FitsAll, DrainItem;
    var g := TxGeometry(cfg);
    forall i | 0 <= i < g.n * g.depth ensures Fits(cfg, Drained(g, rows)[i]) {
      ItemFits(cfg, rows, i);
    }
  }

  /** The drain loops: pop and send until the window resets. */
  ghost function Drain(cfg: TxConfig, st: TxState): (st': TxState)
    requires TxOk(cfg, st)
    ensures TxOk(cfg, st') && st'.builder == st.builder && !st'.window.ready
  {
    EmptyIsWellFormed(TxGeometry(cfg));
    if st.window.ready then
      DrainSuffix(TxGeometry(cfg), st.window);
      DrainedFits(cfg, st.window.rows);
      st.(window := EmptyWindow, wire := st.wire + DrainFrom(TxGeometry(cfg), st.window))
    else st
  }

  lemma PushFits(cfg: TxConfig, w: Window, s: Symbol, now: int)
    requires ValidTx(cfg) && FitsAll(cfg, w.rows) && Fits(cfg, s)
    ensures FitsAll(cfg, Push(TxGeometry(cfg), w, s, now).0.rows)
  {
    assert FitsAll(cfg, RowsFor(w.rows, s.packetId));
  }

  lemma TickFits(cfg: TxConfig, w: Window, now: int)
    requires ValidTx(cfg) && FitsAll(cfg, w.rows)
    ensures FitsAll(cfg, Tick(TxGeometry(cfg), w, now).0.rows)
  {
    var rows := FillAll(TxGeometry(cfg), w.rows);
    forall r, c | 0 <= r < |rows| && c in rows[r].cells
      ensures Fits(cfg, rows[r].cells[c])
    {
      var row := if r < |w.rows| then w.rows[r] else Row(0, map[]);
      assert rows[r] == row || rows[r] == FillRow(TxGeometry(cfg), row);
    }
  }

  /** Pushing symbols i, i + 1, ... until one is rejected. */
  ghost function PushFrom(cfg: TxConfig, w: Window, syms: seq<Symbol>, i: nat, now: int): (res: (Window, bool))
    requires ValidTx(cfg) && WellFormed(TxGeometry(cfg), w) && FitsAll(cfg, w.rows) && AllFit(cfg, syms)
    requires i <= |syms|
    ensures WellFormed(TxGeometry(cfg), res.0) && FitsAll(cfg, res.0.rows)
    decreases |syms| - i
  {
    if i == |syms| then (w, true)
    else
      PushKeeps(TxGeometry(cfg), w, syms[i], now);
      PushFits(cfg, w, syms[i], now);
      var (w', rc) := Push(TxGeometry(cfg), w, syms[i], now);
      if rc == -1 then (w', false) else PushFrom(cfg, w', syms, i + 1, now)
  }

  /** The 32-bit id under which the builder's block travels. */
  function WireId(b: Builder): uint32 {
    b.id % 0x1_0000_0000
  }

  /** encode_and_drain on a full builder, whose symbols it seals in place: false when a push was rejected. */
  ghost function EncodeAndDrain(cfg: TxConfig, codec: FecWrapper.Codec, st: TxState, now: int): (res: (TxState, bool))
    requires TxOk(cfg, st) && |st.builder.syms| == cfg.k
    ensures TxOk(cfg, res.0) && res.0.builder.id == st.builder.id
  {
    var block := BlockSymbols(cfg, codec, st.builder.syms, WireId(st.builder));
    var before := Drain(cfg, st.(builder := st.builder.(syms := block[..cfg.k])));
    var (w, ok) := PushFrom(cfg, before.window, block, 0, now);
    if ok then (Drain(cfg, before.(window := w)), true) else (before.(window := w), false)
  }

  /** tick_and_drain_interleaver. */
  ghost function TickAndDrain(cfg: TxConfig, st: TxState, now: int): (st': TxState)
    requires TxOk(cfg, st)
    ensures TxOk(cfg, st') && st'.builder == st.builder
  {
    Interleaving.TickKeeps(TxGeometry(cfg), st.window, now);
    TickFits(cfg, st.window, now);
    var (w, rc) := Tick(TxGeometry(cfg), st.window, now);
    if rc == 1 then Drain(cfg, st.(window := w)) else st.(window := w)
  }

  /** Encode the builder's block, then start the next. */
  ghost function CloseBlock(cfg: TxConfig, codec: FecWrapper.Codec, st: TxState, now: int): (res: (TxState, bool))
    requires TxOk(cfg, st) && |st.builder.syms| == cfg.k
    ensures TxOk(cfg, res.0)
  {
    var (st', ok) := EncodeAndDrain(cfg, codec, st, now);
    if ok then (st'.(builder := BlockBuilding.Reset(st'.builder)), true) else (st', false)
  }

  lemma PadFits(cfg: TxConfig, syms: seq<Symbol>)
    requires |syms| <= cfg.k && AllFit(cfg, syms)
    ensures AllFit(cfg, PadTo(syms, cfg.k, cfg.size))
  {
  }

  /** The builder's block is padded, encoded and replaced by the next. */
  ghost function FlushBlock(cfg: TxConfig, codec: FecWrapper.Codec, st: TxState, now: int): (res: (TxState, bool))
    requires TxOk(cfg, st)
    ensures TxOk(cfg, res.0)
  {
    PadFits(cfg, st.builder.syms);
    CloseBlock(cfg, codec, st.(builder := st.builder.(syms := PadTo(st.builder.syms, cfg.k, cfg.size))), now)
  }

  ghost function FlushIfTimedOut(cfg: TxConfig, codec: FecWrapper.Codec, st: TxState, now: int): (res: (TxState, bool))
    requires TxOk(cfg, st)
    ensures TxOk(cfg, res.0)
  {
    if TimedOut(st.builder, BLOCK_TIMEOUT, now) then FlushBlock(cfg, codec, st, now) else (st, true)
  }

  /** The fragment loop: a block that fills up is closed on the spot; a full builder drops the fragment. */
  ghost function AddFrom(cfg: TxConfig, codec: FecWrapper.Codec, st: TxState, f: seq<Symbol>, i: nat, now: int)
    : (res: (TxState, bool))
    requires TxOk(cfg, st) && AllFit(cfg, f) && i <= |f|
    ensures TxOk(cfg, res.0)
    decreases |f| - i
  {
    if i == |f| then (st, true)
    else if |st.builder.syms| == cfg.k then AddFrom(cfg, codec, st, f, i + 1, now)
    else
      var added := st.(builder := Add(st.builder, f[i], now));
      if |added.builder.syms| < cfg.k then AddFrom(cfg, codec, added, f, i + 1, now)
      else
        var (closed, ok) := CloseBlock(cfg, codec, added, now);
        if !ok then (closed, false) else AddFrom(cfg, codec, TickAndDrain(cfg, closed, now), f, i + 1, now)
  }

  /** What packet_io_receive and the filters behind it yield: nothing, something not forwarded, or a packet. */
  datatype Input = Idle | NotForwarded | Lan(packet: seq<byte>)

  /** The block is flushed before a packet that would not fit in what is left of it. */
  ghost function MakeRoom(cfg: TxConfig, codec: FecWrapper.Codec, st: TxState, frags: nat, now: int): (res: (TxState, bool))
    requires TxOk(cfg, st)
    ensures TxOk(cfg, res.0)
  {
    if frags > 0 && st.builder.syms != [] && |st.builder.syms| + frags > cfg.k then
      var (flushed, ok) := FlushBlock(cfg, codec, st, now);
      if ok then (TickAndDrain(cfg, flushed, now), true) else (flushed, false)
    else (st, true)
  }

  lemma FragmentsFit(cfg: TxConfig, p: seq<byte>, id: uint32)
    requires ValidTx(cfg) && FragmentAll(p, id, cfg.size, MaxFrags(cfg)).Some?
    ensures AllFit(cfg, FragmentAll(p, id, cfg.size, MaxFrags(cfg)).syms)
  {
    forall i | 0 <= i < Count(|p|, cfg.size) ensures Fits(cfg, Fragment(p, id, cfg.size, i)) {
      CountBounds(|p|, cfg.size, i);
    }
  }

  /** The packet's fragments go into the builder. */
  ghost function TakePacket(cfg: TxConfig, codec: FecWrapper.Codec, st: TxState, f: seq<Symbol>, now: int): (res: (TxState, bool))
    requires TxOk(cfg, st) && AllFit(cfg, f)
    ensures TxOk(cfg, res.0)
  {
    var (roomy, ok) := MakeRoom(cfg, codec, st, |f|, now);
    if !ok then (roomy, false)
    else
      var (added, ok') := AddFrom(cfg, codec, roomy, f, 0, now);
      if !ok' then (added, false) else FlushIfTimedOut(cfg, codec, added, now)
  }

  /** tx_pipeline_run_once: the new state, and false for its -1. */
  ghost function RunOnce(cfg: TxConfig, codec: FecWrapper.Codec, st: TxState, input: Input, now: int): (res: (TxState, bool))
    requires TxOk(cfg, st)
    ensures TxOk(cfg, res.0)
  {
    match input
    case Idle =>
      var (flushed, ok) := FlushIfTimedOut(cfg, codec, st, now);
      if ok then (TickAndDrain(cfg, flushed, now), true) else (flushed, false)
    case NotForwarded => (st, true)
    case Lan(p) =>
      match FragmentAll(p, st.nextPacket, cfg.size, MaxFrags(cfg))
      case None => (st, true)
      case Some(f) =>
        FragmentsFit(cfg, p, st.nextPacket);
        var counted := st.(nextPacket := (st.nextPacket + 1) % 0x1_0000_0000);
        var (taken, ok) := TakePacket(cfg, codec, counted, f, now);
        if ok then (TickAndDrain(cfg, taken, now), true) else (taken, false)
  }
}
