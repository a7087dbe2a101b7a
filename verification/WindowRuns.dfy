/** A whole window over an in-order lossless link: the frames of its drain, with idle polls in between. */
module WindowRuns {
  import opened Types
  import opened Arithmetic
  import opened Interleaving
  import opened InterleaverWindows
  import opened DeinterleaverSpec
  import opened DeinterleaverMap
  import opened WindowRecovery
  import FecWrapper
  import Wire
  import SymbolCrc
  import opened TxSpec
  import opened TxHistory
  import opened RxSpec
  import opened WindowDelivery

  datatype RxEvent = RxEvent(input: RxInput, now: int)

  ghost function RxRun(cfg: TxConfig, codec: FecWrapper.Codec, st: RxState, es: seq<RxEvent>): (st': RxState)
    requires RxOk(cfg, st.dil)
    ensures RxOk(cfg, st'.dil)
  {
    if es == [] then st
    else
      var e := es[|es| - 1];
      RxOnce(cfg, codec, RxRun(cfg, codec, st, es[..|es| - 1]), e.input, e.now)
  }

  /** A symbol the wire format carries without loss. */
  ghost predicate Clean(cfg: TxConfig, s: Symbol) {
    && Fits(cfg, s) && cfg.size <= MAX_SYMBOL_DATA_SIZE
    && (forall i :: s.len <= i < |s.data| ==> s.data[i] == 0)
    && (cfg.crcOn && !IsErasure(s) ==> SymbolCrc.Verifies(s))
  }

  lemma CleanParses(cfg: TxConfig, s: Symbol, bytes: seq<byte>)
    requires Clean(cfg, s) && Begins(s, bytes)
    ensures Wire.Parse(bytes, cfg.size, cfg.crcOn) == if IsErasure(s) then Wire.Padding(s) else Wire.Accepted(s)
  {
    hide SymbolCrc.Verifies, Wire.Parse, Wire.Serialise;
    var trailing := bytes[|Wire.Serialise(s)|..];
    assert bytes == Wire.Serialise(s) + trailing;
    Wire.ParseSerialised(s, trailing, cfg.crcOn);
    assert Wire.Transmitted(s).data == s.data;
    if IsErasure(s) { assert s.data == Zeros(|s.data|); }
  }

  ghost predicate CleanRows(cfg: TxConfig, rows: seq<Row>) {
    forall r, c :: 0 <= r < |rows| && c in rows[r].cells ==> Clean(cfg, rows[r].cells[c])
  }

  /** The time window in which a window's symbols must arrive. */
  predicate Within(t0: int, now: int) {
    t0 <= now < t0 + STABILIZATION
  }

  /** The frame starts with the symbol's serialisation; padding may follow. */
  predicate Begins(s: Symbol, bytes: seq<byte>) {
    s.len <= |s.data| && Wire.Serialise(s) <= bytes
  }

  /**
   The events deliver the first |d| symbols of a window in order: frames that begin with them, any
   idle polls between, all in time; before the first frame and after the last, polls come at any time.
   */
  ghost predicate Delivers(cfg: TxConfig, es: seq<RxEvent>, d: seq<Symbol>, area: nat, t0: int)
  {
    if es == [] then d == []
    else
      var before, e := es[..|es| - 1], es[|es| - 1];
      match e.input
      case Frame(bytes) =>
        && d != [] && Within(t0, e.now) && Begins(d[|d| - 1], bytes)
        && Delivers(cfg, before, d[..|d| - 1], area, t0)
      case _ => (0 < |d| < area ==> Within(t0, e.now)) && Delivers(cfg, before, d, area, t0)
  }

  /** The symbols of one window. */
  function Area(cfg: TxConfig): nat {
    (cfg.k + cfg.m) * cfg.depth
  }

  /** The column and the row of position p of a drain. */
  function ColOf(cfg: TxConfig, p: nat): nat
    requires 1 <= cfg.depth
  {
    p / cfg.depth
  }

  function RowAt(cfg: TxConfig, p: nat): (r: nat)
    requires 1 <= cfg.depth
    ensures r < cfg.depth
  {
    p % cfg.depth
  }

  /** The packets sent over the first p positions of a window. */
  ghost function SentUpTo(cfg: TxConfig, codec: FecWrapper.Codec, rows: seq<Row>, p: nat): seq<PacketBytes>
    requires ValidTx(cfg) && Transmittable(TxGeometry(cfg), RxConfig(cfg), rows)
  {
    if p == 0 then []
    else SentUpTo(cfg, codec, rows, p - 1) + SentAt(cfg, codec, rows, ColOf(cfg, p - 1), RowAt(cfg, p - 1))
  }

  /** The receiver after p positions of a window. */
  ghost predicate At(cfg: TxConfig, st: RxState, rows: seq<Row>, p: nat, t0: int)
  {
    ValidTx(cfg) && Holding(cfg, st, rows, ColOf(cfg, p), RowAt(cfg, p), t0)
  }

  lemma EndCoordinates(cfg: TxConfig)
    requires ValidTx(cfg)
    ensures ColOf(cfg, 0) == 0 && RowAt(cfg, 0) == 0
    ensures ColOf(cfg, Area(cfg)) == cfg.k + cfg.m && RowAt(cfg, Area(cfg)) == 0
  {
    DivModOf(cfg.depth, cfg.k + cfg.m, 0);
    DivModOf(cfg.depth, 0, 0);
  }

  lemma AtEnds(cfg: TxConfig, st: RxState, rows: seq<Row>, t0: int)
    requires RxOk(cfg, st.dil) && Transmittable(TxGeometry(cfg), RxConfig(cfg), rows)
    ensures At(cfg, st, rows, 0, t0) <==> Blocks(st.dil.slots) == map[]
    ensures At(cfg, st, rows, Area(cfg), t0) <==> Blocks(st.dil.slots) == map[]
  {
    hide Blocks, InHand, Transmittable, RxOk;
    ValidIs(cfg, st.dil);
    TransmittableComplete(cfg, rows);
    NothingInHand(TxGeometry(cfg), Blocks(st.dil.slots), rows, t0);
    EndCoordinates(cfg);
  }

  lemma ValidIs(cfg: TxConfig, dil: State)
    requires RxOk(cfg, dil)
    ensures ValidTx(cfg)
  {
  }

  /** Moving on one position. */
  lemma NextPosition(cfg: TxConfig, st: RxState, rows: seq<Row>, p: nat, t0: int)
    requires ValidTx(cfg) && Holding(cfg, st, rows, ColOf(cfg, p), RowAt(cfg, p) + 1, t0)
    ensures At(cfg, st, rows, p + 1, t0)
  {
    hide InHand, Transmittable, RxOk;
    DivModSucc(p, cfg.depth);
    TransmittableComplete(cfg, rows);
    if RowAt(cfg, p) + 1 == cfg.depth {
      NextColumn(TxGeometry(cfg), Blocks(st.dil.slots), rows, ColOf(cfg, p), t0);
    }
  }

  lemma FrameIs(cfg: TxConfig, codec: FecWrapper.Codec, st: RxState, s: Symbol, bytes: seq<byte>, now: int)
    requires RxOk(cfg, st.dil) && Clean(cfg, s) && Begins(s, bytes)
    ensures ValidConfig(RxConfig(cfg))
    ensures var ticked := st.(dil := DeinterleaverSpec.Tick(RxConfig(cfg), st.dil, -1, now));
      RxOk(cfg, ticked.dil) && RxOnce(cfg, codec, st, Frame(bytes), now) == TakeSymbol(cfg, codec, ticked, s, now)
  {
    hide CellsFit, TakeSymbol, Clean, Wire.Parse, Begins, DeinterleaverSpec.Tick, IsErasure;
    TickFitsAll(cfg, st.dil, -1, now);
    CleanParses(cfg, s, bytes);
  }

  /** The frame of position p. */
  lemma FrameStep(cfg: TxConfig, codec: FecWrapper.Codec, st: RxState, rows: seq<Row>, p: nat, t0: int,
                  bytes: seq<byte>, now: int)
    requires RxOk(cfg, st.dil) && At(cfg, st, rows, p, t0) && CleanRows(cfg, rows) && Within(t0, now)
    requires p < Area(cfg) && Complete(TxGeometry(cfg), rows)
    requires Begins(Drained(TxGeometry(cfg), rows)[p], bytes)
    ensures var st' := RxOnce(cfg, codec, st, Frame(bytes), now);
      && Transmittable(TxGeometry(cfg), RxConfig(cfg), rows)
      && At(cfg, st', rows, p + 1, t0)
      && st'.sent == st.sent + SentAt(cfg, codec, rows, ColOf(cfg, p), RowAt(cfg, p))
  {
    hide InHand, Transmittable, RxOk, TakeSymbol, Clean, Begins, DeinterleaverSpec.Tick, IsErasure, At, RxOnce, Holding,
      DrainReady, BlockPackets;
    AtIs(cfg, st, rows, p, t0);
    DivBound(cfg.depth, cfg.k + cfg.m, p);
    var col, row := ColOf(cfg, p), RowAt(cfg, p);
    var s := rows[row].cells[col];
    FrameIs(cfg, codec, st, s, bytes, now);
    TickHolds(cfg, st, rows, col, row, t0, now);
    var ticked := st.(dil := DeinterleaverSpec.Tick(RxConfig(cfg), st.dil, -1, now));
    ErasureIsPadding(cfg, rows, col, row);
    if rows[row].key == 0 {
      TakePadding(cfg, codec, ticked, rows, col, row, t0, s, now);
      assert st.sent + [] == st.sent;
    } else {
      TakeCell(cfg, codec, ticked, rows, col, row, t0, now);
    }
    NextPosition(cfg, RxOnce(cfg, codec, st, Frame(bytes), now), rows, p, t0);
  }

  lemma AtIs(cfg: TxConfig, st: RxState, rows: seq<Row>, p: nat, t0: int)
    requires At(cfg, st, rows, p, t0)
    ensures ValidTx(cfg) && Holding(cfg, st, rows, ColOf(cfg, p), RowAt(cfg, p), t0)
    ensures Transmittable(TxGeometry(cfg), RxConfig(cfg), rows)
  {
  }

  lemma ErasureIsPadding(cfg: TxConfig, rows: seq<Row>, col: nat, row: nat)
    requires Transmittable(TxGeometry(cfg), RxConfig(cfg), rows) && row < cfg.depth && col < cfg.k + cfg.m
    ensures row < |rows| && col in rows[row].cells
    ensures IsErasure(rows[row].cells[col]) <==> rows[row].key == 0
  {
  }

  /** A poll without a frame, in time or with nothing in hand. */
  lemma IdleStep(cfg: TxConfig, codec: FecWrapper.Codec, st: RxState, rows: seq<Row>, p: nat, t0: int, input: RxInput, now: int)
    requires RxOk(cfg, st.dil) && At(cfg, st, rows, p, t0) && !input.Frame? && p <= Area(cfg)
    requires 0 < p < Area(cfg) ==> Within(t0, now)
    ensures var st' := RxOnce(cfg, codec, st, input, now);
      At(cfg, st', rows, p, t0) && st'.sent == st.sent
  {
    hide InHand, Transmittable, RxOk, DeinterleaverSpec.Tick, At, DrainReady, Blocks;
    AtIs(cfg, st, rows, p, t0);
    TransmittableComplete(cfg, rows);
    var ticked := st.(dil := DeinterleaverSpec.Tick(RxConfig(cfg), st.dil, -1, now));
    TickFitsAll(cfg, st.dil, -1, now);
    if 0 < p < Area(cfg) {
      TickHolds(cfg, st, rows, ColOf(cfg, p), RowAt(cfg, p), t0, now);
    } else {
      AtEnds(cfg, st, rows, t0);
      AtEnds(cfg, ticked, rows, t0);
      InvOf(cfg, st.dil);
      TickEmpty(RxConfig(cfg), st.dil, now);
    }
    HoldingAt(cfg, ticked, rows, p, t0);
    InHandNotReady(TxGeometry(cfg), Blocks(ticked.dil.slots), rows, ColOf(cfg, p), RowAt(cfg, p), t0);
    DrainNothing(cfg, codec, ticked);
  }

  lemma InvOf(cfg: TxConfig, st: State)
    requires RxOk(cfg, st)
    ensures ValidConfig(RxConfig(cfg)) && Inv(RxConfig(cfg), st)
  {
  }

  lemma HoldingAt(cfg: TxConfig, st: RxState, rows: seq<Row>, p: nat, t0: int)
    requires ValidTx(cfg)
    ensures At(cfg, st, rows, p, t0) <==> Holding(cfg, st, rows, ColOf(cfg, p), RowAt(cfg, p), t0)
  {
  }

  /** After the first |d| symbols: their cells are in hand, and the completed rows' packets are sent. */
  lemma {:induction false} DeliveryHolds(cfg: TxConfig, codec: FecWrapper.Codec, st: RxState, rows: seq<Row>,
                                         es: seq<RxEvent>, p: nat, t0: int)
    requires RxOk(cfg, st.dil) && Blocks(st.dil.slots) == map[]
    requires Transmittable(TxGeometry(cfg), RxConfig(cfg), rows) && CleanRows(cfg, rows)
    requires p <= Area(cfg) && Complete(TxGeometry(cfg), rows)
    requires Delivers(cfg, es, Drained(TxGeometry(cfg), rows)[..p], Area(cfg), t0)
    ensures var st' := RxRun(cfg, codec, st, es);
      At(cfg, st', rows, p, t0) && st'.sent == st.sent + SentUpTo(cfg, codec, rows, p)
  {
    hide Transmittable, CleanRows, RxOk, At, RxOnce, SentAt, Blocks, Drained, Begins;
    ValidIs(cfg, st.dil);
    var d := Drained(TxGeometry(cfg), rows)[..p];
    if es == [] {
      AtEnds(cfg, st, rows, t0);
      assert p == 0;
    } else {
      var before, e := es[..|es| - 1], es[|es| - 1];
      if e.input.Frame? {
        assert d[..p - 1] == Drained(TxGeometry(cfg), rows)[..p - 1];
        DeliveryHolds(cfg, codec, st, rows, before, p - 1, t0);
        FrameStep(cfg, codec, RxRun(cfg, codec, st, before), rows, p - 1, t0, e.input.bytes, e.now);
      } else {
        DeliveryHolds(cfg, codec, st, rows, before, p, t0);
        IdleStep(cfg, codec, RxRun(cfg, codec, st, before), rows, p, t0, e.input, e.now);
      }
    }
  }

  // ---------------------------------------------------------------------------
  // The whole window
  // ---------------------------------------------------------------------------

  /** The packets of the first r rows, each sent when its row completes. */
  ghost function RowsSent(cfg: TxConfig, codec: FecWrapper.Codec, rows: seq<Row>, r: nat): seq<PacketBytes>
    requires ValidTx(cfg) && Transmittable(TxGeometry(cfg), RxConfig(cfg), rows) && r <= cfg.depth
  {
    if r == 0 then []
    else RowsSent(cfg, codec, rows, r - 1) + SentAt(cfg, codec, rows, cfg.k + cfg.m - 1, r - 1)
  }

  /** The first position of the last column. */
  function LastColumn(cfg: TxConfig): nat
    requires ValidTx(cfg)
  {
    (cfg.k + cfg.m - 1) * cfg.depth
  }

  /** Nothing completes before the last column. */
  lemma {:induction false} SentBefore(cfg: TxConfig, codec: FecWrapper.Codec, rows: seq<Row>, p: nat)
    requires ValidTx(cfg) && Transmittable(TxGeometry(cfg), RxConfig(cfg), rows) && p <= LastColumn(cfg)
    ensures SentUpTo(cfg, codec, rows, p) == []
  {
    hide Transmittable, BlockPackets;
    if p > 0 {
      SentBefore(cfg, codec, rows, p - 1);
      DivBound(cfg.depth, cfg.k + cfg.m - 1, p - 1);
    }
  }

  lemma LastCoordinates(cfg: TxConfig, r: nat)
    requires ValidTx(cfg) && r < cfg.depth
    ensures ColOf(cfg, LastColumn(cfg) + r) == cfg.k + cfg.m - 1 && RowAt(cfg, LastColumn(cfg) + r) == r
  {
    DivModOf(cfg.depth, cfg.k + cfg.m - 1, r);
  }

  lemma {:induction false} SentThen(cfg: TxConfig, codec: FecWrapper.Codec, rows: seq<Row>, r: nat)
    requires ValidTx(cfg) && Transmittable(TxGeometry(cfg), RxConfig(cfg), rows) && r <= cfg.depth
    ensures SentUpTo(cfg, codec, rows, LastColumn(cfg) + r) == RowsSent(cfg, codec, rows, r)
  {
    hide Transmittable, SentAt, ColOf, RowAt, LastColumn;
    if r == 0 {
      SentBefore(cfg, codec, rows, LastColumn(cfg));
    } else {
      SentThen(cfg, codec, rows, r - 1);
      LastCoordinates(cfg, r - 1);
    }
  }

  lemma AreaIs(cfg: TxConfig)
    requires ValidTx(cfg)
    ensures Area(cfg) == LastColumn(cfg) + cfg.depth == TxGeometry(cfg).n * TxGeometry(cfg).depth
  {
    assert (cfg.k + cfg.m) * cfg.depth == (cfg.k + cfg.m - 1) * cfg.depth + cfg.depth;
  }

  /**
   A window delivered in order and in time to an empty receiver: the packets of its rows are sent
   in row order, and the receiver is empty again.
   */
  lemma WindowTheorem(cfg: TxConfig, codec: FecWrapper.Codec, st: RxState, rows: seq<Row>, es: seq<RxEvent>, t0: int)
    requires RxOk(cfg, st.dil) && Blocks(st.dil.slots) == map[]
    requires Transmittable(TxGeometry(cfg), RxConfig(cfg), rows) && CleanRows(cfg, rows)
    requires Complete(TxGeometry(cfg), rows)
    requires Delivers(cfg, es, Drained(TxGeometry(cfg), rows), Area(cfg), t0)
    ensures var st' := RxRun(cfg, codec, st, es);
      Blocks(st'.dil.slots) == map[] && st'.sent == st.sent + RowsSent(cfg, codec, rows, cfg.depth)
  {
    hide Transmittable, CleanRows, RxOk, At, RxRun, Blocks, Drained, Delivers, Area, LastColumn, SentUpTo, RowsSent;
    ValidIs(cfg, st.dil);
    AreaIs(cfg);
    var d := Drained(TxGeometry(cfg), rows);
    assert d[..Area(cfg)] == d;
    DeliveryHolds(cfg, codec, st, rows, es, Area(cfg), t0);
    SentThen(cfg, codec, rows, cfg.depth);
    AtEnds(cfg, RxRun(cfg, codec, st, es), rows, t0);
  }
}
