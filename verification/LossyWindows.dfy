/** Runs of the receive pipeline on the frames of a window that loses symbols: every block that keeps k is restored. */
module LossyWindows {
  import opened Types
  import opened Interleaving
  import opened InterleaverWindows
  import opened DeinterleaverSpec
  import opened DeinterleaverMap
  import opened WindowRecovery
  import opened WindowRuns
  import FecWrapper
  import opened TxSpec
  import opened TxHistory
  import opened RxSpec
  import opened EndToEnd
  import opened LossDecoding
  import opened LossyWindow
  import opened LossyDrain
  import opened LossyRuns

  // ---------------------------------------------------------------------------
  // Hearing a window
  // ---------------------------------------------------------------------------

  function Total(h: Hit): nat {
    h.g.n * h.g.depth
  }

  /** When each block row's first and last symbol arrived, once the events have delivered the first p positions. */
  ghost function Clocks(h: Hit, es: seq<RxEvent>, p: nat): (tl: map<int, Times>)
    requires h.g.depth == |h.rows|
    decreases |es| + p
  {
    if p > 0 && p - 1 in h.lost then Clocks(h, es, p - 1)
    else if es == [] then map[]
    else
      var before, e := es[..|es| - 1], es[|es| - 1];
      if e.input.Frame? then
        if p == 0 || h.rows == [] then map[]
        else
          var r := (p - 1) % h.g.depth;
          if h.rows[r].key == 0 then Clocks(h, before, p - 1) else Arrive(Clocks(h, before, p - 1), r, e.now)
      else Clocks(h, before, p)
  }

  /**
   The events deliver the first p positions of the window in order, less the lost ones, with polls between: each
   frame begins with its symbol, and no event comes when a row with symbols still to come is due.
   */
  ghost predicate Hears(c: Config, h: Hit, es: seq<RxEvent>, p: nat)
    requires Sound(c, h) && p <= Total(h)
    decreases |es| + p
  {
    if p > 0 && p - 1 in h.lost then Hears(c, h, es, p - 1)
    else if es == [] then p == 0
    else
      var before, e := es[..|es| - 1], es[|es| - 1];
      match e.input
      case Frame(bytes) =>
        && p > 0 && Begins(Drained(h.g, h.rows)[p - 1], bytes)
        && Calm(c, h, p - 1, Clocks(h, before, p - 1), e.now) && Hears(c, h, before, p - 1)
      case _ => Calm(c, h, p, Clocks(h, before, p), e.now) && Hears(c, h, before, p)
  }

  /** Before the first event. */
  lemma StartsThrough(cfg: TxConfig, codec: FecWrapper.Codec, st: RxState, h: Hit)
    requires HitFor(cfg, h) && RxOk(cfg, st.dil) && Blocks(st.dil.slots) == map[]
    ensures Through(cfg, codec, st, st, h, 0, map[], [])
  {
    hide RxOk, Blocks, Transmittable, CleanRows;
    StartsWindow(RxConfig(cfg), h);
    assert st.sent + [] == st.sent;
    assert st.dil.finals + LogFinals(cfg, codec, []) == st.dil.finals;
  }

  lemma OverLost(cfg: TxConfig, codec: FecWrapper.Codec, base: RxState, st: RxState, h: Hit, p: nat,
                 tl: map<int, Times>, log: seq<Slot>)
    requires Through(cfg, codec, base, st, h, p, tl, log) && p in h.lost
    ensures Through(cfg, codec, base, st, h, p + 1, tl, log)
  {
    hide Progress, LogSends, LogOf, HitFor, RxOk, Blocks;
    SkipLost(RxConfig(cfg), h, p, tl, Blocks(st.dil.slots), log);
  }

  lemma PaddingCell(cfg: TxConfig, h: Hit, r: nat, f: nat)
    requires HitFor(cfg, h) && r < h.g.depth && f < h.g.n && h.rows[r].key == 0
    ensures IsErasure(h.rows[r].cells[f])
  {
  }

  lemma CellOpens(cfg: TxConfig, h: Hit, r: nat, f: nat)
    requires HitFor(cfg, h) && r < h.g.depth && f < h.g.n && h.rows[r].key != 0
    requires f * h.g.depth + r !in h.lost
    ensures Arrives(RxConfig(cfg), h, r, f) && Place(h, r, f) == f * h.g.depth + r
  {
    hide Transmittable, CleanRows;
  }

  lemma CellClean(cfg: TxConfig, h: Hit, r: nat, f: nat)
    requires HitFor(cfg, h) && r < h.g.depth && f < h.g.n
    ensures Clean(cfg, h.rows[r].cells[f])
  {
    hide Transmittable, Clean;
  }

  /** What stands at position p. */
  lemma PositionIs(cfg: TxConfig, h: Hit, p: nat) returns (r: nat, f: nat)
    requires HitFor(cfg, h) && p < Total(h) && p !in h.lost
    ensures h.g.depth == |h.rows| && 0 < h.g.depth && r == p % h.g.depth && r < |h.rows| && f in h.rows[r].cells
    ensures p < |Drained(h.g, h.rows)| && Drained(h.g, h.rows)[p] == h.rows[r].cells[f]
    ensures Clean(cfg, h.rows[r].cells[f])
    ensures if h.rows[r].key == 0 then IsErasure(h.rows[r].cells[f])
            else Arrives(RxConfig(cfg), h, r, f) && Place(h, r, f) == p
  {
    PositionCell(h.g, h.rows, p);
    hide Drained, Clean, IsErasure, Transmittable;
    r, f := p % h.g.depth, p / h.g.depth;
    CellClean(cfg, h, r, f);
    if h.rows[r].key == 0 { PaddingCell(cfg, h, r, f); } else { CellOpens(cfg, h, r, f); }
  }

  /** The symbols that are left of a window, in frames with polls between them. */
  lemma {:induction false} HearsThrough(cfg: TxConfig, codec: FecWrapper.Codec, st: RxState, h: Hit, es: seq<RxEvent>, p: nat)
    requires HitFor(cfg, h) && RxOk(cfg, st.dil) && Blocks(st.dil.slots) == map[]
    requires p <= Total(h) && Hears(RxConfig(cfg), h, es, p)
    ensures Through(cfg, codec, st, RxRun(cfg, codec, st, es), h, p, Clocks(h, es, p), RunDecodes(cfg, codec, st, es))
    decreases |es| + p
  {
    hide RxOk, Blocks, Transmittable, CleanRows, Through, RxOnce, Drained, Begins, OnceDecodes, Calm, Arrive, SparedOf, Clean,
      IsErasure, Place;
    if p > 0 && p - 1 in h.lost {
      HearsThrough(cfg, codec, st, h, es, p - 1);
      OverLost(cfg, codec, st, RxRun(cfg, codec, st, es), h, p - 1, Clocks(h, es, p - 1), RunDecodes(cfg, codec, st, es));
    } else if es == [] {
      StartsThrough(cfg, codec, st, h);
    } else {
      var before, e := es[..|es| - 1], es[|es| - 1];
      var was, log := RxRun(cfg, codec, st, before), RunDecodes(cfg, codec, st, before);
      if e.input.Frame? {
        HearsThrough(cfg, codec, st, h, before, p - 1);
        var tl := Clocks(h, before, p - 1);
        var r, f := PositionIs(cfg, h, p - 1);
        if h.rows[r].key == 0 {
          PaddingFrameThrough(cfg, codec, st, was, h, p - 1, tl, log, h.rows[r].cells[f], e.input.bytes, e.now);
        } else {
          FrameThrough(cfg, codec, st, was, h, r, f, tl, log, e.input.bytes, e.now);
        }
      } else {
        HearsThrough(cfg, codec, st, h, before, p);
        PollThrough(cfg, codec, st, was, h, p, Clocks(h, before, p), log, e.input, e.now);
      }
    }
  }

  // ---------------------------------------------------------------------------
  // A window of the wire
  // ---------------------------------------------------------------------------

  /** What is lost of a window, the events that deliver the rest, and the time of a poll that follows them. */
  datatype Hearing = Hearing(lost: set<int>, es: seq<RxEvent>, close: int)

  function Events(w: Hearing): seq<RxEvent> {
    w.es + [RxEvent(Nothing, w.close)]
  }

  /** Item i of a drain; past its end, a blank symbol. */
  function Item(d: seq<Symbol>, i: nat): Symbol {
    if i < |d| then d[i] else Symbol(0, 0, 0, 0, 0, 0, [])
  }

  /** The row that every depth-th item of a drain from the r-th on makes. */
  function RowOfDrain(g: Geometry, d: seq<Symbol>, r: nat): Row {
    Row(Item(d, r).packetId, map f: nat | f < g.n :: f := Item(d, f * g.depth + r))
  }

  /** The rows of which d is the drain. */
  function RowsOfDrain(g: Geometry, d: seq<Symbol>): (rows: seq<Row>)
    ensures |rows| == g.depth
  {
    seq(g.depth, r requires 0 <= r => RowOfDrain(g, d, r))
  }

  ghost function HitOf(cfg: TxConfig, d: seq<Symbol>, w: Hearing): Hit
    requires ValidTx(cfg) && |d| == Area(cfg)
  {
    AreaIs(cfg);
    Hit(TxGeometry(cfg), RowsOfDrain(TxGeometry(cfg), d), w.lost)
  }

  /**
   The symbols d of a window are heard in order, less some of which no row has more than m, with no event when a row
   with symbols still to come is due; and a poll follows when every row that arrived has been quiet long enough.
   */
  ghost predicate Heard(cfg: TxConfig, d: seq<Symbol>, w: Hearing) {
    && ValidTx(cfg) && |d| == Area(cfg) && Tolerable(TxGeometry(cfg), w.lost, cfg.m)
    && var c, h := RxConfig(cfg), HitOf(cfg, d, w);
    && Sound(c, h) && Hears(c, h, w.es, Total(h)) && Late(c, h, Total(h), Clocks(h, w.es, Total(h)), w.close)
  }

  /** The rows of a drain are the rows drained. */
  lemma DrainOfRow(g: Geometry, rows: seq<Row>, r: nat)
    requires ValidGeometry(g) && Complete(g, rows) && r < g.depth
    requires forall f :: f in rows[r].cells ==> 0 <= f < g.n && rows[r].cells[f].packetId == rows[r].key
    ensures RowOfDrain(g, Drained(g, rows), r) == rows[r]
  {
    var d := Drained(g, rows);
    hide Drained;
    forall f: nat | f < g.n ensures f in rows[r].cells && Item(d, f * g.depth + r) == rows[r].cells[f] {
      CellPosition(g, rows, r, f);
    }
    CellPosition(g, rows, r, 0);
    SameMap(RowOfDrain(g, d, r).cells, rows[r].cells);
  }

  lemma DrainOfRows(g: Geometry, rows: seq<Row>)
    requires ValidGeometry(g) && Complete(g, rows)
    requires forall r, f :: 0 <= r < |rows| && f in rows[r].cells ==> 0 <= f < g.n && rows[r].cells[f].packetId == rows[r].key
    ensures |Drained(g, rows)| == g.n * g.depth && RowsOfDrain(g, Drained(g, rows)) == rows
  {
    hide Drained, RowOfDrain;
    forall r | 0 <= r < g.depth ensures RowsOfDrain(g, Drained(g, rows))[r] == rows[r] { DrainOfRow(g, rows, r); }
  }

  ghost function WindowDrained(cfg: TxConfig, codec: FecWrapper.Codec, bs: seq<Sealed>): (d: seq<Symbol>)
    requires Sendable(cfg, bs)
  {
    Drained(TxGeometry(cfg), SentRows(cfg, codec, bs))
  }

  lemma HitIsSent(cfg: TxConfig, codec: FecWrapper.Codec, bs: seq<Sealed>, w: Hearing)
    requires Sendable(cfg, bs) && DistinctIds(bs)
    ensures |WindowDrained(cfg, codec, bs)| == Area(cfg)
    ensures HitOf(cfg, WindowDrained(cfg, codec, bs), w) == Hit(TxGeometry(cfg), SentRows(cfg, codec, bs), w.lost)
  {
    SentTransmittable(cfg, codec, bs);
    hide SentRows, Drained, AllSealed, DistinctIds;
    AreaIs(cfg);
    forall r, f | 0 <= r < cfg.depth && f in SentRows(cfg, codec, bs)[r].cells
      ensures 0 <= f < cfg.k + cfg.m
    {
      CellsInRange(cfg, codec, bs, r, f);
    }
    DrainOfRows(TxGeometry(cfg), SentRows(cfg, codec, bs));
  }

  lemma HitIsFor(cfg: TxConfig, codec: FecWrapper.Codec, bs: seq<Sealed>, w: Hearing)
    requires Sendable(cfg, bs) && DistinctIds(bs) && Heard(cfg, WindowDrained(cfg, codec, bs), w)
    ensures HitFor(cfg, HitOf(cfg, WindowDrained(cfg, codec, bs), w))
    ensures HitOf(cfg, WindowDrained(cfg, codec, bs), w) == Hit(TxGeometry(cfg), SentRows(cfg, codec, bs), w.lost)
  {
    HitIsSent(cfg, codec, bs, w);
    SentClean(cfg, codec, bs);
    hide SentRows, Transmittable, CleanRows, AllSealed, DistinctIds, WindowDrained, Hears, Late, Clocks;
    var h := HitOf(cfg, WindowDrained(cfg, codec, bs), w);
    forall r: nat | r < h.g.depth && h.rows[r].key != 0 ensures |SparedOf(RxConfig(cfg), h, r)| >= cfg.k {
      SparedEnough(h.g, h.rows[r], r, h.lost, cfg.m);
    }
  }

  // ---------------------------------------------------------------------------
  // What the window leaves
  // ---------------------------------------------------------------------------

  /** The slot held exactly the symbols of row r's block that were not lost. */
  ghost predicate Restores(cfg: TxConfig, codec: FecWrapper.Codec, bs: seq<Sealed>, lost: set<int>, r: nat, s: Slot) {
    && r < |bs| && SealedOk(cfg, bs[r]) && HoldsPart(cfg, codec, s, bs[r])
    && SparedOnly(cfg, s, r, lost) && SymbolsFit(cfg, s.block.symbols)
  }

  ghost predicate Restored(cfg: TxConfig, codec: FecWrapper.Codec, bs: seq<Sealed>, lost: set<int>, log: seq<Slot>, r: nat) {
    exists i :: 0 <= i < |log| && Restores(cfg, codec, bs, lost, r, log[i])
  }

  ghost predicate RestoresSome(cfg: TxConfig, codec: FecWrapper.Codec, bs: seq<Sealed>, lost: set<int>, s: Slot) {
    exists r: nat :: Restores(cfg, codec, bs, lost, r, s)
  }

  /** The slots are those of the window's blocks, one for each. */
  ghost predicate RestoresAll(cfg: TxConfig, codec: FecWrapper.Codec, bs: seq<Sealed>, lost: set<int>, log: seq<Slot>) {
    && |log| == |bs| && DistinctLog(log)
    && (forall r: nat :: r < |bs| ==> Restored(cfg, codec, bs, lost, log, r))
    && (forall i :: 0 <= i < |log| ==> RestoresSome(cfg, codec, bs, lost, log[i]))
  }

  /** One successful final callback for every slot of the log. */
  function Successes(log: seq<Slot>): (f: seq<Final>)
    ensures |f| == |log| && forall i :: 0 <= i < |log| ==> f[i] == Final(log[i].id, DecodeSuccess)
  {
    seq(|log|, i requires 0 <= i < |log| => Final(log[i].id, DecodeSuccess))
  }

  /** A slot that held what was left of a row held part of that row's block. */
  lemma HeldRestores(cfg: TxConfig, codec: FecWrapper.Codec, bs: seq<Sealed>, h: Hit, r: nat, s: Slot)
    requires Sendable(cfg, bs) && HitFor(cfg, h) && h.g == TxGeometry(cfg) && h.rows == SentRows(cfg, codec, bs)
    requires Held(cfg, h, r, s)
    ensures Restores(cfg, codec, bs, h.lost, r, s)
  {
    hide SymbolsOf, SentRows, SealedOk, HitFor;
    SentCell(cfg, codec, bs, r, 0);
    assert |s.mask| == cfg.k + cfg.m;
    forall f | 0 <= f < cfg.k + cfg.m && s.mask[f] ensures s.block.symbols[f] == SymbolsOf(cfg, codec, bs[r])[f] {
      assert f in Marked(s);
      SentCell(cfg, codec, bs, r, f);
    }
    forall f | 0 <= f < cfg.k + cfg.m ensures s.mask[f] <==> f * cfg.depth + r !in h.lost {
      assert s.mask[f] <==> f in Marked(s);
    }
  }

  /** An empty receiver at the end has decoded every row. */
  lemma AllLogged(cfg: TxConfig, h: Hit, tl: map<int, Times>, log: seq<Slot>, r: nat) returns (i: nat)
    requires HitFor(cfg, h) && Progress(RxConfig(cfg), h, Total(h), tl, map[], log) && LogOf(cfg, h, log)
    requires r < h.g.depth && h.rows[r].key != 0
    ensures i < |log| && Held(cfg, h, r, log[i])
  {
    hide Transmittable, CleanRows, CameOf, SlotOk, SlotFits, Marked, Finished;
    assert RowProgress(RxConfig(cfg), h, Total(h), tl, map[], log, r);
    SomethingCame(cfg, h, r);
    i :| i < |log| && log[i].id == h.rows[r].key;
    assert HeldBySome(cfg, h, log[i]);
    var q: nat :| Held(cfg, h, q, log[i]);
    if q != r { KeysDiffer(RxConfig(cfg), h, r, q); }
  }

  lemma SomethingCame(cfg: TxConfig, h: Hit, r: nat)
    requires HitFor(cfg, h) && r < h.g.depth && h.rows[r].key != 0
    ensures CameOf(RxConfig(cfg), h, r, Total(h)) != map[]
  {
    hide Transmittable, CleanRows, Spared;
    AllCame(h.g, h.rows[r], r, h.lost);
    assert |SparedOf(RxConfig(cfg), h, r)| >= 1;
  }

  lemma BlockRow(cfg: TxConfig, codec: FecWrapper.Codec, bs: seq<Sealed>, r: nat)
    requires Sendable(cfg, bs) && r < |bs|
    ensures r < cfg.depth
    ensures SentRows(cfg, codec, bs)[r].key == bs[r].id
    ensures bs[r].id != 0
  {
    hide SymbolsOf, SentRows;
    assert SealedOk(cfg, bs[r]);
    SentCell(cfg, codec, bs, r, 0);
  }

  ghost function IdsOf(bs: seq<Sealed>, n: nat): (ids: set<uint32>)
    requires n <= |bs| && forall r :: 0 <= r < |bs| ==> bs[r].id < 0x1_0000_0000
  {
    set r | 0 <= r < n :: bs[r].id
  }

  lemma {:induction false} IdsCount(bs: seq<Sealed>, n: nat)
    requires n <= |bs| && DistinctIds(bs) && forall r :: 0 <= r < |bs| ==> bs[r].id < 0x1_0000_0000
    ensures |IdsOf(bs, n)| == n
  {
    if n == 0 {
      assert IdsOf(bs, 0) == {};
    } else {
      IdsCount(bs, n - 1);
      assert IdsOf(bs, n) == IdsOf(bs, n - 1) + {bs[n - 1].id};
      assert bs[n - 1].id !in IdsOf(bs, n - 1);
    }
  }

  /** Distinct ids that are those of the blocks are as many. */
  lemma {:induction false} AsMany(log: seq<Slot>, ids: set<uint32>)
    requires DistinctLog(log) && (forall i :: 0 <= i < |log| ==> log[i].id in ids) && forall x :: x in ids ==> Logged(log, x)
    ensures |log| == |ids|
  {
    if log == [] {
      assert forall x :: x in ids ==> false;
      assert ids == {};
    } else {
      var last, before := log[|log| - 1], log[..|log| - 1];
      assert log == before + [last];
      forall x | x in ids - {last.id} ensures Logged(before, x) {
        LoggedConcat(before, [last], x);
      }
      AsMany(before, ids - {last.id});
    }
  }

  lemma LogRestores(cfg: TxConfig, codec: FecWrapper.Codec, bs: seq<Sealed>, h: Hit, tl: map<int, Times>, log: seq<Slot>)
    requires Sendable(cfg, bs) && DistinctIds(bs)
    requires HitFor(cfg, h) && h.g == TxGeometry(cfg) && h.rows == SentRows(cfg, codec, bs) && LogOf(cfg, h, log)
    requires Progress(RxConfig(cfg), h, Total(h), tl, map[], log)
    ensures RestoresAll(cfg, codec, bs, h.lost, log)
  {
    hide SentRows, SealedOk, HitFor, Held, Restores, Progress, Total, DistinctIds;
    forall i | 0 <= i < |log| ensures RestoresSome(cfg, codec, bs, h.lost, log[i]) {
      assert HeldBySome(cfg, h, log[i]);
      var r: nat :| Held(cfg, h, r, log[i]);
      HeldRestores(cfg, codec, bs, h, r, log[i]);
    }
    forall r: nat | r < |bs| ensures Restored(cfg, codec, bs, h.lost, log, r) {
      BlockRow(cfg, codec, bs, r);
      var i := AllLogged(cfg, h, tl, log, r);
      HeldRestores(cfg, codec, bs, h, r, log[i]);
    }
    OneSlotEach(cfg, codec, bs, h.lost, log);
  }

  lemma RestoredId(cfg: TxConfig, codec: FecWrapper.Codec, bs: seq<Sealed>, lost: set<int>, r: nat, s: Slot)
    requires Restores(cfg, codec, bs, lost, r, s)
    ensures r < |bs| && s.id == bs[r].id
  {
  }

  lemma SealedIds(cfg: TxConfig, bs: seq<Sealed>)
    requires Sendable(cfg, bs)
    ensures forall r :: 0 <= r < |bs| ==> bs[r].id < 0x1_0000_0000
  {
    forall r | 0 <= r < |bs| ensures bs[r].id < 0x1_0000_0000 { assert SealedOk(cfg, bs[r]); }
  }

  lemma OneSlotEach(cfg: TxConfig, codec: FecWrapper.Codec, bs: seq<Sealed>, lost: set<int>, log: seq<Slot>)
    requires Sendable(cfg, bs) && DistinctIds(bs) && DistinctLog(log)
    requires forall r: nat :: r < |bs| ==> Restored(cfg, codec, bs, lost, log, r)
    requires forall i :: 0 <= i < |log| ==> RestoresSome(cfg, codec, bs, lost, log[i])
    ensures |log| == |bs|
  {
    SealedIds(cfg, bs);
    hide Sendable, DistinctIds, DistinctLog, Restores;
    var ids := IdsOf(bs, |bs|);
    IdsCount(bs, |bs|);
    forall i | 0 <= i < |log| ensures log[i].id in ids {
      assert RestoresSome(cfg, codec, bs, lost, log[i]);
      var r: nat :| Restores(cfg, codec, bs, lost, r, log[i]);
      RestoredId(cfg, codec, bs, lost, r, log[i]);
    }
    forall x | x in ids ensures Logged(log, x) {
      var r: nat :| r < |bs| && bs[r].id == x;
      assert Restored(cfg, codec, bs, lost, log, r);
      var i :| 0 <= i < |log| && Restores(cfg, codec, bs, lost, r, log[i]);
      RestoredId(cfg, codec, bs, lost, r, log[i]);
    }
    AsMany(log, ids);
  }

  /** With an ideal codec every one of these slots decodes. */
  lemma AllSucceed(cfg: TxConfig, codec: FecWrapper.Codec, bs: seq<Sealed>, lost: set<int>, log: seq<Slot>)
    requires RestoresAll(cfg, codec, bs, lost, log) && FecWrapper.Ideal(codec, cfg.k, cfg.k + cfg.m, cfg.size)
    ensures LogFinals(cfg, codec, log) == Successes(log)
  {
    hide FecWrapper.Ideal, FecWrapper.Decode, Restores;
    forall i | 0 <= i < |log| ensures SlotFinal(cfg, codec, log[i]) == Final(log[i].id, DecodeSuccess) {
      assert RestoresSome(cfg, codec, bs, lost, log[i]);
      var r: nat :| Restores(cfg, codec, bs, lost, r, log[i]);
      RestoredDecodes(cfg, codec, bs, lost, r, log[i]);
    }
  }

  lemma RestoredDecodes(cfg: TxConfig, codec: FecWrapper.Codec, bs: seq<Sealed>, lost: set<int>, r: nat, s: Slot)
    requires Restores(cfg, codec, bs, lost, r, s) && FecWrapper.Ideal(codec, cfg.k, cfg.k + cfg.m, cfg.size)
    ensures r < |bs| && SealedOk(cfg, bs[r])
    ensures FecWrapper.Decode(codec, cfg.k, s.block.symbols) == FecWrapper.Ok(SourceOfBlock(cfg, bs[r]))
  {
    hide FecWrapper.Ideal, FecWrapper.Decode, HoldsPart, SourceOfBlock, SparedOnly, SymbolsFit;
    PartDecodes(cfg, codec, s, bs[r]);
  }

  /** From an empty receiver to an empty receiver: what the run sends and reports is that of the slots it decodes. */
  ghost predicate Clears(cfg: TxConfig, codec: FecWrapper.Codec, st: RxState, es: seq<RxEvent>) {
    && RxOk(cfg, st.dil) && Blocks(st.dil.slots) == map[]
    && var st', log := RxRun(cfg, codec, st, es), RunDecodes(cfg, codec, st, es);
    && Blocks(st'.dil.slots) == map[] && st'.sent == st.sent + LogSends(cfg, codec, log)
    && st'.dil.finals == st.dil.finals + Successes(log)
  }

  lemma ClosingPoll(cfg: TxConfig, codec: FecWrapper.Codec, st: RxState, w: Hearing)
    requires RxOk(cfg, st.dil)
    ensures var was := RxRun(cfg, codec, st, w.es);
      && RxRun(cfg, codec, st, Events(w)) == RxOnce(cfg, codec, was, Nothing, w.close)
      && RunDecodes(cfg, codec, st, Events(w))
         == RunDecodes(cfg, codec, st, w.es) + OnceDecodes(cfg, codec, was, Nothing, w.close)
  {
    hide RxOk, RxOnce, OnceDecodes;
    assert Events(w)[..|Events(w)| - 1] == w.es;
  }

  /**
   A window that loses any symbols, at most m of every row, is heard by an empty receiver as frames with polls between
   and one at the end, no event coming when a row with symbols still to come is due. The slots the run decodes are then
   those of the window's blocks, one for each, holding exactly the symbols that were not lost; the final callbacks are
   one success for each of them and no other; what is sent is what they yield; and the receiver is empty again.
   */
  lemma WindowRestored(cfg: TxConfig, codec: FecWrapper.Codec, st: RxState, bs: seq<Sealed>, w: Hearing)
    requires RxOk(cfg, st.dil) && Blocks(st.dil.slots) == map[] && Sendable(cfg, bs) && DistinctIds(bs)
    requires FecWrapper.Ideal(codec, cfg.k, cfg.k + cfg.m, cfg.size)
    requires Heard(cfg, WindowDrained(cfg, codec, bs), w)
    ensures RestoresAll(cfg, codec, bs, w.lost, RunDecodes(cfg, codec, st, Events(w)))
    ensures Clears(cfg, codec, st, Events(w))
  {
    hide RxOk, Blocks, SentRows, DistinctIds, RxOnce, OnceDecodes, LogSends, RestoresAll, AllSealed, Hears, Late, Clocks,
      WindowDrained, FecWrapper.Ideal, Tolerable, Sound, LogFinals, Successes;
    HitIsFor(cfg, codec, bs, w);
    var h := HitOf(cfg, WindowDrained(cfg, codec, bs), w);
    var tl := Clocks(h, w.es, Total(h));
    var was, log := RxRun(cfg, codec, st, w.es), RunDecodes(cfg, codec, st, w.es);
    HearsThrough(cfg, codec, st, h, w.es, Total(h));
    hide Through, HitFor;
    PollEmpties(cfg, codec, st, was, h, Total(h), tl, log, w.close);
    PollThrough(cfg, codec, st, was, h, Total(h), tl, log, Nothing, w.close);
    ClosingPoll(cfg, codec, st, w);
    var all := RunDecodes(cfg, codec, st, Events(w));
    ThroughEnds(cfg, codec, st, RxRun(cfg, codec, st, Events(w)), h, Total(h), tl, all);
    LogRestores(cfg, codec, bs, h, tl, all);
    AllSucceed(cfg, codec, bs, w.lost, all);
  }

  lemma ThroughEnds(cfg: TxConfig, codec: FecWrapper.Codec, base: RxState, st: RxState, h: Hit, p: nat, tl: map<int, Times>,
                    log: seq<Slot>)
    requires Through(cfg, codec, base, st, h, p, tl, log)
    ensures HitFor(cfg, h) && Progress(RxConfig(cfg), h, p, tl, Blocks(st.dil.slots), log) && LogOf(cfg, h, log)
    ensures st.sent == base.sent + LogSends(cfg, codec, log)
    ensures st.dil.finals == base.dil.finals + LogFinals(cfg, codec, log)
  {
    hide HitFor, Progress, Blocks, LogOf, LogSends, RxOk, LogFinals;
  }

  // ---------------------------------------------------------------------------
  // A window heard within one stabilization time
  // ---------------------------------------------------------------------------

  /** The events deliver the first p positions of the window in order, less the lost ones, with polls between. */
  ghost predicate InOrder(h: Hit, es: seq<RxEvent>, p: nat)
    requires ValidGeometry(h.g) && Complete(h.g, h.rows) && p <= Total(h)
    decreases |es| + p
  {
    if p > 0 && p - 1 in h.lost then InOrder(h, es, p - 1)
    else if es == [] then p == 0
    else
      var before, e := es[..|es| - 1], es[|es| - 1];
      match e.input
      case Frame(bytes) => p > 0 && Begins(Drained(h.g, h.rows)[p - 1], bytes) && InOrder(h, before, p - 1)
      case _ => InOrder(h, before, p)
  }

  ghost predicate ClocksWithin(tl: map<int, Times>, t0: int, t1: int) {
    forall r :: r in tl ==> t0 <= tl[r].first < t1 && t0 <= tl[r].last < t1
  }

  /** Events within one stabilization time never find a row due. */
  lemma {:induction false} PromptHears(c: Config, h: Hit, es: seq<RxEvent>, p: nat, t0: int)
    requires Sound(c, h) && c.stab <= AgeLimit(c) && p <= Total(h) && InOrder(h, es, p)
    requires forall i :: 0 <= i < |es| ==> t0 <= es[i].now < t0 + c.stab
    ensures Hears(c, h, es, p) && ClocksWithin(Clocks(h, es, p), t0, t0 + c.stab)
    decreases |es| + p
  {
    hide Transmittable, Drained, Begins, Finished, CameOf;
    if p > 0 && p - 1 in h.lost {
      PromptHears(c, h, es, p - 1, t0);
    } else if es != [] {
      var before, e := es[..|es| - 1], es[|es| - 1];
      PromptHears(c, h, before, if e.input.Frame? then p - 1 else p, t0);
    }
  }

  /** A sent window heard so, with a closing poll two stabilization times later: such as after a burst. */
  lemma PromptHeard(cfg: TxConfig, codec: FecWrapper.Codec, bs: seq<Sealed>, w: Hearing, t0: int)
    requires Sendable(cfg, bs) && DistinctIds(bs) && Tolerable(TxGeometry(cfg), w.lost, cfg.m)
    requires InOrder(Hit(TxGeometry(cfg), SentRows(cfg, codec, bs), w.lost), w.es, Area(cfg))
    requires (forall i :: 0 <= i < |w.es| ==> Within(t0, w.es[i].now)) && w.close >= t0 + 2 * STABILIZATION
    ensures Heard(cfg, WindowDrained(cfg, codec, bs), w)
  {
    HitIsSent(cfg, codec, bs, w);
    SentTransmittable(cfg, codec, bs);
    hide SentRows, Transmittable, AllSealed, DistinctIds, WindowDrained, Tolerable, Drained, Finished;
    AreaIs(cfg);
    var c, h := RxConfig(cfg), HitOf(cfg, WindowDrained(cfg, codec, bs), w);
    assert Sound(c, h);
    PromptHears(c, h, w.es, Total(h), t0);
    PromptLate(c, h, Clocks(h, w.es, Total(h)), t0, w.close);
  }

  lemma PromptLate(c: Config, h: Hit, tl: map<int, Times>, t0: int, close: int)
    requires Sound(c, h) && ClocksWithin(tl, t0, t0 + c.stab) && close >= t0 + 2 * c.stab
    ensures Late(c, h, Total(h), tl, close)
  {
    hide Transmittable, Spared;
    forall r: nat | r < h.g.depth && r in tl ensures Finished(c, h, r, Total(h)) { AllCame(h.g, h.rows[r], r, h.lost); }
  }
}
