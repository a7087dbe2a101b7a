/** The receive pipeline part-way through a window that loses symbols: one frame, one poll. */
module LossyRuns {
  import opened Types
  import opened Interleaving
  import opened DeinterleaverSpec
  import opened DeinterleaverMap
  import opened DeinterleaverReports
  import opened WindowRecovery
  import opened WindowRuns
  import FecWrapper
  import Wire
  import opened TxSpec
  import opened RxSpec
  import opened LossyWindow
  import opened LossyDrain

  /** A hit window of this configuration, of which every row keeps k symbols. */
  ghost predicate HitFor(cfg: TxConfig, h: Hit) {
    && ValidTx(cfg) && h.g == TxGeometry(cfg) && Restorable(RxConfig(cfg), h) && CleanRows(cfg, h.rows)
  }

  /** A slot that was ready with exactly the cells of row r that were not lost. */
  ghost predicate Held(cfg: TxConfig, h: Hit, r: nat, s: Slot)
    requires HitFor(cfg, h)
  {
    && r < h.g.depth && h.rows[r].key != 0 && s.id == h.rows[r].key
    && SlotOk(RxConfig(cfg), s) && s.state == DeinterleaverSpec.Ready && SlotFits(cfg, s)
    && Marked(s) == SparedOf(RxConfig(cfg), h, r)
  }

  ghost predicate HeldBySome(cfg: TxConfig, h: Hit, s: Slot)
    requires HitFor(cfg, h)
  {
    exists r: nat :: Held(cfg, h, r, s)
  }

  /** Every decoded slot held what was left of a row, and no row was decoded twice. */
  ghost predicate LogOf(cfg: TxConfig, h: Hit, log: seq<Slot>)
    requires HitFor(cfg, h)
  {
    DistinctLog(log) && forall i :: 0 <= i < |log| ==> HeldBySome(cfg, h, log[i])
  }

  /**
   The receiver after p positions of the window, from `base` on: log lists the slots it has decoded, in order; what
   it has sent is what they yield, and the final callbacks are theirs.
   */
  ghost predicate Through(cfg: TxConfig, codec: FecWrapper.Codec, base: RxState, st: RxState, h: Hit, p: nat,
                          tl: map<int, Times>, log: seq<Slot>) {
    && HitFor(cfg, h) && RxOk(cfg, st.dil) && Progress(RxConfig(cfg), h, p, tl, Blocks(st.dil.slots), log)
    && LogOf(cfg, h, log) && st.sent == base.sent + LogSends(cfg, codec, log)
    && st.dil.finals == base.dil.finals + LogFinals(cfg, codec, log)
  }

  lemma LogJoin(cfg: TxConfig, h: Hit, log: seq<Slot>, more: seq<Slot>)
    requires HitFor(cfg, h) && LogOf(cfg, h, log) && LogOf(cfg, h, more)
    requires forall i :: 0 <= i < |more| ==> !Logged(log, more[i].id)
    ensures LogOf(cfg, h, log + more)
  {
    hide HitFor, HeldBySome;
    var all := log + more;
    forall i, j {:trigger all[i].id, all[j].id} | 0 <= i < j < |all| ensures all[i].id != all[j].id {
      if i < |log| <= j { assert !Logged(log, more[j - |log|].id); }
    }
  }

  lemma ThroughParts(cfg: TxConfig, codec: FecWrapper.Codec, base: RxState, st: RxState, h: Hit, p: nat,
                     tl: map<int, Times>, log: seq<Slot>)
    requires Through(cfg, codec, base, st, h, p, tl, log)
    ensures HitFor(cfg, h) && Restorable(RxConfig(cfg), h) && ValidGeometry(h.g) && Complete(h.g, h.rows)
    ensures RxOk(cfg, st.dil) && ValidConfig(RxConfig(cfg)) && Inv(RxConfig(cfg), st.dil)
    ensures Progress(RxConfig(cfg), h, p, tl, Blocks(st.dil.slots), log) && LogOf(cfg, h, log)
  {
    hide CellsFit, Progress, Blocks, LogOf, LogSends;
  }

  // ---------------------------------------------------------------------------
  // Ticks
  // ---------------------------------------------------------------------------

  /** The receiver after its tick. */
  ghost function Ticked(cfg: TxConfig, st: RxState, now: int): (st': RxState)
    requires RxOk(cfg, st.dil)
    ensures RxOk(cfg, st'.dil)
  {
    TickFitsAll(cfg, st.dil, -1, now);
    st.(dil := DeinterleaverSpec.Tick(RxConfig(cfg), st.dil, -1, now))
  }

  /** A tick that finds no unfinished row due changes no more than which finished blocks are ready. */
  lemma TickThrough(cfg: TxConfig, codec: FecWrapper.Codec, base: RxState, st: RxState, h: Hit, p: nat,
                    tl: map<int, Times>, log: seq<Slot>, now: int)
    requires Through(cfg, codec, base, st, h, p, tl, log) && Calm(RxConfig(cfg), h, p, tl, now)
    ensures Through(cfg, codec, base, Ticked(cfg, st, now), h, p, tl, log)
  {
    hide Blocks, CellsFit, Progress, LogSends, LogOf, CleanRows, DeinterleaverSpec.Tick, Calm, Settled, LogFinals;
    var c, m := RxConfig(cfg), Blocks(st.dil.slots);
    var m' := Blocks(DeinterleaverSpec.Tick(c, st.dil, -1, now).slots);
    TickRefines(c, st.dil, -1, now);
    TickProgress(c, h, p, tl, m, m', log, now);
    TickReports(c, st.dil, -1, now);
  }

  // ---------------------------------------------------------------------------
  // Pushes
  // ---------------------------------------------------------------------------

  ghost function Pushed(cfg: TxConfig, st: RxState, sym: Symbol, now: int): (st': RxState)
    requires RxOk(cfg, st.dil)
    ensures RxOk(cfg, st'.dil)
  {
    RxSpec.PushFits(cfg, st.dil, sym, now);
    st.(dil := DeinterleaverSpec.Push(RxConfig(cfg), st.dil, sym, now).0)
  }

  /** Pushing the next surviving cell evicts nothing. */
  lemma PushCell(c: Config, h: Hit, st: State, r: nat, f: nat, tl: map<int, Times>, log: seq<Slot>, now: int)
    returns (b: Received)
    requires ValidConfig(c) && Shaped(c, st.slots) && Inv(c, st) && Arrives(c, h, r, f)
    requires Progress(c, h, Place(h, r, f), tl, Blocks(st.slots), log) && Calm(c, h, Place(h, r, f), tl, now)
    ensures Blocks(DeinterleaverSpec.Push(c, st, h.rows[r].cells[f], now).0.slots) == Blocks(st.slots)[h.rows[r].key := b]
    ensures b.ready <==> |CameOf(c, h, r, Place(h, r, f) + 1)| == h.g.n
    ensures Progress(c, h, Place(h, r, f) + 1, Arrive(tl, r, now), Blocks(st.slots)[h.rows[r].key := b], log)
  {
    hide Blocks, DeinterleaverSpec.Push, Deliver, CameOf, Progress, Place, Calm;
    CellNamed(c, h, r, f);
    RoomLeft(c, h, Place(h, r, f), tl, Blocks(st.slots), log, r);
    NoEviction(c, st, h.rows[r].cells[f], now);
    b := CellArrives(c, h, r, f, tl, Blocks(st.slots), log, now);
  }

  /** And it makes no final callback. */
  lemma PushQuiet(c: Config, h: Hit, st: State, r: nat, f: nat, p: nat, tl: map<int, Times>, log: seq<Slot>, now: int, b: Received)
    requires ValidConfig(c) && Shaped(c, st.slots) && Inv(c, st) && Arrives(c, h, r, f)
    requires Progress(c, h, p, tl, Blocks(st.slots), log)
    requires Blocks(DeinterleaverSpec.Push(c, st, h.rows[r].cells[f], now).0.slots) == Blocks(st.slots)[h.rows[r].key := b]
    ensures DeinterleaverSpec.Push(c, st, h.rows[r].cells[f], now).0.finals == st.finals
  {
    hide Blocks, DeinterleaverSpec.Push, Progress, Place;
    CellNamed(c, h, r, f);
    RoomLeft(c, h, p, tl, Blocks(st.slots), log, r);
    PushReports(c, st, h.rows[r].cells[f], now);
  }

  lemma PushThrough(cfg: TxConfig, codec: FecWrapper.Codec, base: RxState, st: RxState, h: Hit, r: nat, f: nat,
                    tl: map<int, Times>, log: seq<Slot>, now: int)
    requires Through(cfg, codec, base, st, h, Place(h, r, f), tl, log) && Arrives(RxConfig(cfg), h, r, f)
    requires Calm(RxConfig(cfg), h, Place(h, r, f), tl, now)
    ensures Through(cfg, codec, base, Pushed(cfg, st, h.rows[r].cells[f], now), h, Place(h, r, f) + 1, Arrive(tl, r, now), log)
  {
    ThroughParts(cfg, codec, base, st, h, Place(h, r, f), tl, log);
    hide Blocks, DeinterleaverSpec.Push, Progress, LogSends, LogOf, CellsFit, Place, Calm, HitFor, Arrive, Restorable, CameOf;
    var b := PushCell(RxConfig(cfg), h, st.dil, r, f, tl, log, now);
    PushQuiet(RxConfig(cfg), h, st.dil, r, f, Place(h, r, f), tl, log, now, b);
  }

  lemma PaddingThrough(cfg: TxConfig, codec: FecWrapper.Codec, base: RxState, st: RxState, h: Hit, p: nat,
                       tl: map<int, Times>, log: seq<Slot>, s: Symbol, now: int)
    requires Through(cfg, codec, base, st, h, p, tl, log)
    requires h.g.depth > 0 && p % h.g.depth < |h.rows| && h.rows[p % h.g.depth].key == 0 && IsErasure(s)
    ensures Through(cfg, codec, base, Pushed(cfg, st, s, now), h, p + 1, tl, log)
  {
    hide Blocks, CellsFit, Progress, LogSends, LogOf, HitFor;
    SkipPadding(RxConfig(cfg), h, p, tl, Blocks(st.dil.slots), log);
  }

  // ---------------------------------------------------------------------------
  // Drains
  // ---------------------------------------------------------------------------

  /** The slots drained held what was left of their rows, and had not been decoded before. */
  lemma DrainedHeld(cfg: TxConfig, h: Hit, p: nat, tl: map<int, Times>, m: map<uint32, Received>, log: seq<Slot>, more: seq<Slot>)
    requires HitFor(cfg, h) && Progress(RxConfig(cfg), h, p, tl, m, log) && ReadyLog(cfg, m, more)
    ensures LogOf(cfg, h, more) && forall i :: 0 <= i < |more| ==> !Logged(log, more[i].id)
  {
    hide SlotOk, SlotFits, Marked, Transmittable, Progress, Logged, CleanRows, CameOf, SparedOf;
    forall i | 0 <= i < |more| ensures HeldBySome(cfg, h, more[i]) && !Logged(log, more[i].id) {
      assert ReadySlot(cfg, m, more[i]);
      var r := WaitingOf(RxConfig(cfg), h, p, tl, m, log, more[i].id);
      assert Held(cfg, h, r, more[i]);
    }
  }

  lemma FinalsConcat(cfg: TxConfig, codec: FecWrapper.Codec, finals: seq<Final>, a: seq<Slot>, b: seq<Slot>)
    ensures finals + LogFinals(cfg, codec, a) + LogFinals(cfg, codec, b) == finals + LogFinals(cfg, codec, a + b)
  {
    hide SlotFinal;
  }

  /** A drain decodes what is ready, from the slots it is in, and leaves nothing ready. */
  lemma DrainThrough(cfg: TxConfig, codec: FecWrapper.Codec, base: RxState, st: RxState, h: Hit, p: nat,
                     tl: map<int, Times>, log: seq<Slot>)
    requires Through(cfg, codec, base, st, h, p, tl, log)
    ensures Through(cfg, codec, base, DrainReady(cfg, codec, st), h, p, tl, log + DrainedSlots(cfg, codec, st))
    ensures Blocks(DrainReady(cfg, codec, st).dil.slots) == Unready(Blocks(st.dil.slots))
  {
    hide Blocks, CellsFit, Progress, LogSends, LogOf, DrainReady, ReadyLog, AllReadyLogged, Unready, HitFor, DrainedSlots,
      LogFinals, SlotsOf;
    var m, more := Blocks(st.dil.slots), DrainedSlots(cfg, codec, st);
    DrainLog(cfg, codec, st);
    DrainReports(cfg, codec, st);
    DrainedHeld(cfg, h, p, tl, m, log, more);
    LogJoin(cfg, h, log, more);
    SendsConcat(cfg, codec, log, more);
    FinalsConcat(cfg, codec, base.dil.finals, log, more);
    DrainProgress(cfg, RxConfig(cfg), h, p, tl, m, log, more);
  }

  // ---------------------------------------------------------------------------
  // One event
  // ---------------------------------------------------------------------------

  /** The slots one call of run_once decodes, in order. */
  ghost function OnceDecodes(cfg: TxConfig, codec: FecWrapper.Codec, st: RxState, input: RxInput, now: int): (log: seq<Slot>)
    requires RxOk(cfg, st.dil)
  {
    var ticked := Ticked(cfg, st, now);
    match input
    case Nothing => DrainedSlots(cfg, codec, ticked)
    case ReceiveError => []
    case Frame(bytes) =>
      match Wire.Parse(bytes, cfg.size, cfg.crcOn)
      case Padding(sym) => DrainedSlots(cfg, codec, Pushed(cfg, ticked, sym, now))
      case Accepted(sym) => DrainedSlots(cfg, codec, Pushed(cfg, ticked, sym, now))
      case _ => []
  }

  /** The slots a run decodes, in order. */
  ghost function RunDecodes(cfg: TxConfig, codec: FecWrapper.Codec, st: RxState, es: seq<RxEvent>): (log: seq<Slot>)
    requires RxOk(cfg, st.dil)
  {
    if es == [] then []
    else
      var before, e := es[..|es| - 1], es[|es| - 1];
      RunDecodes(cfg, codec, st, before) + OnceDecodes(cfg, codec, RxRun(cfg, codec, st, before), e.input, e.now)
  }

  lemma FrameDecodes(cfg: TxConfig, codec: FecWrapper.Codec, st: RxState, s: Symbol, bytes: seq<byte>, now: int)
    requires RxOk(cfg, st.dil) && Clean(cfg, s) && Begins(s, bytes)
    ensures var pushed := Pushed(cfg, Ticked(cfg, st, now), s, now);
      && RxOnce(cfg, codec, st, Frame(bytes), now) == DrainReady(cfg, codec, pushed)
      && OnceDecodes(cfg, codec, st, Frame(bytes), now) == DrainedSlots(cfg, codec, pushed)
  {
    hide CellsFit, Clean, Wire.Parse, Begins, DeinterleaverSpec.Tick, IsErasure, DeinterleaverSpec.Push, DrainReady,
      DrainedSlots;
    CleanParses(cfg, s, bytes);
  }

  /** The frame of a surviving position. */
  lemma FrameThrough(cfg: TxConfig, codec: FecWrapper.Codec, base: RxState, st: RxState, h: Hit, r: nat, f: nat,
                     tl: map<int, Times>, log: seq<Slot>, bytes: seq<byte>, now: int)
    requires Through(cfg, codec, base, st, h, Place(h, r, f), tl, log) && Arrives(RxConfig(cfg), h, r, f)
    requires Calm(RxConfig(cfg), h, Place(h, r, f), tl, now)
    requires Clean(cfg, h.rows[r].cells[f]) && Begins(h.rows[r].cells[f], bytes)
    ensures Through(cfg, codec, base, RxOnce(cfg, codec, st, Frame(bytes), now), h, Place(h, r, f) + 1, Arrive(tl, r, now),
                    log + OnceDecodes(cfg, codec, st, Frame(bytes), now))
  {
    ThroughParts(cfg, codec, base, st, h, Place(h, r, f), tl, log);
    hide Blocks, CellsFit, Progress, DrainReady, RxOnce, OnceDecodes, DrainedSlots, Clean, Begins, Through, HitFor, Place,
      Ticked, Pushed, Calm, Arrive, Restorable, RxOk;
    FrameDecodes(cfg, codec, st, h.rows[r].cells[f], bytes, now);
    TickThrough(cfg, codec, base, st, h, Place(h, r, f), tl, log, now);
    PushThrough(cfg, codec, base, Ticked(cfg, st, now), h, r, f, tl, log, now);
    DrainThrough(cfg, codec, base, Pushed(cfg, Ticked(cfg, st, now), h.rows[r].cells[f], now), h, Place(h, r, f) + 1,
                 Arrive(tl, r, now), log);
  }

  /** A padding frame. */
  lemma PaddingFrameThrough(cfg: TxConfig, codec: FecWrapper.Codec, base: RxState, st: RxState, h: Hit, p: nat,
                            tl: map<int, Times>, log: seq<Slot>, s: Symbol, bytes: seq<byte>, now: int)
    requires Through(cfg, codec, base, st, h, p, tl, log) && Calm(RxConfig(cfg), h, p, tl, now)
    requires h.g.depth > 0 && p % h.g.depth < |h.rows| && h.rows[p % h.g.depth].key == 0 && IsErasure(s)
    requires Clean(cfg, s) && Begins(s, bytes)
    ensures Through(cfg, codec, base, RxOnce(cfg, codec, st, Frame(bytes), now), h, p + 1, tl,
                    log + OnceDecodes(cfg, codec, st, Frame(bytes), now))
  {
    ThroughParts(cfg, codec, base, st, h, p, tl, log);
    hide Blocks, CellsFit, Progress, DrainReady, RxOnce, OnceDecodes, DrainedSlots, Clean, Begins, Through, HitFor, Ticked,
      Pushed, Calm, Restorable, RxOk, IsErasure;
    FrameDecodes(cfg, codec, st, s, bytes, now);
    TickThrough(cfg, codec, base, st, h, p, tl, log, now);
    PaddingThrough(cfg, codec, base, Ticked(cfg, st, now), h, p, tl, log, s, now);
    DrainThrough(cfg, codec, base, Pushed(cfg, Ticked(cfg, st, now), s, now), h, p + 1, tl, log);
  }

  /** A poll that finds no unfinished row due. */
  lemma PollThrough(cfg: TxConfig, codec: FecWrapper.Codec, base: RxState, st: RxState, h: Hit, p: nat,
                    tl: map<int, Times>, log: seq<Slot>, input: RxInput, now: int)
    requires Through(cfg, codec, base, st, h, p, tl, log) && Calm(RxConfig(cfg), h, p, tl, now) && !input.Frame?
    ensures Through(cfg, codec, base, RxOnce(cfg, codec, st, input, now), h, p, tl,
                    log + OnceDecodes(cfg, codec, st, input, now))
  {
    ThroughParts(cfg, codec, base, st, h, p, tl, log);
    hide Blocks, CellsFit, Progress, DrainReady, DrainedSlots, Through, HitFor, Calm, Restorable, RxOk;
    TickThrough(cfg, codec, base, st, h, p, tl, log, now);
    DrainThrough(cfg, codec, base, Ticked(cfg, st, now), h, p, tl, log);
    assert log + [] == log;
  }

  /** A poll late enough empties the receiver. */
  lemma PollEmpties(cfg: TxConfig, codec: FecWrapper.Codec, base: RxState, st: RxState, h: Hit, p: nat,
                    tl: map<int, Times>, log: seq<Slot>, now: int)
    requires Through(cfg, codec, base, st, h, p, tl, log) && Late(RxConfig(cfg), h, p, tl, now)
    ensures Calm(RxConfig(cfg), h, p, tl, now)
    ensures Blocks(RxOnce(cfg, codec, st, Nothing, now).dil.slots) == map[]
  {
    ThroughParts(cfg, codec, base, st, h, p, tl, log);
    hide Blocks, CellsFit, Progress, LogSends, LogOf, HitFor, DeinterleaverSpec.Tick, DrainReady, Settled, Restorable, Late,
      DrainedSlots;
    var c := RxConfig(cfg);
    TickRefines(c, st.dil, -1, now);
    TickAll(c, h, p, tl, Blocks(st.dil.slots), Blocks(Ticked(cfg, st, now).dil.slots), log, now);
    TickThrough(cfg, codec, base, st, h, p, tl, log, now);
    DrainThrough(cfg, codec, base, Ticked(cfg, st, now), h, p, tl, log);
    SameMap(Unready(Blocks(Ticked(cfg, st, now).dil.slots)), map[]);
  }
}
