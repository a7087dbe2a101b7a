/** What the receive loop decodes, in which order, and what its counters count over a whole run. */
module RxOutcomes {
  import opened Types
  import opened DeinterleaverSpec
  import opened DeinterleaverMap
  import DeinterleaverAges
  import opened DeinterleaverOutcomes
  import RxAges
  import FecWrapper
  import Wire
  import opened TxSpec
  import opened RxSpec
  import opened WindowRuns
  import opened LossyDrain

  // ---------------------------------------------------------------------------
  // drain_ready_blocks
  // ---------------------------------------------------------------------------

  /** The ready slots from position i on, in slot order. */
  ghost function ReadyFrom(slots: seq<Slot>, i: nat): seq<Slot>
    requires i <= |slots|
    decreases |slots| - i
  {
    if i == |slots| then []
    else (if slots[i].state == DeinterleaverSpec.Ready then [slots[i]] else []) + ReadyFrom(slots, i + 1)
  }

  lemma {:induction false} SkipsOthers(slots: seq<Slot>, i: nat, j: nat)
    requires i <= j <= |slots| && forall a :: i <= a < j ==> slots[a].state != DeinterleaverSpec.Ready
    ensures ReadyFrom(slots, i) == ReadyFrom(slots, j)
    decreases j - i
  {
    if i < j { SkipsOthers(slots, i + 1, j); }
  }

  lemma {:induction false} SameFrom(a: seq<Slot>, b: seq<Slot>, i: nat)
    requires i <= |a| == |b| && forall j :: i <= j < |a| ==> a[j] == b[j]
    ensures ReadyFrom(a, i) == ReadyFrom(b, i)
    decreases |a| - i
  {
    if i < |a| { SameFrom(a, b, i + 1); }
  }

  /** The first ready slot heads the list, and emptying it leaves the rest of the list. */
  lemma FirstOfReady(slots: seq<Slot>, i: nat, s: Slot)
    requires i < |slots| && slots[i].state == DeinterleaverSpec.Ready && s.state == Empty
    requires forall a :: 0 <= a < i ==> slots[a].state != DeinterleaverSpec.Ready
    ensures ReadyFrom(slots, 0) == [slots[i]] + ReadyFrom(slots[i := s], 0)
  {
    SkipsOthers(slots, 0, i);
    SkipsOthers(slots[i := s], 0, i + 1);
    SameFrom(slots, slots[i := s], i + 1);
  }

  /** What a drain leaves of a slot. */
  function Emptied(s: Slot): Slot {
    if s.state == DeinterleaverSpec.Ready then ResetSlot(s) else s
  }

  ghost predicate EmptiedAll(slots: seq<Slot>, slots': seq<Slot>) {
    |slots'| == |slots| && forall i :: 0 <= i < |slots| ==> slots'[i] == Emptied(slots[i])
  }

  lemma EmptiedNext(slots: seq<Slot>, i: nat, slots': seq<Slot>)
    requires i < |slots| && slots[i].state == DeinterleaverSpec.Ready && EmptiedAll(slots[i := ResetSlot(slots[i])], slots')
    ensures EmptiedAll(slots, slots')
  {
  }

  lemma NothingEmptied(slots: seq<Slot>)
    requires forall a :: 0 <= a < |slots| ==> slots[a].state != DeinterleaverSpec.Ready
    ensures EmptiedAll(slots, slots)
  {
  }

  lemma RoundCounts(cfg: TxConfig, codec: FecWrapper.Codec, st: RxState, i: nat)
    requires RxOk(cfg, st.dil) && i < |st.dil.slots| && st.dil.slots[i].state == DeinterleaverSpec.Ready
    ensures HandleBlock(cfg, codec, st, i).dil.stats == st.dil.stats
  {
    hide FecWrapper.Decode, BlockPackets;
  }

  /**
   The blocks are decoded in the order of their slots, all that were ready and no other; their slots are emptied, the
   other slots and every counter stay as they are.
   */
  lemma {:induction false} DrainInOrder(cfg: TxConfig, codec: FecWrapper.Codec, st: RxState)
    requires RxOk(cfg, st.dil)
    ensures DrainedSlots(cfg, codec, st) == ReadyFrom(st.dil.slots, 0)
    ensures EmptiedAll(st.dil.slots, DrainReady(cfg, codec, st).dil.slots)
    ensures DrainReady(cfg, codec, st).dil.stats == st.dil.stats
    decreases RxSpec.Ready(st.dil)
  {
    hide HandleBlock, RxOk, DrainReady, RxSpec.Ready, FirstIn, DrainedSlots, ResetSlot, SlotFinal, EmptiedAll, ReadyFrom;
    DrainUnfolds(cfg, codec, st);
    var i := FirstIn(st.dil.slots, DeinterleaverSpec.Ready, 0);
    if i == |st.dil.slots| {
      SkipsOthers(st.dil.slots, 0, i);
      NoneFrom(st.dil.slots);
      NothingEmptied(st.dil.slots);
    } else {
      var next := HandleBlock(cfg, codec, st, i);
      DrainInOrder(cfg, codec, next);
      RoundReports(cfg, codec, st, i);
      RoundCounts(cfg, codec, st, i);
      ResetIsEmpty(st.dil.slots[i]);
      FirstOfReady(st.dil.slots, i, ResetSlot(st.dil.slots[i]));
      EmptiedNext(st.dil.slots, i, DrainReady(cfg, codec, next).dil.slots);
    }
  }

  lemma ResetIsEmpty(s: Slot)
    ensures ResetSlot(s).state == Empty
  {
  }

  lemma NoneFrom(slots: seq<Slot>)
    ensures ReadyFrom(slots, |slots|) == []
  {
  }

  // ---------------------------------------------------------------------------
  // Room
  // ---------------------------------------------------------------------------

  /** With fewer than four windows' worth of blocks in hand, a symbol pushes no block out, whatever it is. */
  lemma FourWindowsFit(cfg: TxConfig, dil: State, sym: Symbol, now: int)
    requires RxOk(cfg, dil) && |Blocks(dil.slots)| < 4 * cfg.depth
    ensures PushEvicts(RxConfig(cfg), dil, sym, now, 0, 0)
  {
    var c := RxConfig(cfg);
    hide Blocks, PushInto, Occupy;
    if !IsErasure(sym) && Acceptable(c, sym) {
      EntryOf(dil.slots, sym.packetId);
      if sym.packetId in Blocks(dil.slots) {
        var i := FindSlot(dil.slots, sym.packetId);
        if dil.slots[i].state == Filling { PushIntoEvicts(c, dil, i, sym, now); }
      } else {
        NewBlockEvicts(c, dil, sym, now);
      }
    }
  }

  // ---------------------------------------------------------------------------
  // Counters
  // ---------------------------------------------------------------------------

  /** The frame's symbol does not match its checksum. */
  ghost predicate Corrupt(cfg: TxConfig, input: RxInput) {
    input.Frame? && Wire.Parse(input.bytes, cfg.size, cfg.crcOn).CrcFailed?
  }

  /** The frame announces an erased position: packet_id 0 and no payload. */
  ghost predicate Announces(cfg: TxConfig, input: RxInput) {
    input.Frame? && Wire.Parse(input.bytes, cfg.size, cfg.crcOn).Padding?
  }

  /** The two counters that only frames move. */
  ghost predicate CountsFrame(cfg: TxConfig, a: Stats, b: Stats, input: RxInput) {
    && b.crcFail == a.crcFail + (if Corrupt(cfg, input) then 1 else 0)
    && b.erasure == a.erasure + (if Announces(cfg, input) then 1 else 0)
  }

  ghost predicate SameFrames(a: Stats, b: Stats) {
    a.crcFail == b.crcFail && a.erasure == b.erasure
  }

  lemma TickFrames(cfg: TxConfig, dil: State, now: int)
    requires RxOk(cfg, dil)
    ensures SameFrames(dil.stats, Tick(RxConfig(cfg), dil, -1, now).stats)
  {
    DeinterleaverAges.TickByAge(RxConfig(cfg), dil, -1, now);
  }

  lemma ParsedErasure(cfg: TxConfig, bytes: seq<byte>)
    ensures var r := Wire.Parse(bytes, cfg.size, cfg.crcOn);
      && (r.Padding? ==> IsErasure(r.sym)) && (r.Accepted? ==> !IsErasure(r.sym))
  {
    hide Wire.ReadFields;
  }

  lemma PushFrames(cfg: TxConfig, dil: State, sym: Symbol, now: int)
    requires RxOk(cfg, dil)
    ensures var s := Push(RxConfig(cfg), dil, sym, now).0.stats;
      s.crcFail == dil.stats.crcFail && s.erasure == dil.stats.erasure + if IsErasure(sym) then 1 else 0
  {
    PushOutcome(RxConfig(cfg), dil, sym, now);
    hide Push, Holds, HasSymbol;
  }

  lemma TakeFrames(cfg: TxConfig, codec: FecWrapper.Codec, st: RxState, sym: Symbol, now: int)
    requires RxOk(cfg, st.dil)
    ensures var s := TakeSymbol(cfg, codec, st, sym, now).dil.stats;
      s.crcFail == st.dil.stats.crcFail && s.erasure == st.dil.stats.erasure + if IsErasure(sym) then 1 else 0
  {
    RxAges.RxParts(cfg, st.dil);
    hide RxOk, DrainReady, Push, EmptiedAll, Shaped;
    RxSpec.PushFits(cfg, st.dil, sym, now);
    PushFrames(cfg, st.dil, sym, now);
    DrainInOrder(cfg, codec, st.(dil := Push(RxConfig(cfg), st.dil, sym, now).0));
  }

  lemma FrameCounts(cfg: TxConfig, codec: FecWrapper.Codec, st: RxState, bytes: seq<byte>, now: int)
    requires RxOk(cfg, st.dil)
    ensures CountsFrame(cfg, st.dil.stats, RxOnce(cfg, codec, st, Frame(bytes), now).dil.stats, Frame(bytes))
  {
    RxAges.RxParts(cfg, st.dil);
    hide RxOk, TakeSymbol, Tick, Shaped, Wire.Parse;
    TickFitsAll(cfg, st.dil, -1, now);
    TickFrames(cfg, st.dil, now);
    ParsedErasure(cfg, bytes);
    var r := Wire.Parse(bytes, cfg.size, cfg.crcOn);
    if r.Padding? || r.Accepted? {
      TakeFrames(cfg, codec, st.(dil := Tick(RxConfig(cfg), st.dil, -1, now)), r.sym, now);
    }
  }

  lemma PollCounts(cfg: TxConfig, codec: FecWrapper.Codec, st: RxState, input: RxInput, now: int)
    requires RxOk(cfg, st.dil) && !input.Frame?
    ensures SameFrames(st.dil.stats, RxOnce(cfg, codec, st, input, now).dil.stats)
  {
    RxAges.RxParts(cfg, st.dil);
    hide RxOk, DrainReady, Tick, Shaped, EmptiedAll;
    TickFitsAll(cfg, st.dil, -1, now);
    TickFrames(cfg, st.dil, now);
    DrainInOrder(cfg, codec, st.(dil := Tick(RxConfig(cfg), st.dil, -1, now)));
  }

  lemma OnceCounts(cfg: TxConfig, codec: FecWrapper.Codec, st: RxState, input: RxInput, now: int)
    requires RxOk(cfg, st.dil)
    ensures CountsFrame(cfg, st.dil.stats, RxOnce(cfg, codec, st, input, now).dil.stats, input)
  {
    hide RxOk, RxOnce, Wire.Parse;
    if input.Frame? {
      FrameCounts(cfg, codec, st, input.bytes, now);
    } else {
      PollCounts(cfg, codec, st, input, now);
    }
  }

  // ---------------------------------------------------------------------------
  // Every call gives up overdue blocks first
  // ---------------------------------------------------------------------------

  /** The callbacks made so far, then those of the blocks given up at `now`, in slot order. */
  ghost function GivenUp(cfg: TxConfig, dil: State, now: int): seq<Final> {
    dil.finals + DeinterleaverAges.Discarded(RxConfig(cfg), dil.slots, now, |dil.slots|)
  }

  ghost predicate Extends(a: seq<Final>, b: seq<Final>) {
    a <= b
  }

  lemma ExtendsTrans(a: seq<Final>, b: seq<Final>, c: seq<Final>)
    requires Extends(a, b) && Extends(b, c)
    ensures Extends(a, c)
  {
  }

  lemma PushExtends(cfg: TxConfig, dil: State, sym: Symbol, now: int)
    requires RxOk(cfg, dil) && ValidConfig(RxConfig(cfg)) && Shaped(RxConfig(cfg), dil.slots)
    ensures Extends(dil.finals, Push(RxConfig(cfg), dil, sym, now).0.finals)
  {
    var c := RxConfig(cfg);
    hide PushInto, Occupy, RxOk;
    if !IsErasure(sym) && Acceptable(c, sym) {
      var i := FindSlot(dil.slots, sym.packetId);
      if i < |dil.slots| {
        if dil.slots[i].state == Filling { StoreExtends(c, dil, i, sym, now); }
      } else {
        var a := AllocIndex(dil.slots, now);
        if a < |dil.slots| {
          OccupyExtends(c, dil, a, sym.packetId, now);
          StoreExtends(c, Occupy(c, dil, a, sym.packetId, now), a, sym, now);
          ExtendsTrans(dil.finals, Occupy(c, dil, a, sym.packetId, now).finals, Push(c, dil, sym, now).0.finals);
        }
      }
    }
  }

  lemma StoreExtends(c: Config, dil: State, i: nat, sym: Symbol, now: int)
    requires ValidConfig(c) && i < |dil.slots| && Acceptable(c, sym)
    requires |dil.slots[i].mask| == |dil.slots[i].block.symbols| == c.n
    ensures Extends(dil.finals, PushInto(c, dil, i, sym, now).0.finals)
  {
  }

  lemma OccupyExtends(c: Config, dil: State, i: nat, id: uint32, now: int)
    requires i < |dil.slots| && |dil.slots[i].mask| == |dil.slots[i].block.symbols| == c.n
    ensures Extends(dil.finals, Occupy(c, dil, i, id, now).finals)
    ensures var s := Occupy(c, dil, i, id, now).slots[i]; |s.mask| == |s.block.symbols| == c.n
  {
  }

  lemma DrainExtends(cfg: TxConfig, codec: FecWrapper.Codec, st: RxState)
    requires RxOk(cfg, st.dil)
    ensures Extends(st.dil.finals, DrainReady(cfg, codec, st).dil.finals)
  {
    hide DrainReady, DrainedSlots, RxOk, SlotFinal, SlotsOf;
    DrainReports(cfg, codec, st);
  }

  lemma TakeExtends(cfg: TxConfig, codec: FecWrapper.Codec, st: RxState, sym: Symbol, now: int)
    requires RxOk(cfg, st.dil)
    ensures Extends(st.dil.finals, TakeSymbol(cfg, codec, st, sym, now).dil.finals)
  {
    RxAges.RxParts(cfg, st.dil);
    hide RxOk, DrainReady, Push, Shaped, Extends;
    RxSpec.PushFits(cfg, st.dil, sym, now);
    PushExtends(cfg, st.dil, sym, now);
    var pushed := st.(dil := Push(RxConfig(cfg), st.dil, sym, now).0);
    DrainExtends(cfg, codec, pushed);
    ExtendsTrans(st.dil.finals, pushed.dil.finals, TakeSymbol(cfg, codec, st, sym, now).dil.finals);
  }

  /** The frame carries a symbol that is passed on. */
  ghost predicate Passes(cfg: TxConfig, input: RxInput) {
    input.Frame? && var r := Wire.Parse(input.bytes, cfg.size, cfg.crcOn); r.Padding? || r.Accepted?
  }

  /** What a call does whatever it receives. */
  ghost predicate CallKeeps(cfg: TxConfig, st: RxState, input: RxInput, now: int, st': RxState) {
    && Extends(GivenUp(cfg, st.dil, now), st'.dil.finals)
    && (!Passes(cfg, input) && input != Nothing ==> st'.sent == st.sent && st'.dil.finals == GivenUp(cfg, st.dil, now))
    && (Passes(cfg, input) || input == Nothing ==> !AnyReady(st'.dil.slots))
  }

  lemma TickGivesUp(cfg: TxConfig, dil: State, now: int)
    requires RxOk(cfg, dil)
    ensures Tick(RxConfig(cfg), dil, -1, now).finals == GivenUp(cfg, dil, now)
  {
    DeinterleaverAges.TickByAge(RxConfig(cfg), dil, -1, now);
  }

  lemma DrainedNone(cfg: TxConfig, codec: FecWrapper.Codec, st: RxState)
    requires RxOk(cfg, st.dil)
    ensures !AnyReady(DrainReady(cfg, codec, st).dil.slots)
  {
    hide RxOk, DrainReady;
    DrainsAll(cfg, codec, st);
  }

  lemma TakeKeeps(cfg: TxConfig, codec: FecWrapper.Codec, st: RxState, sym: Symbol, now: int)
    requires RxOk(cfg, st.dil)
    ensures !AnyReady(TakeSymbol(cfg, codec, st, sym, now).dil.slots)
  {
    RxAges.RxParts(cfg, st.dil);
    hide RxOk, DrainReady, Push, Shaped, AnyReady;
    RxSpec.PushFits(cfg, st.dil, sym, now);
    DrainedNone(cfg, codec, st.(dil := Push(RxConfig(cfg), st.dil, sym, now).0));
  }

  lemma PollOutcome(cfg: TxConfig, codec: FecWrapper.Codec, st: RxState, input: RxInput, now: int)
    requires RxOk(cfg, st.dil) && !input.Frame?
    ensures CallKeeps(cfg, st, input, now, RxOnce(cfg, codec, st, input, now))
  {
    RxAges.RxParts(cfg, st.dil);
    hide RxOk, DrainReady, Tick, Shaped, AnyReady, GivenUp;
    TickFitsAll(cfg, st.dil, -1, now);
    TickGivesUp(cfg, st.dil, now);
    var ticked := st.(dil := Tick(RxConfig(cfg), st.dil, -1, now));
    if input == Nothing {
      DrainExtends(cfg, codec, ticked);
      DrainedNone(cfg, codec, ticked);
    }
  }

  lemma FrameOutcome(cfg: TxConfig, codec: FecWrapper.Codec, st: RxState, bytes: seq<byte>, now: int)
    requires RxOk(cfg, st.dil)
    ensures CallKeeps(cfg, st, Frame(bytes), now, RxOnce(cfg, codec, st, Frame(bytes), now))
  {
    RxAges.RxParts(cfg, st.dil);
    hide RxOk, TakeSymbol, Tick, Shaped, Wire.Parse, AnyReady, GivenUp;
    TickFitsAll(cfg, st.dil, -1, now);
    TickGivesUp(cfg, st.dil, now);
    var ticked := st.(dil := Tick(RxConfig(cfg), st.dil, -1, now));
    var r := Wire.Parse(bytes, cfg.size, cfg.crcOn);
    if r.Padding? || r.Accepted? {
      TakeExtends(cfg, codec, ticked, r.sym, now);
      TakeKeeps(cfg, codec, ticked, r.sym, now);
    }
  }

  /**
   Every call first gives up the blocks that are overdue, even the one its frame belongs to; without a symbol or an
   idle input it does nothing else that shows, and with one it leaves no block ready.
   */
  lemma CallOutcome(cfg: TxConfig, codec: FecWrapper.Codec, st: RxState, input: RxInput, now: int)
    requires RxOk(cfg, st.dil)
    ensures CallKeeps(cfg, st, input, now, RxOnce(cfg, codec, st, input, now))
  {
    hide RxOk, RxOnce, Wire.Parse, AnyReady, GivenUp;
    if input.Frame? {
      FrameOutcome(cfg, codec, st, input.bytes, now);
    } else {
      PollOutcome(cfg, codec, st, input, now);
    }
  }

  // ---------------------------------------------------------------------------
  // Counters over runs
  // ---------------------------------------------------------------------------

  ghost function CorruptIn(cfg: TxConfig, es: seq<RxEvent>): set<int> {
    set i | 0 <= i < |es| && Corrupt(cfg, es[i].input)
  }

  ghost function AnnouncedIn(cfg: TxConfig, es: seq<RxEvent>): set<int> {
    set i | 0 <= i < |es| && Announces(cfg, es[i].input)
  }

  lemma LastCorrupt(cfg: TxConfig, es: seq<RxEvent>, e: RxEvent)
    ensures |CorruptIn(cfg, es + [e])| == |CorruptIn(cfg, es)| + if Corrupt(cfg, e.input) then 1 else 0
  {
    hide Corrupt;
    assert CorruptIn(cfg, es + [e]) == CorruptIn(cfg, es) + if Corrupt(cfg, e.input) then {|es|} else {};
  }

  lemma LastAnnounced(cfg: TxConfig, es: seq<RxEvent>, e: RxEvent)
    ensures |AnnouncedIn(cfg, es + [e])| == |AnnouncedIn(cfg, es)| + if Announces(cfg, e.input) then 1 else 0
  {
    hide Announces;
    assert AnnouncedIn(cfg, es + [e]) == AnnouncedIn(cfg, es) + if Announces(cfg, e.input) then {|es|} else {};
  }

  /** Over every run, crc_drop_fail counts the frames that fail verification, and the erasure counter the frames of padding. */
  lemma {:induction false} FramesCounted(cfg: TxConfig, codec: FecWrapper.Codec, st: RxState, es: seq<RxEvent>)
    requires RxOk(cfg, st.dil)
    ensures var s, s' := st.dil.stats, RxRun(cfg, codec, st, es).dil.stats;
      s'.crcFail == s.crcFail + |CorruptIn(cfg, es)| && s'.erasure == s.erasure + |AnnouncedIn(cfg, es)|
  {
    hide RxOk, RxOnce, Corrupt, Announces, CorruptIn, AnnouncedIn;
    if es == [] {
      NoFrames(cfg);
    } else {
      var before, e := es[..|es| - 1], es[|es| - 1];
      FramesCounted(cfg, codec, st, before);
      OnceCounts(cfg, codec, RxRun(cfg, codec, st, before), e.input, e.now);
      LastCorrupt(cfg, before, e);
      LastAnnounced(cfg, before, e);
      assert es == before + [e];
    }
  }

  lemma NoFrames(cfg: TxConfig)
    ensures CorruptIn(cfg, []) == {} && AnnouncedIn(cfg, []) == {}
  {
  }
}
