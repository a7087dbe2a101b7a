/** The loop that empties the receiver of ready blocks: the slots it decodes, what it sends and what it reports. */
module LossyDrain {
  import opened Types
  import opened Interleaving
  import opened DeinterleaverSpec
  import opened DeinterleaverMap
  import opened WindowRecovery
  import opened WindowDelivery
  import FecWrapper
  import opened TxSpec
  import opened TxHistory
  import opened RxSpec
  import opened LossyWindow

  // ---------------------------------------------------------------------------
  // What decoding a slot sends and reports
  // ---------------------------------------------------------------------------

  /** The packets a slot yields when it is decoded. */
  ghost function SlotSends(cfg: TxConfig, codec: FecWrapper.Codec, s: Slot): seq<PacketBytes> {
    if ValidTx(cfg) && SymbolsFit(cfg, s.block.symbols) && cfg.k <= |s.block.symbols|
    then BlockPackets(cfg, codec, s.block.symbols) else []
  }

  ghost function LogSends(cfg: TxConfig, codec: FecWrapper.Codec, log: seq<Slot>): seq<PacketBytes> {
    if log == [] then [] else LogSends(cfg, codec, log[..|log| - 1]) + SlotSends(cfg, codec, log[|log| - 1])
  }

  lemma {:induction false} SendsConcat(cfg: TxConfig, codec: FecWrapper.Codec, a: seq<Slot>, b: seq<Slot>)
    ensures LogSends(cfg, codec, a + b) == LogSends(cfg, codec, a) + LogSends(cfg, codec, b)
  {
    hide SlotSends;
    if b == [] {
      assert a + b == a;
    } else {
      assert (a + b)[..|a + b| - 1] == a + b[..|b| - 1];
      SendsConcat(cfg, codec, a, b[..|b| - 1]);
    }
  }

  /** The final callback for a slot that was decoded. */
  ghost function SlotFinal(cfg: TxConfig, codec: FecWrapper.Codec, s: Slot): Final {
    Final(s.id, if FecWrapper.Decode(codec, cfg.k, s.block.symbols).Ok? then DecodeSuccess else DecodeFailed)
  }

  ghost function LogFinals(cfg: TxConfig, codec: FecWrapper.Codec, log: seq<Slot>): (f: seq<Final>)
    ensures |f| == |log| && forall i :: 0 <= i < |log| ==> f[i] == SlotFinal(cfg, codec, log[i])
  {
    seq(|log|, i requires 0 <= i < |log| => SlotFinal(cfg, codec, log[i]))
  }

  // ---------------------------------------------------------------------------
  // drain_ready_blocks
  // ---------------------------------------------------------------------------

  /** The slots the loop decodes, in its order, each as it stands when it is handled. */
  ghost function DrainedSlots(cfg: TxConfig, codec: FecWrapper.Codec, st: RxState): (log: seq<Slot>)
    requires RxOk(cfg, st.dil)
    decreases RxSpec.Ready(st.dil)
  {
    var i := FirstIn(st.dil.slots, DeinterleaverSpec.Ready, 0);
    if i == |st.dil.slots| then []
    else [st.dil.slots[i]] + DrainedSlots(cfg, codec, HandleBlock(cfg, codec, st, i))
  }

  /** A slot as it stands when its block is decoded. */
  ghost predicate ReadySlot(cfg: TxConfig, m: map<uint32, Received>, s: Slot) {
    && SlotOk(RxConfig(cfg), s) && s.state == DeinterleaverSpec.Ready && SlotFits(cfg, s)
    && s.id in m && m[s.id].ready && m[s.id].symbols == Marked(s)
  }

  /** The log's slots are ready blocks of m, each once. */
  ghost predicate ReadyLog(cfg: TxConfig, m: map<uint32, Received>, log: seq<Slot>) {
    && (forall i :: 0 <= i < |log| ==> ReadySlot(cfg, m, log[i]))
    && DistinctLog(log)
  }

  ghost predicate DistinctLog(log: seq<Slot>) {
    forall i, j {:trigger log[i].id, log[j].id} :: 0 <= i < j < |log| ==> log[i].id != log[j].id
  }

  /** The blocks that are not ready. */
  ghost function Unready(m: map<uint32, Received>): map<uint32, Received> {
    map id | id in m && !m[id].ready :: m[id]
  }

  ghost predicate AllReadyLogged(m: map<uint32, Received>, log: seq<Slot>) {
    forall id :: id in m && m[id].ready ==> Logged(log, id)
  }

  lemma NoneToDrain(cfg: TxConfig, st: RxState)
    requires RxOk(cfg, st.dil) && FirstIn(st.dil.slots, DeinterleaverSpec.Ready, 0) == |st.dil.slots|
    ensures NoneReady(Blocks(st.dil.slots)) && Unready(Blocks(st.dil.slots)) == Blocks(st.dil.slots)
  {
    var slots := st.dil.slots;
    forall id | id in Blocks(slots) ensures !Blocks(slots)[id].ready {
      EntryOf(slots, id);
    }
    hide Blocks;
    SameMap(Unready(Blocks(slots)), Blocks(slots));
  }

  lemma SlotReady(cfg: TxConfig, st: RxState, i: nat)
    requires RxOk(cfg, st.dil) && i < |st.dil.slots| && st.dil.slots[i].state == DeinterleaverSpec.Ready
    ensures ReadySlot(cfg, Blocks(st.dil.slots), st.dil.slots[i])
  {
    assert SlotFits(cfg, st.dil.slots[i]) && SlotOk(RxConfig(cfg), st.dil.slots[i]);
    BlockAt(st.dil.slots, i);
  }

  /** One more slot in front of the log of what remains. */
  lemma LogGrows(cfg: TxConfig, m: map<uint32, Received>, s: Slot, rest: seq<Slot>)
    requires ReadySlot(cfg, m, s) && ReadyLog(cfg, m - {s.id}, rest) && AllReadyLogged(m - {s.id}, rest)
    ensures ReadyLog(cfg, m, [s] + rest) && AllReadyLogged(m, [s] + rest) && Unready(m - {s.id}) == Unready(m)
  {
    hide SlotOk, SlotFits, Marked;
    var log := [s] + rest;
    forall i | 0 <= i < |log| ensures ReadySlot(cfg, m, log[i]) && (i > 0 ==> log[i].id != s.id) {
      if i > 0 { assert log[i] == rest[i - 1] && ReadySlot(cfg, m - {s.id}, rest[i - 1]); }
    }
    forall i, j {:trigger log[i].id, log[j].id} | 0 <= i < j < |log| ensures log[i].id != log[j].id {
      if i > 0 { assert log[i] == rest[i - 1] && log[j] == rest[j - 1]; }
    }
    forall id | id in m && m[id].ready ensures Logged(log, id) {
      if id == s.id {
        assert log[0].id == id;
      } else {
        assert id in m - {s.id} && Logged(rest, id);
        var i :| 0 <= i < |rest| && rest[i].id == id;
        assert log[i + 1].id == id;
      }
    }
  }

  lemma DrainUnfolds(cfg: TxConfig, codec: FecWrapper.Codec, st: RxState)
    requires RxOk(cfg, st.dil)
    ensures var i := FirstIn(st.dil.slots, DeinterleaverSpec.Ready, 0);
      if i == |st.dil.slots| then DrainReady(cfg, codec, st) == st && DrainedSlots(cfg, codec, st) == []
      else
        && i < |st.dil.slots| && st.dil.slots[i].state == DeinterleaverSpec.Ready
        && RxOk(cfg, HandleBlock(cfg, codec, st, i).dil)
        && RxSpec.Ready(HandleBlock(cfg, codec, st, i).dil) < RxSpec.Ready(st.dil)
        && DrainReady(cfg, codec, st) == DrainReady(cfg, codec, HandleBlock(cfg, codec, st, i))
        && DrainedSlots(cfg, codec, st)
           == [st.dil.slots[i]] + DrainedSlots(cfg, codec, HandleBlock(cfg, codec, st, i))
  {
    hide HandleBlock;
  }

  /** What the first round adds to the log of the others. */
  lemma RoundThenRest(cfg: TxConfig, codec: FecWrapper.Codec, st: RxState, i: nat, rest: seq<Slot>)
    requires RxOk(cfg, st.dil) && i < |st.dil.slots| && st.dil.slots[i].state == DeinterleaverSpec.Ready
    requires ReadyLog(cfg, Blocks(HandleBlock(cfg, codec, st, i).dil.slots), rest)
    requires AllReadyLogged(Blocks(HandleBlock(cfg, codec, st, i).dil.slots), rest)
    ensures var m, log := Blocks(st.dil.slots), [st.dil.slots[i]] + rest;
      && ReadyLog(cfg, m, log) && AllReadyLogged(m, log)
      && Unready(Blocks(HandleBlock(cfg, codec, st, i).dil.slots)) == Unready(m)
  {
    hide Blocks, BlockPackets, HandleBlock, RxOk, ReadyLog, AllReadyLogged, Unready, ReadySlot, SymbolsFit;
    HandleOne(cfg, codec, st, i);
    SlotReady(cfg, st, i);
    LogGrows(cfg, Blocks(st.dil.slots), st.dil.slots[i], rest);
  }

  lemma RoundSends(cfg: TxConfig, codec: FecWrapper.Codec, st: RxState, i: nat, rest: seq<Slot>)
    requires RxOk(cfg, st.dil) && i < |st.dil.slots| && st.dil.slots[i].state == DeinterleaverSpec.Ready
    ensures HandleBlock(cfg, codec, st, i).sent + LogSends(cfg, codec, rest)
         == st.sent + LogSends(cfg, codec, [st.dil.slots[i]] + rest)
  {
    hide Blocks, BlockPackets, HandleBlock, RxOk, SymbolsFit, LogSends;
    HandleOne(cfg, codec, st, i);
    SendsConcat(cfg, codec, [st.dil.slots[i]], rest);
    FirstSends(cfg, codec, st, st.dil.slots[i]);
  }

  /** One round changes one slot, empties it, and reports its block once. */
  lemma RoundReports(cfg: TxConfig, codec: FecWrapper.Codec, st: RxState, i: nat)
    requires RxOk(cfg, st.dil) && i < |st.dil.slots| && st.dil.slots[i].state == DeinterleaverSpec.Ready
    ensures var dil' := HandleBlock(cfg, codec, st, i).dil;
      && dil'.slots == st.dil.slots[i := ResetSlot(st.dil.slots[i])]
      && dil'.finals == st.dil.finals + [SlotFinal(cfg, codec, st.dil.slots[i])]
  {
    hide Blocks, BlockPackets, FecWrapper.Decode;
    BlockAt(st.dil.slots, i);
  }

  lemma FinalsOfRound(cfg: TxConfig, codec: FecWrapper.Codec, finals: seq<Final>, s: Slot, rest: seq<Slot>)
    ensures finals + [SlotFinal(cfg, codec, s)] + LogFinals(cfg, codec, rest) == finals + LogFinals(cfg, codec, [s] + rest)
  {
    hide SlotFinal;
  }

  /** The decoded slots are slots of the state the loop starts from. */
  ghost predicate SlotsOf(log: seq<Slot>, slots: seq<Slot>) {
    forall j :: 0 <= j < |log| ==> exists i :: 0 <= i < |slots| && slots[i] == log[j] && slots[i].state == DeinterleaverSpec.Ready
  }

  lemma SlotsOfRound(slots: seq<Slot>, i: nat, rest: seq<Slot>)
    requires i < |slots| && slots[i].state == DeinterleaverSpec.Ready && SlotsOf(rest, slots[i := ResetSlot(slots[i])])
    ensures SlotsOf([slots[i]] + rest, slots)
  {
    var log, slots' := [slots[i]] + rest, slots[i := ResetSlot(slots[i])];
    forall j | 0 <= j < |log|
      ensures exists x :: 0 <= x < |slots| && slots[x] == log[j] && slots[x].state == DeinterleaverSpec.Ready
    {
      if j > 0 {
        assert log[j] == rest[j - 1];
        var x :| 0 <= x < |slots'| && slots'[x] == rest[j - 1] && slots'[x].state == DeinterleaverSpec.Ready;
        assert x != i;
        assert slots[x] == log[j];
      }
    }
  }

  /**
   The loop decodes exactly the ready blocks, each once, from the slots they are in; it leaves the other blocks
   alone, sends what those slots yield, and reports each of them once and nothing else.
   */
  lemma {:induction false} DrainLog(cfg: TxConfig, codec: FecWrapper.Codec, st: RxState)
    requires RxOk(cfg, st.dil)
    ensures var log, st' := DrainedSlots(cfg, codec, st), DrainReady(cfg, codec, st);
      && Blocks(st'.dil.slots) == Unready(Blocks(st.dil.slots))
      && st'.sent == st.sent + LogSends(cfg, codec, log)
      && ReadyLog(cfg, Blocks(st.dil.slots), log) && AllReadyLogged(Blocks(st.dil.slots), log)
    decreases RxSpec.Ready(st.dil)
  {
    hide Blocks, HandleBlock, RxOk, ReadyLog, AllReadyLogged, Unready, DrainReady, RxSpec.Ready, FirstIn, DrainedSlots;
    DrainUnfolds(cfg, codec, st);
    var i := FirstIn(st.dil.slots, DeinterleaverSpec.Ready, 0);
    if i == |st.dil.slots| {
      NoneToDrain(cfg, st);
      NothingLogged(cfg, Blocks(st.dil.slots));
      assert st.sent + [] == st.sent;
    } else {
      var next := HandleBlock(cfg, codec, st, i);
      DrainLog(cfg, codec, next);
      RoundThenRest(cfg, codec, st, i, DrainedSlots(cfg, codec, next));
      RoundSends(cfg, codec, st, i, DrainedSlots(cfg, codec, next));
    }
  }

  lemma {:induction false} DrainReports(cfg: TxConfig, codec: FecWrapper.Codec, st: RxState)
    requires RxOk(cfg, st.dil)
    ensures var log, st' := DrainedSlots(cfg, codec, st), DrainReady(cfg, codec, st);
      SlotsOf(log, st.dil.slots) && st'.dil.finals == st.dil.finals + LogFinals(cfg, codec, log)
    decreases RxSpec.Ready(st.dil)
  {
    hide Blocks, HandleBlock, RxOk, DrainReady, RxSpec.Ready, FirstIn, DrainedSlots, SlotFinal, SlotsOf;
    DrainUnfolds(cfg, codec, st);
    var i := FirstIn(st.dil.slots, DeinterleaverSpec.Ready, 0);
    if i == |st.dil.slots| {
      NoSlots(st.dil.slots);
      assert st.dil.finals + LogFinals(cfg, codec, []) == st.dil.finals;
    } else {
      var next := HandleBlock(cfg, codec, st, i);
      DrainReports(cfg, codec, next);
      RoundReports(cfg, codec, st, i);
      SlotsOfRound(st.dil.slots, i, DrainedSlots(cfg, codec, next));
      FinalsOfRound(cfg, codec, st.dil.finals, st.dil.slots[i], DrainedSlots(cfg, codec, next));
    }
  }

  lemma NoSlots(slots: seq<Slot>)
    ensures SlotsOf([], slots)
  {
  }

  lemma NothingLogged(cfg: TxConfig, m: map<uint32, Received>)
    requires NoneReady(m)
    ensures ReadyLog(cfg, m, []) && AllReadyLogged(m, [])
  {
  }

  lemma FirstSends(cfg: TxConfig, codec: FecWrapper.Codec, st: RxState, s: Slot)
    requires RxOk(cfg, st.dil) && SymbolsFit(cfg, s.block.symbols) && cfg.k <= |s.block.symbols|
    ensures ValidTx(cfg) && LogSends(cfg, codec, [s]) == BlockPackets(cfg, codec, s.block.symbols)
  {
    hide BlockPackets;
    assert LogSends(cfg, codec, [s][..0]) == [];
  }

  // ---------------------------------------------------------------------------
  // Decoding in the course of a window
  // ---------------------------------------------------------------------------

  lemma LoggedConcat(a: seq<Slot>, b: seq<Slot>, id: uint32)
    ensures Logged(a + b, id) <==> Logged(a, id) || Logged(b, id)
  {
    if Logged(a, id) {
      var i :| 0 <= i < |a| && a[i].id == id;
      assert (a + b)[i].id == id;
    }
    if Logged(b, id) {
      var i :| 0 <= i < |b| && b[i].id == id;
      assert (a + b)[|a| + i].id == id;
    }
  }

  lemma OnlyReadyLogged(cfg: TxConfig, m: map<uint32, Received>, log: seq<Slot>, id: uint32)
    requires ReadyLog(cfg, m, log)
    ensures Logged(log, id) ==> id in m && m[id].ready
  {
    if Logged(log, id) {
      var i :| 0 <= i < |log| && log[i].id == id;
      assert ReadySlot(cfg, m, log[i]);
    }
  }

  /** Draining moves blocks from in hand to decoded. */
  lemma DrainProgress(cfg: TxConfig, c: Config, h: Hit, p: nat, tl: map<int, Times>, m: map<uint32, Received>, log: seq<Slot>,
                      more: seq<Slot>)
    requires Progress(c, h, p, tl, m, log) && ReadyLog(cfg, m, more) && AllReadyLogged(m, more)
    ensures Progress(c, h, p, tl, Unready(m), log + more)
  {
    hide CameOf, SparedOf, Transmittable, Complete, HasRow, Logged;
    forall r: nat | r < h.g.depth && h.rows[r].key != 0 ensures RowProgress(c, h, p, tl, Unready(m), log + more, r) {
      assert RowProgress(c, h, p, tl, m, log, r);
      LoggedConcat(log, more, h.rows[r].key);
      OnlyReadyLogged(cfg, m, more, h.rows[r].key);
    }
  }

  /** A tick that finds no unfinished row due. */
  lemma TickProgress(c: Config, h: Hit, p: nat, tl: map<int, Times>, m: map<uint32, Received>, m': map<uint32, Received>,
                     log: seq<Slot>, now: int)
    requires Restorable(c, h) && Progress(c, h, p, tl, m, log) && Calm(c, h, p, tl, now)
    requires Settled(c, m, m', AgeLimit(c), now)
    ensures Progress(c, h, p, tl, m', log) && m'.Keys == m.Keys
  {
    hide Settle, CameOf, SparedOf, Transmittable, Logged, Complete, HasRow, Calm, Finished, StillYoung;
    forall id | id in m
      ensures id in m' && m'[id].(ready := m[id].ready) == m[id]
      ensures m'[id].ready ==> forall r: nat :: r < h.g.depth && h.rows[r].key == id ==> Finished(c, h, r, p)
    {
      SettleRow(c, h, p, tl, m, log, id, now);
    }
    forall r: nat | r < h.g.depth && h.rows[r].key != 0 ensures RowProgress(c, h, p, tl, m', log, r) {
      assert RowProgress(c, h, p, tl, m, log, r);
      var key := h.rows[r].key;
      assert key in m <==> key in m';
    }
  }

  /** Every row that has arrived is finished, and quiet for the stabilization time. */
  ghost predicate Late(c: Config, h: Hit, p: nat, tl: map<int, Times>, now: int)
    requires Sound(c, h)
  {
    forall r: nat :: r < h.g.depth && r in tl ==> Finished(c, h, r, p) && Elapsed(tl[r].last, now) >= c.stab
  }

  /** A tick that late promotes every block. */
  lemma TickAll(c: Config, h: Hit, p: nat, tl: map<int, Times>, m: map<uint32, Received>, m': map<uint32, Received>,
                log: seq<Slot>, now: int)
    requires Restorable(c, h) && Progress(c, h, p, tl, m, log) && Late(c, h, p, tl, now)
    requires Settled(c, m, m', AgeLimit(c), now)
    ensures Calm(c, h, p, tl, now) && forall id :: id in m' ==> m'[id].ready
  {
    hide Settle, CameOf, SparedOf, Transmittable, Logged, Complete, HasRow, Finished, StillYoung, RowProgress;
    assert Calm(c, h, p, tl, now);
    forall id | id in m' ensures m'[id].ready {
      SettleRow(c, h, p, tl, m, log, id, now);
      var r := WaitingOf(c, h, p, tl, m, log, id);
    }
  }
}
