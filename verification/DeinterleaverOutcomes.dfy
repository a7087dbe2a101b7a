/** What one push, one acknowledgement and one tick report: return codes, counters and callbacks, case by case. */
module DeinterleaverOutcomes {
  import opened Types
  import opened DeinterleaverSpec
  import Invariant = DeinterleaverInvariant
  import opened DeinterleaverMap

  /** The block is in hand, in the state. */
  ghost predicate Holds(slots: seq<Slot>, id: uint32, state: BlockState) {
    exists j :: 0 <= j < |slots| && slots[j].state == state && slots[j].id == id
  }

  /** The block is being collected and has this symbol already. */
  ghost predicate HasSymbol(slots: seq<Slot>, id: uint32, f: uint32) {
    exists j :: 0 <= j < |slots| && slots[j].state == Filling && slots[j].id == id && f < |slots[j].mask| && slots[j].mask[f]
  }

  lemma FoundIn(slots: seq<Slot>, id: uint32, state: BlockState)
    requires Unique(slots) && state != Empty
    ensures Holds(slots, id, state) <==> FindSlot(slots, id) < |slots| && slots[FindSlot(slots, id)].state == state
  {
  }

  lemma FoundSymbol(slots: seq<Slot>, id: uint32, f: uint32)
    requires Unique(slots)
    ensures HasSymbol(slots, id, f) <==>
      var i := FindSlot(slots, id); i < |slots| && slots[i].state == Filling && f < |slots[i].mask| && slots[i].mask[f]
  {
  }

  /** No counter of dropped symbols moves. */
  ghost predicate NotDropped(a: Stats, b: Stats) {
    a.erasure == b.erasure && a.frozen == b.frozen && a.duplicate == b.duplicate && a.crcFail == b.crcFail
  }

  lemma StoredOutcome(c: Config, st: State, i: nat, sym: Symbol, now: int)
    requires ValidConfig(c) && i < |st.slots| && Unique(st.slots) && sym.fecId < c.n && sym.len <= c.size
    requires st.slots[i].state == Filling && st.slots[i].id == sym.packetId
    requires |st.slots[i].mask| == |st.slots[i].block.symbols| == c.n && !st.slots[i].mask[sym.fecId]
    ensures var (st', rc) := PushInto(c, st, i, sym, now);
      NotDropped(st.stats, st'.stats) && rc == if Holds(st'.slots, sym.packetId, Ready) then 1 else 0
  {
    var stored := st.(slots := st.slots[i := StoreSymbol(st.slots[i], sym, now)]);
    var st' := FreezeSlot(c, stored, i, AgeLimit(c), now);
    FreezeOutcome(c, stored, i, AgeLimit(c), now);
    assert forall j :: 0 <= j < |st.slots| && j != i ==> st'.slots[j] == st.slots[j];
    if st'.slots[i].state == Ready { assert Holds(st'.slots, sym.packetId, Ready); }
  }

  lemma FreezeOutcome(c: Config, st: State, i: nat, timeout: int, now: int)
    requires ValidConfig(c) && i < |st.slots|
    ensures var st' := FreezeSlot(c, st, i, timeout, now);
      && NotDropped(st.stats, st'.stats) && |st'.slots| == |st.slots|
      && (forall j :: 0 <= j < |st.slots| && j != i ==> st'.slots[j] == st.slots[j])
      && (st'.slots[i].state != Empty ==> st'.slots[i].id == st.slots[i].id)
  {
  }

  lemma OccupyOutcome(c: Config, st: State, i: nat, id: uint32, now: int)
    requires i < |st.slots|
    ensures NotDropped(st.stats, Occupy(c, st, i, id, now).stats)
  {
  }

  /** Where a pushed symbol goes: counted as an erasure, rejected, late, a duplicate, or stored. */
  lemma PushOutcome(c: Config, st: State, sym: Symbol, now: int)
    requires ValidConfig(c) && Inv(c, st)
    ensures var (st', rc) := Push(c, st, sym, now);
      if sym.packetId == 0 && sym.len == 0 then
        st' == st.(stats := st.stats.(erasure := st.stats.erasure + 1)) && rc == 0
      else if sym.len > c.size || sym.fecId >= c.n then st' == st && rc == -1
      else if Holds(st.slots, sym.packetId, Ready) then
        st' == st.(stats := st.stats.(frozen := st.stats.frozen + 1)) && rc == 0
      else if HasSymbol(st.slots, sym.packetId, sym.fecId) then
        st' == st.(stats := st.stats.(duplicate := st.stats.duplicate + 1)) && rc == 0
      else
        NotDropped(st.stats, st'.stats) && rc == if Holds(st'.slots, sym.packetId, Ready) then 1 else 0
  {
    FoundIn(st.slots, sym.packetId, Ready);
    FoundSymbol(st.slots, sym.packetId, sym.fecId);
    hide Holds, HasSymbol, PushInto, Occupy, AllocIndex, NotDropped;
    if !(sym.packetId == 0 && sym.len == 0) && sym.len <= c.size && sym.fecId < c.n {
      var i := FindSlot(st.slots, sym.packetId);
      if i < |st.slots| {
        if st.slots[i].state == Filling { PushIntoOutcome(c, st, i, sym, now); }
      } else {
        StartOutcome(c, st, sym, now);
      }
    }
  }

  lemma PushIntoOutcome(c: Config, st: State, i: nat, sym: Symbol, now: int)
    requires ValidConfig(c) && i < |st.slots| && Unique(st.slots) && sym.fecId < c.n && sym.len <= c.size
    requires st.slots[i].state == Filling && st.slots[i].id == sym.packetId
    requires |st.slots[i].mask| == |st.slots[i].block.symbols| == c.n
    ensures var (st', rc) := PushInto(c, st, i, sym, now);
      if st.slots[i].mask[sym.fecId] then st' == st.(stats := st.stats.(duplicate := st.stats.duplicate + 1)) && rc == 0
      else NotDropped(st.stats, st'.stats) && rc == if Holds(st'.slots, sym.packetId, Ready) then 1 else 0
  {
    if !st.slots[i].mask[sym.fecId] { StoredOutcome(c, st, i, sym, now); }
  }

  lemma StartOutcome(c: Config, st: State, sym: Symbol, now: int)
    requires ValidConfig(c) && Inv(c, st) && sym.fecId < c.n && sym.len <= c.size
    requires FindSlot(st.slots, sym.packetId) == |st.slots|
    ensures var a := AllocIndex(st.slots, now);
      && a < |st.slots| && Shaped(c, Occupy(c, st, a, sym.packetId, now).slots)
      && var (st', rc) := PushInto(c, Occupy(c, st, a, sym.packetId, now), a, sym, now);
      NotDropped(st.stats, st'.stats) && rc == if Holds(st'.slots, sym.packetId, Ready) then 1 else 0
  {
    var a := AllocIndex(st.slots, now);
    Invariant.AllocAlwaysSucceeds(st, now);
    Invariant.OccupyVacates(c, st, a, sym.packetId, now);
    OccupyOutcome(c, st, a, sym.packetId, now);
    hide Occupy, AllocIndex, Holds;
    StoredOutcome(c, Occupy(c, st, a, sym.packetId, now), a, sym, now);
  }

  /** The slot a new block takes: the first free one, else the first of the oldest ready ones, else of the oldest filling ones. */
  lemma SlotTaken(st: State, now: int)
    requires 1 <= |st.slots|
    ensures var a := AllocIndex(st.slots, now);
      && a < |st.slots|
      && (st.slots[a].state == Empty ==> forall j :: 0 <= j < a ==> st.slots[j].state != Empty)
      && (st.slots[a].state == Ready ==> forall j :: 0 <= j < a && st.slots[j].state == Ready ==>
            Elapsed(st.slots[j].first, now) < Elapsed(st.slots[a].first, now))
      && (st.slots[a].state == Filling ==> forall j :: 0 <= j < a ==>
            Elapsed(st.slots[j].first, now) < Elapsed(st.slots[a].first, now))
  {
    Invariant.AllocAlwaysSucceeds(st, now);
    OldestIsOldest(st.slots, Ready, now, |st.slots|);
    OldestIsOldest(st.slots, Filling, now, |st.slots|);
    hide Elapsed;
  }

  /** How many blocks have been pushed out, unfinished ones and ready ones. */
  ghost predicate Evicted(a: Stats, b: Stats, filling: int, ready: int) {
    b.evictedFilling == a.evictedFilling + filling && b.evictedDone == a.evictedDone + ready
  }

  lemma PushIntoEvicts(c: Config, st: State, i: nat, sym: Symbol, now: int)
    requires ValidConfig(c) && i < |st.slots| && Acceptable(c, sym)
    requires |st.slots[i].mask| == |st.slots[i].block.symbols| == c.n
    ensures Evicted(st.stats, PushInto(c, st, i, sym, now).0.stats, 0, 0)
  {
  }

  lemma OccupyEvicts(c: Config, st: State, i: nat, id: uint32, now: int)
    requires i < |st.slots|
    ensures Evicted(st.stats, Occupy(c, st, i, id, now).stats,
                    if st.slots[i].state == Filling then 1 else 0, if st.slots[i].state == Ready then 1 else 0)
  {
  }

  /** How many blocks a push pushes out. */
  ghost predicate PushEvicts(c: Config, st: State, sym: Symbol, now: int, filling: int, ready: int) {
    ValidConfig(c) && Shaped(c, st.slots) && Evicted(st.stats, Push(c, st, sym, now).0.stats, filling, ready)
  }

  ghost predicate AnyReady(slots: seq<Slot>) {
    exists j :: 0 <= j < |slots| && slots[j].state == Ready
  }

  /** A new block costs an old one exactly when as many are in hand as there are slots: a ready one if there is any. */
  lemma NewBlockEvicts(c: Config, st: State, sym: Symbol, now: int)
    requires ValidConfig(c) && Inv(c, st) && sym.packetId !in Blocks(st.slots)
    requires sym.len <= c.size && sym.fecId < c.n && !(sym.packetId == 0 && sym.len == 0)
    ensures var full, ready := |Blocks(st.slots)| == c.slots, AnyReady(st.slots);
      PushEvicts(c, st, sym, now, if full && !ready then 1 else 0, if full && ready then 1 else 0)
  {
    hide Blocks;
    EntryOf(st.slots, sym.packetId);
    FreeSlot(st.slots);
    var a := AllocIndex(st.slots, now);
    Invariant.AllocAlwaysSucceeds(st, now);
    Invariant.OccupyVacates(c, st, a, sym.packetId, now);
    OccupyEvicts(c, st, a, sym.packetId, now);
    PushIntoEvicts(c, Occupy(c, st, a, sym.packetId, now), a, sym, now);
    hide Occupy, AllocIndex, PushInto;
  }

  /** Acknowledging a block: the ready one leaves with one callback that tells the result; any other changes nothing. */
  lemma MarkOutcome(st: State, id: uint32, success: bool)
    requires Unique(st.slots)
    ensures var (st', rc) := Mark(st, id, success);
      if Holds(st.slots, id, Ready) then
        && rc == 0 && st'.stats == st.stats && !Holds(st'.slots, id, Ready) && !Holds(st'.slots, id, Filling)
        && st'.finals == st.finals + [Final(id, if success then DecodeSuccess else DecodeFailed)]
      else st' == st && rc == -1
  {
    FoundIn(st.slots, id, Ready);
  }

  /** The count a tick returns is the number of slots whose state changed. */
  lemma {:induction false} ChangesCounted(a: seq<Slot>, b: seq<Slot>, i: nat)
    requires i <= |a| && i <= |b|
    ensures Changes(a, b, i) == |set j | 0 <= j < i && a[j].state != b[j].state|
  {
    var changed := set j | 0 <= j < i && a[j].state != b[j].state;
    if i == 0 {
      assert changed == {};
    } else {
      ChangesCounted(a, b, i - 1);
      var before := set j | 0 <= j < i - 1 && a[j].state != b[j].state;
      assert changed == if a[i - 1].state != b[i - 1].state then before + {i - 1} else before;
    }
  }
}
