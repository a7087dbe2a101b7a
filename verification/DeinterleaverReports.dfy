/** The final callback is invoked only for blocks that go: a step after which every block is still there reports none. */
module DeinterleaverReports {
  import opened Types
  import opened DeinterleaverSpec
  import opened DeinterleaverMap
  import Invariant = DeinterleaverInvariant

  lemma FreezeReports(c: Config, st: State, i: nat, timeout: int, now: int)
    requires ValidConfig(c) && i < |st.slots|
    requires st.slots[i].state != Empty ==> FreezeSlot(c, st, i, timeout, now).slots[i].state != Empty
    ensures FreezeSlot(c, st, i, timeout, now).finals == st.finals
  {
    hide FreezeRule;
  }

  lemma {:induction false} TickUpToReports(c: Config, st: State, limit: int, now: int, i: nat)
    requires ValidConfig(c) && Inv(c, st) && i <= |st.slots|
    requires forall j :: 0 <= j < i && st.slots[j].state != Empty ==> FreezeSlot(c, st, j, limit, now).slots[j].state != Empty
    ensures TickUpTo(c, st, limit, now, i).finals == st.finals
  {
    hide FreezeRule, FreezeSlot;
    if i > 0 {
      TickUpToReports(c, st, limit, now, i - 1);
      Invariant.TickUpToKeeps(c, st, limit, now, i - 1);
      Invariant.TickUpToKeeps(c, st, limit, now, i);
      FreezeReports(c, TickUpTo(c, st, limit, now, i - 1), i - 1, limit, now);
    }
  }

  /** A slot whose block is still there is still in use. */
  lemma StillActive(c: Config, slots: seq<Slot>, slots': seq<Slot>, j: nat)
    requires Inherited(slots, slots') && Unique(slots) && j < |slots| && slots[j].state != Empty
    requires slots[j].id in Blocks(slots')
    ensures slots'[j].state != Empty
  {
    EntryOf(slots', slots[j].id);
    var i := FindSlot(slots', slots[j].id);
    hide Blocks, FindSlot;
    BlockAt(slots, i);
    BlockAt(slots, j);
  }

  /** A tick that keeps every block makes no final callback. */
  lemma TickReports(c: Config, st: State, override: int, now: int)
    requires ValidConfig(c) && Inv(c, st)
    requires Blocks(Tick(c, st, override, now).slots).Keys == Blocks(st.slots).Keys
    ensures Tick(c, st, override, now).finals == st.finals
  {
    var limit, slots' := TickLimit(c, override), Tick(c, st, override, now).slots;
    Invariant.TickKeeps(c, st, override, now);
    NeverRevived(c, st, slots', limit, now);
    hide Blocks, FreezeSlot;
    forall j | 0 <= j < |st.slots| && st.slots[j].state != Empty
      ensures FreezeSlot(c, st, j, limit, now).slots[j].state != Empty
    {
      BlockAt(st.slots, j);
      assert st.slots[j].id in Blocks(st.slots).Keys;
      StillActive(c, st.slots, slots', j);
    }
    TickUpToReports(c, st, limit, now, |st.slots|);
  }

  lemma PushIntoReports(c: Config, st: State, i: nat, sym: Symbol, now: int)
    requires ValidConfig(c) && i < |st.slots| && Acceptable(c, sym) && st.slots[i].state != Empty
    requires |st.slots[i].mask| == |st.slots[i].block.symbols| == c.n
    requires PushInto(c, st, i, sym, now).0.slots[i].state != Empty
    ensures PushInto(c, st, i, sym, now).0.finals == st.finals
    ensures |PushInto(c, st, i, sym, now).0.slots| == |st.slots|
  {
    hide FreezeRule;
  }

  /** Only slot i changes. */
  lemma PushIntoElsewhere(c: Config, st: State, i: nat, sym: Symbol, now: int)
    requires ValidConfig(c) && i < |st.slots| && Acceptable(c, sym)
    requires |st.slots[i].mask| == |st.slots[i].block.symbols| == c.n
    ensures var slots' := PushInto(c, st, i, sym, now).0.slots;
      && |slots'| == |st.slots| && slots' == st.slots[i := slots'[i]]
      && (slots'[i].state != Empty ==> slots'[i].id == st.slots[i].id)
  {
    hide FreezeRule;
  }

  lemma OccupyFree(c: Config, st: State, i: nat, id: uint32, now: int)
    requires i < |st.slots| && st.slots[i].state == Empty
    ensures Occupy(c, st, i, id, now).finals == st.finals && Occupy(c, st, i, id, now).slots[i].state != Empty
  {
  }

  /** The slot into which a block of this id was pushed is the only one that can hold it. */
  lemma HeldAt(slots: seq<Slot>, i: nat, id: uint32)
    requires i < |slots| && id in Blocks(slots)
    requires forall j :: 0 <= j < |slots| && j != i && slots[j].state != Empty ==> slots[j].id != id
    ensures slots[i].state != Empty
  {
    EntryOf(slots, id);
    var j := FindSlot(slots, id);
  }

  /** Storing into slot i, the only one with this id, makes no final callback if the block is still there. */
  lemma StoredReports(c: Config, st: State, i: nat, sym: Symbol, now: int)
    requires ValidConfig(c) && i < |st.slots| && Acceptable(c, sym) && st.slots[i].state != Empty
    requires |st.slots[i].mask| == |st.slots[i].block.symbols| == c.n && st.slots[i].id == sym.packetId && Unique(st.slots)
    requires sym.packetId in Blocks(PushInto(c, st, i, sym, now).0.slots)
    ensures PushInto(c, st, i, sym, now).0.finals == st.finals
  {
    hide Blocks, PushInto;
    PushIntoElsewhere(c, st, i, sym, now);
    OthersDiffer(st.slots, i);
    var slots' := PushInto(c, st, i, sym, now).0.slots;
    HeldAt(slots', i, sym.packetId);
    PushIntoReports(c, st, i, sym, now);
  }

  lemma OthersDiffer(slots: seq<Slot>, i: nat)
    requires Unique(slots) && i < |slots| && slots[i].state != Empty
    ensures forall j :: 0 <= j < |slots| && j != i && slots[j].state != Empty ==> slots[j].id != slots[i].id
  {
  }

  lemma KnownReports(c: Config, st: State, sym: Symbol, now: int)
    requires ValidConfig(c) && Shaped(c, st.slots) && Inv(c, st) && !IsErasure(sym) && Acceptable(c, sym) && sym.packetId in Blocks(st.slots)
    requires sym.packetId in Blocks(Push(c, st, sym, now).0.slots)
    ensures Push(c, st, sym, now).0.finals == st.finals
  {
    BlockOf(st.slots, sym.packetId);
    var i := FindSlot(st.slots, sym.packetId);
    hide Blocks, PushInto;
    if st.slots[i].state == Filling { StoredReports(c, st, i, sym, now); }
  }

  lemma NewReports(c: Config, st: State, sym: Symbol, now: int)
    requires ValidConfig(c) && Shaped(c, st.slots) && Inv(c, st) && !IsErasure(sym) && Acceptable(c, sym) && sym.packetId !in Blocks(st.slots)
    requires |Blocks(st.slots)| < c.slots && sym.packetId in Blocks(Push(c, st, sym, now).0.slots)
    ensures Push(c, st, sym, now).0.finals == st.finals
  {
    BlockOf(st.slots, sym.packetId);
    FreeSlot(st.slots);
    Invariant.AllocAlwaysSucceeds(st, now);
    var a := AllocIndex(st.slots, now);
    hide Blocks, PushInto, Occupy, AllocIndex, FindSlot;
    Invariant.OccupyVacates(c, st, a, sym.packetId, now);
    OccupyFree(c, st, a, sym.packetId, now);
    StoredReports(c, Occupy(c, st, a, sym.packetId, now), a, sym, now);
  }

  /** A push that finds its block, or room, and keeps it, makes no final callback. */
  lemma PushReports(c: Config, st: State, sym: Symbol, now: int)
    requires ValidConfig(c) && Shaped(c, st.slots) && Inv(c, st) && !IsErasure(sym) && Acceptable(c, sym)
    requires sym.packetId in Blocks(st.slots) || |Blocks(st.slots)| < c.slots
    requires sym.packetId in Blocks(Push(c, st, sym, now).0.slots)
    ensures Push(c, st, sym, now).0.finals == st.finals
  {
    hide Blocks, Push;
    if sym.packetId in Blocks(st.slots) {
      KnownReports(c, st, sym, now);
    } else {
      NewReports(c, st, sym, now);
    }
  }
}
