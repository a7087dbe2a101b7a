/** Conservation: every slot allocated, every block finalised and every symbol pushed is accounted for exactly once. */
module DeinterleaverLedger {
  import opened Types
  import opened DeinterleaverSpec
  import opened DeinterleaverRuns
  import DeinterleaverMap
  import Invariant = DeinterleaverInvariant

  ghost predicate Active(slots: seq<Slot>, id: uint32) {
    FindSlot(slots, id) < |slots|
  }

  /** Final callbacks made for the block. */
  function FinalsOf(finals: seq<Final>, id: uint32): (count: nat) {
    if finals == [] then 0
    else FinalsOf(finals[..|finals| - 1], id) + if finals[|finals| - 1].id == id then 1 else 0
  }

  /** Final callbacks made with the reason. */
  function FinalsFor(finals: seq<Final>, reason: Reason): (count: nat) {
    if finals == [] then 0
    else FinalsFor(finals[..|finals| - 1], reason) + if finals[|finals| - 1].reason == reason then 1 else 0
  }

  lemma FinalsAppend(finals: seq<Final>, f: Final)
    ensures forall id :: FinalsOf(finals + [f], id) == FinalsOf(finals, id) + if f.id == id then 1 else 0
    ensures forall r :: FinalsFor(finals + [f], r) == FinalsFor(finals, r) + if f.reason == r then 1 else 0
  {
    assert (finals + [f])[..|finals|] == finals;
  }

  lemma {:induction false} CountReplace(slots: seq<Slot>, i: nat, s: Slot, state: BlockState, k: nat)
    requires i < |slots| && k <= |slots|
    ensures CountIn(slots[i := s], state, k) ==
            CountIn(slots, state, k) + (if i < k then Here(s, state) - Here(slots[i], state) else 0)
  {
    if k > 0 { CountReplace(slots, i, s, state, k - 1); }
  }

  function Here(s: Slot, state: BlockState): int {
    if s.state == state then 1 else 0
  }

  /** Callbacks made for the block plus its current incarnation. */
  ghost function Incarnations(st: State, id: uint32): nat {
    FinalsOf(st.finals, id) + if Active(st.slots, id) then 1 else 0
  }

  /** The books balance: `allocs` slots have been allocated. */
  ghost predicate Balanced(st: State, allocs: nat) {
    var n := |st.slots|;
    && st.stats.failedHoles == FinalsFor(st.finals, TooManyHoles)
    && st.stats.failedTimeout == FinalsFor(st.finals, TimeoutBeforeDecode)
    && st.stats.evictedFilling == FinalsFor(st.finals, EvictedBeforeDecode)
    && st.stats.evictedDone == FinalsFor(st.finals, ReadyEvictedBeforeMark)
    && st.stats.ready == CountIn(st.slots, Ready, n) + st.stats.evictedDone
                         + FinalsFor(st.finals, DecodeSuccess) + FinalsFor(st.finals, DecodeFailed)
    && allocs == CountIn(st.slots, Filling, n) + st.stats.ready + st.stats.failedHoles
                 + st.stats.failedTimeout + st.stats.evictedFilling
  }

  /** Finalising slot i: its block loses its incarnation and gains a callback. */
  lemma FinalizeEffect(st: State, i: nat, reason: Reason)
    requires i < |st.slots| && Unique(st.slots) && st.slots[i].state != Empty
    ensures var st' := Finalize(st, i, reason);
            && (forall id :: Incarnations(st', id) == Incarnations(st, id))
            && Unique(st'.slots)
            && (forall r :: FinalsFor(st'.finals, r) == FinalsFor(st.finals, r) + if r == reason then 1 else 0)
            && (forall s :: CountIn(st'.slots, s, |st.slots|) ==
                            CountIn(st.slots, s, |st.slots|) + Here(st'.slots[i], s) - Here(st.slots[i], s))
  {
    var s := ResetSlot(st.slots[i]);
    FinalsAppend(st.finals, Final(st.slots[i].id, reason));
    DeinterleaverMap.BlockAt(st.slots, i);
    DeinterleaverMap.SameIdUnique(st.slots, i, s);
    forall id: uint32
      ensures Incarnations(Finalize(st, i, reason), id) == Incarnations(st, id)
    {
      DeinterleaverMap.FindAfter(st.slots, i, s, id);
    }
    forall b: BlockState
      ensures CountIn(st.slots[i := s], b, |st.slots|) ==
              CountIn(st.slots, b, |st.slots|) + Here(s, b) - Here(st.slots[i], b)
    {
      CountReplace(st.slots, i, s, b, |st.slots|);
    }
  }

  /** Replacing slot i by one with the same id and a possibly different active state. */
  lemma UpdateEffect(slots: seq<Slot>, i: nat, s: Slot)
    requires i < |slots| && Unique(slots) && slots[i].state != Empty && s.state != Empty && s.id == slots[i].id
    ensures Unique(slots[i := s])
    ensures forall id :: Active(slots[i := s], id) == Active(slots, id)
    ensures forall b :: CountIn(slots[i := s], b, |slots|) == CountIn(slots, b, |slots|) + Here(s, b) - Here(slots[i], b)
  {
    DeinterleaverMap.SameIdUnique(slots, i, s);
    DeinterleaverMap.BlockAt(slots, i);
    forall id: uint32
      ensures Active(slots[i := s], id) == Active(slots, id)
    {
      DeinterleaverMap.FindAfter(slots, i, s, id);
    }
    forall b: BlockState
      ensures CountIn(slots[i := s], b, |slots|) == CountIn(slots, b, |slots|) + Here(s, b) - Here(slots[i], b)
    {
      CountReplace(slots, i, s, b, |slots|);
    }
  }

  lemma FreezeBalances(c: Config, st: State, i: nat, timeout: int, now: int, allocs: nat)
    requires ValidConfig(c) && i < |st.slots| && Unique(st.slots) && Balanced(st, allocs)
    ensures var st' := FreezeSlot(c, st, i, timeout, now);
            Balanced(st', allocs) && Unique(st'.slots) && forall id :: Incarnations(st', id) == Incarnations(st, id)
  {
    var s := st.slots[i];
    if s.state == Filling {
      match FreezeRule(c, s.valid, s.first, s.last, timeout, now)
      case Stay =>
      case Promote => UpdateEffect(st.slots, i, s.(state := Ready));
      case Recycle(reason) => FinalizeEffect(st.(stats := CountFailure(st.stats, reason)), i, reason);
    }
  }

  lemma {:induction false} TickBalances(c: Config, st: State, limit: int, now: int, i: nat, allocs: nat)
    requires ValidConfig(c) && i <= |st.slots| && Unique(st.slots) && Balanced(st, allocs)
    ensures var st' := TickUpTo(c, st, limit, now, i);
            Balanced(st', allocs) && Unique(st'.slots) && forall id :: Incarnations(st', id) == Incarnations(st, id)
  {
    hide FreezeSlot, Balanced, Unique, Incarnations;
    if i > 0 {
      TickBalances(c, st, limit, now, i - 1, allocs);
      FreezeBalances(c, TickUpTo(c, st, limit, now, i - 1), i - 1, limit, now, allocs);
    }
  }

  /** The state in which alloc_slot has emptied the slot it picked. */
  ghost function Cleared(st: State, i: nat): (st': State)
    requires i < |st.slots|
    ensures st'.slots == st.slots[i := ResetSlot(st.slots[i])]
  {
    match st.slots[i].state
    case Empty => st.(slots := st.slots[i := ResetSlot(st.slots[i])])
    case Ready =>
      Finalize(st.(stats := st.stats.(evictedDone := st.stats.evictedDone + 1)), i, ReadyEvictedBeforeMark)
    case Filling =>
      Finalize(st.(stats := st.stats.(evictedFilling := st.stats.evictedFilling + 1)), i, EvictedBeforeDecode)
  }

  /** Evicting a block closes its incarnation and balances the books. */
  lemma ClearBalances(st: State, i: nat, id: uint32, allocs: nat)
    requires i < |st.slots| && Unique(st.slots) && Balanced(st, allocs) && !Active(st.slots, id)
    ensures var st' := Cleared(st, i);
            && Balanced(st', allocs) && Unique(st'.slots) && !Active(st'.slots, id)
            && forall b :: Incarnations(st', b) == Incarnations(st, b)
  {
    hide CountIn, FinalsFor, FindSlotFrom;
    var s := st.slots[i];
    DeinterleaverMap.FindAfter(st.slots, i, ResetSlot(s), id);
    match s.state
    case Empty =>
      DeinterleaverMap.SameIdUnique(st.slots, i, ResetSlot(s));
      Opens(st.slots, i, ResetSlot(s));
    case Ready =>
      FinalizeEffect(st.(stats := st.stats.(evictedDone := st.stats.evictedDone + 1)), i, ReadyEvictedBeforeMark);
    case Filling =>
      FinalizeEffect(st.(stats := st.stats.(evictedFilling := st.stats.evictedFilling + 1)), i, EvictedBeforeDecode);
  }

  /** Claiming slot i opens one incarnation of the new block and closes that of the block it evicts. */
  lemma OccupyBalances(c: Config, st: State, i: nat, id: uint32, now: int, allocs: nat)
    requires ValidConfig(c) && Inv(c, st) && i < |st.slots| && FindSlot(st.slots, id) == |st.slots|
    requires Balanced(st, allocs)
    ensures var st' := Occupy(c, st, i, id, now);
            && Balanced(st', allocs + 1) && Unique(st'.slots)
            && forall b :: Incarnations(st', b) == Incarnations(st, b) + if b == id then 1 else 0
  {
    ClearBalances(st, i, id, allocs);
    Invariant.OccupyVacates(c, st, i, id, now);
    OpensOne(Cleared(st, i), Occupy(c, st, i, id, now), i, id, allocs);
  }

  /** Filling an empty slot with a new block adds one allocation and one incarnation. */
  lemma OpensOne(st: State, st': State, i: nat, id: uint32, allocs: nat)
    requires i < |st.slots| && Unique(st.slots) && Balanced(st, allocs) && !Active(st.slots, id)
    requires st.slots[i].state == Empty && Unique(st'.slots) && st'.stats == st.stats && st'.finals == st.finals
    requires |st'.slots| == |st.slots| && st'.slots[i].state == Filling && st'.slots[i].id == id
    requires st'.slots == st.slots[i := st'.slots[i]]
    ensures Balanced(st', allocs + 1)
    ensures forall b :: Incarnations(st', b) == Incarnations(st, b) + if b == id then 1 else 0
  {
    Opens(st.slots, i, st'.slots[i]);
  }

  /** Filling an empty slot activates exactly the new id. */
  lemma Opens(slots: seq<Slot>, i: nat, s: Slot)
    requires i < |slots| && Unique(slots) && slots[i].state == Empty && Unique(slots[i := s])
    ensures forall b :: Active(slots[i := s], b) == (Active(slots, b) || (s.state != Empty && s.id == b))
    ensures forall b :: CountIn(slots[i := s], b, |slots|) == CountIn(slots, b, |slots|) + Here(s, b) - Here(slots[i], b)
  {
    forall b: uint32
      ensures Active(slots[i := s], b) == (Active(slots, b) || (s.state != Empty && s.id == b))
    {
      DeinterleaverMap.FindAfter(slots, i, s, b);
    }
    forall b: BlockState
      ensures CountIn(slots[i := s], b, |slots|) == CountIn(slots, b, |slots|) + Here(s, b) - Here(slots[i], b)
    {
      CountReplace(slots, i, s, b, |slots|);
    }
  }

  lemma PushIntoBalances(c: Config, st: State, i: nat, sym: Symbol, now: int, allocs: nat)
    requires ValidConfig(c) && i < |st.slots| && Acceptable(c, sym) && Unique(st.slots) && Balanced(st, allocs)
    requires |st.slots[i].mask| == |st.slots[i].block.symbols| == c.n && st.slots[i].state == Filling
    ensures var st' := PushInto(c, st, i, sym, now).0;
            Balanced(st', allocs) && forall id :: Incarnations(st', id) == Incarnations(st, id)
  {
    if !st.slots[i].mask[sym.fecId] {
      var s := StoreSymbol(st.slots[i], sym, now);
      UpdateEffect(st.slots, i, s);
      FreezeBalances(c, st.(slots := st.slots[i := s]), i, AgeLimit(c), now, allocs);
    }
  }

  /** The push claims a slot for a block that has none. */
  ghost predicate Allocates(c: Config, st: State, op: Op, id: uint32) {
    op.PushOp? && !IsErasure(op.sym) && Acceptable(c, op.sym) && op.sym.packetId == id && !Active(st.slots, id)
  }

  lemma PushBalances(c: Config, st: State, sym: Symbol, now: int, allocs: nat)
    requires ValidConfig(c) && Inv(c, st) && Balanced(st, allocs)
    ensures var st' := Push(c, st, sym, now).0;
            var opens := Allocates(c, st, PushOp(sym, now), sym.packetId);
            && Balanced(st', allocs + if opens then 1 else 0)
            && forall id :: Incarnations(st', id) == Incarnations(st, id) + if opens && id == sym.packetId then 1 else 0
  {
    hide CountIn, FinalsFor, FreezeSlot, Occupy;
    if !IsErasure(sym) && Acceptable(c, sym) {
      var i := FindSlot(st.slots, sym.packetId);
      if i < |st.slots| {
        if st.slots[i].state == Filling { PushIntoBalances(c, st, i, sym, now, allocs); }
      } else {
        Invariant.AllocAlwaysSucceeds(st, now);
        var a := AllocIndex(st.slots, now);
        OccupyBalances(c, st, a, sym.packetId, now, allocs);
        Invariant.OccupyVacates(c, st, a, sym.packetId, now);
        PushIntoBalances(c, Occupy(c, st, a, sym.packetId, now), a, sym, now, allocs + 1);
      }
    }
  }

  /** One Ready block fewer, one decode outcome more. */
  lemma ReadyFinalized(st: State, st': State, reason: Reason, allocs: nat)
    requires Balanced(st, allocs) && st'.stats == st.stats && |st'.slots| == |st.slots|
    requires reason == DecodeSuccess || reason == DecodeFailed
    requires forall r :: FinalsFor(st'.finals, r) == FinalsFor(st.finals, r) + if r == reason then 1 else 0
    requires CountIn(st'.slots, Ready, |st.slots|) == CountIn(st.slots, Ready, |st.slots|) - 1
    requires CountIn(st'.slots, Filling, |st.slots|) == CountIn(st.slots, Filling, |st.slots|)
    ensures Balanced(st', allocs)
  {
  }

  lemma MarkBalances(st: State, id: uint32, success: bool, allocs: nat)
    requires Unique(st.slots) && Balanced(st, allocs)
    ensures var st' := Mark(st, id, success).0;
            Balanced(st', allocs) && forall b :: Incarnations(st', b) == Incarnations(st, b)
  {
    var i := FindSlot(st.slots, id);
    if i < |st.slots| && st.slots[i].state == Ready {
      var reason := if success then DecodeSuccess else DecodeFailed;
      FinalizeEffect(st, i, reason);
      assert Mark(st, id, success).0 == Finalize(st, i, reason);
      ReadyFinalized(st, Finalize(st, i, reason), reason, allocs);
    }
  }

  // ---------------------------------------------------------------------------
  // Over runs
  // ---------------------------------------------------------------------------

  ghost predicate NewBlock(c: Config, st: State, op: Op) {
    op.PushOp? && Allocates(c, st, op, op.sym.packetId)
  }

  /** Slots allocated by the run. */
  ghost function Allocations(c: Config, ops: seq<Op>): nat
    requires ValidConfig(c)
  {
    if ops == [] then 0
    else
      var before := ops[..|ops| - 1];
      Allocations(c, before) + if NewBlock(c, Run(c, before), ops[|ops| - 1]) then 1 else 0
  }

  /** Slots allocated by the run to one block. */
  ghost function AllocationsOf(c: Config, ops: seq<Op>, id: uint32): nat
    requires ValidConfig(c)
  {
    if ops == [] then 0
    else
      var before := ops[..|ops| - 1];
      AllocationsOf(c, before, id) + if Allocates(c, Run(c, before), ops[|ops| - 1], id) then 1 else 0
  }

  lemma StepBalances(c: Config, st: State, op: Op, allocs: nat)
    requires ValidConfig(c) && Inv(c, st) && Balanced(st, allocs)
    ensures var st' := Step(c, st, op);
            && Balanced(st', allocs + if NewBlock(c, st, op) then 1 else 0)
            && forall id :: Incarnations(st', id) == Incarnations(st, id) + if Allocates(c, st, op, id) then 1 else 0
  {
    match op
    case PushOp(sym, now) => PushBalances(c, st, sym, now, allocs);
    case TickOp(override, now) => TickBalances(c, st, TickLimit(c, override), now, |st.slots|, allocs);
    case MarkOp(id, success) => MarkBalances(st, id, success, allocs);
    case CrcDropOp =>
  }

  lemma {:induction false} NoneIn(slots: seq<Slot>, state: BlockState, k: nat)
    requires k <= |slots| && forall i :: 0 <= i < k ==> slots[i].state != state
    ensures CountIn(slots, state, k) == 0
  {
    if k > 0 { NoneIn(slots, state, k - 1); }
  }

  /**
   Over every run: slots allocated = filling now + promoted + discarded + evicted while filling;
   promoted = ready now + decoded + failed + evicted while ready; and each incarnation of a block is
   reported exactly once, when it ends.
   */
  lemma {:induction false} Conservation(c: Config, ops: seq<Op>)
    requires ValidConfig(c)
    ensures Balanced(Run(c, ops), Allocations(c, ops))
    ensures forall id :: AllocationsOf(c, ops, id) ==
                         FinalsOf(Run(c, ops).finals, id) + (if Active(Run(c, ops).slots, id) then 1 else 0)
  {
    if ops == [] {
      NoneIn(InitState(c).slots, Filling, c.slots);
      NoneIn(InitState(c).slots, Ready, c.slots);
    } else {
      var before := ops[..|ops| - 1];
      Conservation(c, before);
      StepBalances(c, Run(c, before), ops[|ops| - 1], Allocations(c, before));
    }
  }

  /** No block is ever discarded for a timeout alone: that counter stays zero. */
  lemma {:induction false} TimeoutCounterUnused(c: Config, ops: seq<Op>)
    requires ValidConfig(c)
    ensures Run(c, ops).stats.failedTimeout == 0
  {
    if ops != [] {
      var before, op := ops[..|ops| - 1], ops[|ops| - 1];
      var st := Run(c, before);
      TimeoutCounterUnused(c, before);
      match op
      case PushOp(sym, now) => PushTimeoutUnused(c, st, sym, now);
      case TickOp(override, now) => TickTimeoutUnused(c, st, TickLimit(c, override), now, c.slots);
      case MarkOp(_, _) =>
      case CrcDropOp =>
    }
  }

  lemma PushTimeoutUnused(c: Config, st: State, sym: Symbol, now: int)
    requires ValidConfig(c) && Inv(c, st)
    ensures Push(c, st, sym, now).0.stats.failedTimeout == st.stats.failedTimeout
  {
    hide FreezeSlot, Occupy, StoreSymbol;
    if !IsErasure(sym) && Acceptable(c, sym) {
      var i := FindSlot(st.slots, sym.packetId);
      if i < |st.slots| {
        StoreTimeoutUnused(c, st, i, sym, now);
      } else {
        var a := AllocIndex(st.slots, now);
        Invariant.AllocAlwaysSucceeds(st, now);
        Invariant.OccupyVacates(c, st, a, sym.packetId, now);
        OccupyTimeoutUnused(c, st, a, sym.packetId, now);
        StoreTimeoutUnused(c, Occupy(c, st, a, sym.packetId, now), a, sym, now);
      }
    }
  }

  lemma OccupyTimeoutUnused(c: Config, st: State, i: nat, id: uint32, now: int)
    requires i < |st.slots|
    ensures Occupy(c, st, i, id, now).stats.failedTimeout == st.stats.failedTimeout
  {
  }

  lemma StoreTimeoutUnused(c: Config, st: State, i: nat, sym: Symbol, now: int)
    requires ValidConfig(c) && i < |st.slots| && Acceptable(c, sym)
    requires |st.slots[i].mask| == |st.slots[i].block.symbols| == c.n
    ensures PushInto(c, st, i, sym, now).0.stats.failedTimeout == st.stats.failedTimeout
  {
    hide FreezeSlot, StoreSymbol;
    if !st.slots[i].mask[sym.fecId] {
      FreezeTimeoutUnused(c, st.(slots := st.slots[i := StoreSymbol(st.slots[i], sym, now)]), i, AgeLimit(c), now);
    }
  }

  /** A discard always means too many holes. */
  lemma FreezeTimeoutUnused(c: Config, st: State, i: nat, timeout: int, now: int)
    requires ValidConfig(c) && i < |st.slots|
    ensures FreezeSlot(c, st, i, timeout, now).stats.failedTimeout == st.stats.failedTimeout
  {
  }

  lemma {:induction false} TickTimeoutUnused(c: Config, st: State, limit: int, now: int, i: nat)
    requires ValidConfig(c) && i <= |st.slots|
    ensures TickUpTo(c, st, limit, now, i).stats.failedTimeout == st.stats.failedTimeout
  {
    hide FreezeSlot;
    if i > 0 {
      TickTimeoutUnused(c, st, limit, now, i - 1);
      FreezeTimeoutUnused(c, TickUpTo(c, st, limit, now, i - 1), i - 1, limit, now);
    }
  }

  // ---------------------------------------------------------------------------
  // Where pushed symbols go
  // ---------------------------------------------------------------------------

  /** The push stores its symbol: its block is absent, or filling without that symbol. */
  ghost predicate Stores(c: Config, st: State, op: Op) {
    op.PushOp? && !IsErasure(op.sym) && Acceptable(c, op.sym) &&
    var m := DeinterleaverMap.Blocks(st.slots);
    op.sym.packetId in m ==> !m[op.sym.packetId].ready && op.sym.fecId !in m[op.sym.packetId].symbols
  }

  ghost predicate Rejects(c: Config, op: Op) {
    op.PushOp? && !IsErasure(op.sym) && !Acceptable(c, op.sym)
  }

  ghost function Tally(c: Config, ops: seq<Op>): (tally: (nat, nat, nat))
    requires ValidConfig(c)
  {
    if ops == [] then (0, 0, 0)
    else
      var before, op := ops[..|ops| - 1], ops[|ops| - 1];
      var (pushed, stored, rejected) := Tally(c, before);
      (pushed + (if op.PushOp? then 1 else 0),
       stored + (if Stores(c, Run(c, before), op) then 1 else 0),
       rejected + (if Rejects(c, op) then 1 else 0))
  }

  ghost function Drops(st: State): nat {
    st.stats.duplicate + st.stats.frozen + st.stats.erasure
  }

  /** Stores, read off the slots. */
  lemma StoresInto(c: Config, st: State, op: Op)
    requires ValidConfig(c) && Inv(c, st) && op.PushOp? && !IsErasure(op.sym) && Acceptable(c, op.sym)
    ensures var i := FindSlot(st.slots, op.sym.packetId);
            Stores(c, st, op) <==>
              (i < |st.slots| ==> st.slots[i].state == Filling && !st.slots[i].mask[op.sym.fecId])
  {
    DeinterleaverMap.EntryOf(st.slots, op.sym.packetId);
    var i := FindSlot(st.slots, op.sym.packetId);
    if i < |st.slots| { DeinterleaverMap.BlockAt(st.slots, i); }
  }

  lemma FreezeDrops(c: Config, st: State, i: nat, timeout: int, now: int)
    requires ValidConfig(c) && i < |st.slots|
    ensures Drops(FreezeSlot(c, st, i, timeout, now)) == Drops(st)
  {
  }

  lemma PushIntoDrops(c: Config, st: State, i: nat, sym: Symbol, now: int)
    requires ValidConfig(c) && i < |st.slots| && Acceptable(c, sym)
    requires |st.slots[i].mask| == |st.slots[i].block.symbols| == c.n
    ensures Drops(PushInto(c, st, i, sym, now).0) == Drops(st) + if st.slots[i].mask[sym.fecId] then 1 else 0
    ensures PushInto(c, st, i, sym, now).1 >= 0
  {
    if !st.slots[i].mask[sym.fecId] {
      FreezeDrops(c, st.(slots := st.slots[i := StoreSymbol(st.slots[i], sym, now)]), i, AgeLimit(c), now);
    }
  }

  lemma PushDrops(c: Config, st: State, sym: Symbol, now: int)
    requires ValidConfig(c) && Inv(c, st)
    ensures var op := PushOp(sym, now);
            Drops(Push(c, st, sym, now).0) == Drops(st) + if Stores(c, st, op) || Rejects(c, op) then 0 else 1
    ensures Rejects(c, PushOp(sym, now)) <==> Push(c, st, sym, now).1 == -1
    ensures Rejects(c, PushOp(sym, now)) ==> Push(c, st, sym, now).0 == st
  {
    if !IsErasure(sym) && Acceptable(c, sym) {
      StoresInto(c, st, PushOp(sym, now));
      var i := FindSlot(st.slots, sym.packetId);
      if i < |st.slots| {
        PushIntoDrops(c, st, i, sym, now);
      } else {
        Invariant.AllocAlwaysSucceeds(st, now);
        var a := AllocIndex(st.slots, now);
        Invariant.OccupyVacates(c, st, a, sym.packetId, now);
        PushIntoDrops(c, Occupy(c, st, a, sym.packetId, now), a, sym, now);
      }
    }
  }

  lemma {:induction false} TickDrops(c: Config, st: State, limit: int, now: int, i: nat)
    requires ValidConfig(c) && i <= |st.slots|
    ensures Drops(TickUpTo(c, st, limit, now, i)) == Drops(st)
  {
    if i > 0 { TickDrops(c, st, limit, now, i - 1); }
  }

  /** Every pushed symbol is stored, counted in exactly one drop counter, or rejected. */
  lemma {:induction false} PushesAccounted(c: Config, ops: seq<Op>)
    requires ValidConfig(c)
    ensures Tally(c, ops).0 == Tally(c, ops).1 + Tally(c, ops).2 + Drops(Run(c, ops))
  {
    if ops != [] {
      var before, op := ops[..|ops| - 1], ops[|ops| - 1];
      PushesAccounted(c, before);
      match op
      case PushOp(sym, now) => PushDrops(c, Run(c, before), sym, now);
      case TickOp(override, now) => TickDrops(c, Run(c, before), TickLimit(c, override), now, c.slots);
      case MarkOp(_, _) =>
      case CrcDropOp =>
    }
  }
}
