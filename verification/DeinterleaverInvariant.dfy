/** Every operation of the deinterleaver keeps unique ids, marks that locate the symbols, and the bounds of each state. */
module DeinterleaverInvariant {
  import opened Types
  import opened DeinterleaverSpec

  lemma {:induction false} CountNone(mask: seq<bool>, i: nat)
    requires i <= |mask| && forall j :: 0 <= j < i ==> !mask[j]
    ensures CountMarks(mask, i) == 0
  {
    if i > 0 { CountNone(mask, i - 1); }
  }

  lemma {:induction false} CountSet(mask: seq<bool>, f: nat, i: nat)
    requires f < |mask| && !mask[f] && i <= |mask|
    ensures CountMarks(mask[f := true], i) == CountMarks(mask, i) + if f < i then 1 else 0
  {
    if i > 0 { CountSet(mask, f, i - 1); }
  }

  lemma NewSlotOk(c: Config)
    ensures SlotOk(c, NewSlot(c.n))
  {
    CountNone(NoMarks(c.n), c.n);
  }

  lemma ResetOk(c: Config, s: Slot)
    requires |s.mask| == |s.block.symbols| == c.n
    ensures SlotOk(c, ResetSlot(s)) && ResetSlot(s).state == Empty
  {
    CountNone(NoMarks(c.n), c.n);
  }

  /** An initialised slot meets everything SlotOk asks except that it holds no symbol yet. */
  ghost predicate Vacant(c: Config, s: Slot) {
    && |s.mask| == |s.block.symbols| == c.n && s.mask == NoMarks(c.n)
    && s.state == Filling && s.valid == 0 && Stored(c, s)
  }

  lemma InitVacant(c: Config, s: Slot, id: uint32, now: int)
    requires SlotOk(c, s) && s.state == Empty
    ensures Vacant(c, InitSlot(s, id, c, now))
  {
  }

  lemma StoreOk(c: Config, s: Slot, sym: Symbol, now: int)
    requires ValidConfig(c)
    requires (SlotOk(c, s) && s.state == Filling) || Vacant(c, s)
    requires s.id == sym.packetId && Acceptable(c, sym) && !IsErasure(sym) && !s.mask[sym.fecId]
    ensures var s' := StoreSymbol(s, sym, now);
            && s'.state == Filling && s'.id == s.id && s'.valid == s.valid + 1 == CountMarks(s'.mask, c.n) <= c.n
            && |s'.mask| == |s'.block.symbols| == c.n && Stored(c, s')
  {
    CountSet(s.mask, sym.fecId, c.n);
    if s.valid == 0 { CountNone(s.mask, c.n); }
  }

  /** Replacing slot i keeps the invariant when the new slot is sound and its id is not in use elsewhere. */
  lemma ReplaceKeeps(c: Config, st: State, i: nat, s: Slot)
    requires |st.slots| == c.slots && i < |st.slots|
    requires forall j :: 0 <= j < |st.slots| && j != i ==> SlotOk(c, st.slots[j])
    requires Unique(st.slots) && SlotOk(c, s)
    requires s.state == Empty || forall j :: 0 <= j < |st.slots| && j != i ==> st.slots[j].state == Empty || st.slots[j].id != s.id
    ensures Inv(c, st.(slots := st.slots[i := s]))
  {
  }

  lemma FinalizeKeeps(c: Config, st: State, i: nat, reason: Reason)
    requires i < |st.slots| == c.slots
    requires forall j :: 0 <= j < |st.slots| && j != i ==> SlotOk(c, st.slots[j])
    requires |st.slots[i].mask| == |st.slots[i].block.symbols| == c.n
    requires Unique(st.slots)
    ensures Inv(c, Finalize(st, i, reason))
  {
    ResetOk(c, st.slots[i]);
    ReplaceKeeps(c, st, i, ResetSlot(st.slots[i]));
  }

  /** Before a freeze, slot i may hold all n symbols; afterwards the invariant holds. */
  lemma FreezeKeeps(c: Config, st: State, i: nat, timeout: int, now: int)
    requires ValidConfig(c) && i < |st.slots| == c.slots && Unique(st.slots)
    requires forall j :: 0 <= j < |st.slots| && j != i ==> SlotOk(c, st.slots[j])
    requires var s := st.slots[i];
             SlotOk(c, s) || (s.state == Filling && |s.mask| == |s.block.symbols| == c.n && Stored(c, s)
                              && 1 <= s.valid <= c.n && s.valid == CountMarks(s.mask, c.n))
    ensures Inv(c, FreezeSlot(c, st, i, timeout, now))
  {
    var s := st.slots[i];
    if s.state == Filling {
      match FreezeRule(c, s.valid, s.first, s.last, timeout, now)
      case Stay =>
        ReplaceKeeps(c, st, i, s);
        assert st.slots[i := s] == st.slots;
      case Promote =>
        ReplaceKeeps(c, st, i, s.(state := Ready));
      case Recycle(reason) =>
        FinalizeKeeps(c, st.(stats := CountFailure(st.stats, reason)), i, reason);
    }
  }

  /** alloc_slot always finds a slot; it evicts only when none is free, the oldest Ready one before any Filling one. */
  lemma AllocAlwaysSucceeds(st: State, now: int)
    requires 1 <= |st.slots|
    ensures var a := AllocIndex(st.slots, now);
            && a < |st.slots|
            && ((exists j :: 0 <= j < |st.slots| && st.slots[j].state == Empty) ==> st.slots[a].state == Empty)
            && (st.slots[a].state == Ready ==>
                  forall j :: 0 <= j < |st.slots| ==>
                    (st.slots[j].state != Empty &&
                     (st.slots[j].state == Ready ==>
                        Elapsed(st.slots[j].first, now) <= Elapsed(st.slots[a].first, now))))
            && (st.slots[a].state == Filling ==>
                  forall j :: 0 <= j < |st.slots| ==>
                    (st.slots[j].state == Filling &&
                     Elapsed(st.slots[j].first, now) <= Elapsed(st.slots[a].first, now)))
  {
    OldestIsOldest(st.slots, Ready, now, |st.slots|);
    OldestIsOldest(st.slots, Filling, now, |st.slots|);
    var s := st.slots[0];
    assert s.state.Empty? || s.state.Ready? || s.state.Filling?;
  }

  /** After alloc_slot, slot i is vacant for the id and the other slots are untouched. */
  lemma OccupyVacates(c: Config, st: State, i: nat, id: uint32, now: int)
    requires ValidConfig(c) && Inv(c, st) && i < |st.slots| && FindSlot(st.slots, id) == |st.slots|
    ensures var st' := Occupy(c, st, i, id, now);
            && st'.slots == st.slots[i := st'.slots[i]] && st'.slots[i].id == id
            && st'.slots[i].first == st'.slots[i].last == now
            && Vacant(c, st'.slots[i]) && Unique(st'.slots)
  {
    ResetOk(c, st.slots[i]);
    InitVacant(c, ResetSlot(st.slots[i]), id, now);
  }

  lemma PushIntoKeeps(c: Config, st: State, i: nat, sym: Symbol, now: int)
    requires ValidConfig(c) && i < |st.slots| == c.slots && Unique(st.slots)
    requires forall j :: 0 <= j < |st.slots| && j != i ==> SlotOk(c, st.slots[j])
    requires (SlotOk(c, st.slots[i]) && st.slots[i].state == Filling) || Vacant(c, st.slots[i])
    requires st.slots[i].id == sym.packetId && Acceptable(c, sym) && !IsErasure(sym)
    ensures Inv(c, PushInto(c, st, i, sym, now).0)
  {
    if !st.slots[i].mask[sym.fecId] {
      StoreOk(c, st.slots[i], sym, now);
      FreezeKeeps(c, st.(slots := st.slots[i := StoreSymbol(st.slots[i], sym, now)]), i, AgeLimit(c), now);
    }
  }

  lemma PushKeeps(c: Config, st: State, sym: Symbol, now: int)
    requires ValidConfig(c) && Inv(c, st)
    ensures Inv(c, Push(c, st, sym, now).0)
  {
    if !IsErasure(sym) && Acceptable(c, sym) {
      var i := FindSlot(st.slots, sym.packetId);
      if i < |st.slots| {
        if st.slots[i].state == Filling { PushIntoKeeps(c, st, i, sym, now); }
      } else {
        AllocAlwaysSucceeds(st, now);
        var a := AllocIndex(st.slots, now);
        OccupyVacates(c, st, a, sym.packetId, now);
        PushIntoKeeps(c, Occupy(c, st, a, sym.packetId, now), a, sym, now);
      }
    }
  }

  lemma {:induction false} TickUpToKeeps(c: Config, st: State, limit: int, now: int, i: nat)
    requires ValidConfig(c) && Inv(c, st) && i <= |st.slots|
    ensures Inv(c, TickUpTo(c, st, limit, now, i))
    ensures forall j :: i <= j < |st.slots| ==> TickUpTo(c, st, limit, now, i).slots[j] == st.slots[j]
    ensures forall j :: 0 <= j < i ==>
              TickUpTo(c, st, limit, now, i).slots[j] == FreezeSlot(c, st, j, limit, now).slots[j]
  {
    if i > 0 {
      TickUpToKeeps(c, st, limit, now, i - 1);
      FreezeKeeps(c, TickUpTo(c, st, limit, now, i - 1), i - 1, limit, now);
    }
  }

  /** tick keeps the invariant and treats every slot on its own. */
  lemma TickKeeps(c: Config, st: State, override: int, now: int)
    requires ValidConfig(c) && Inv(c, st)
    ensures Inv(c, Tick(c, st, override, now))
    ensures forall j :: 0 <= j < |st.slots| ==>
              Tick(c, st, override, now).slots[j] == FreezeSlot(c, st, j, TickLimit(c, override), now).slots[j]
  {
    TickUpToKeeps(c, st, TickLimit(c, override), now, |st.slots|);
  }

  lemma MarkKeeps(c: Config, st: State, id: uint32, success: bool)
    requires Inv(c, st)
    ensures Inv(c, Mark(st, id, success).0)
  {
    var i := FindSlot(st.slots, id);
    if i < |st.slots| && st.slots[i].state == Ready {
      FinalizeKeeps(c, st, i, if success then DecodeSuccess else DecodeFailed);
    }
  }

  lemma InitKeeps(c: Config)
    requires ValidConfig(c)
    ensures Inv(c, InitState(c))
  {
    NewSlotOk(c);
  }

  // ---------------------------------------------------------------------------
  // Timers
  // ---------------------------------------------------------------------------

  /** The freeze logic discards a block only when fewer than k symbols arrived, and only on age. */
  lemma DiscardsOnlyUnrecoverable(c: Config, valid: int, first: int, last: int, timeout: int, now: int)
    requires ValidConfig(c) && 0 <= valid <= c.n
    ensures FreezeRule(c, valid, first, last, timeout, now).Recycle? <==>
            valid < c.k && Elapsed(first, now) >= timeout
    ensures FreezeRule(c, valid, first, last, timeout, now) != Recycle(TimeoutBeforeDecode)
    ensures FreezeRule(c, valid, first, last, timeout, now) == Promote <==>
            valid >= c.k && (valid == c.n || c.stab == 0 || Elapsed(last, now) >= c.stab || Elapsed(first, now) >= timeout)
  {
  }

  /** After a tick every Filling slot is younger than the limit and, once decodable, still within its quiet period. */
  lemma TickBoundsFilling(c: Config, st: State, override: int, now: int)
    requires ValidConfig(c) && Inv(c, st)
    ensures var st' := Tick(c, st, override, now);
            forall j :: 0 <= j < |st'.slots| && st'.slots[j].state == Filling ==>
              && st'.slots[j] == st.slots[j]
              && Elapsed(st'.slots[j].first, now) < TickLimit(c, override)
              && (st'.slots[j].valid >= c.k ==> c.stab != 0 && Elapsed(st'.slots[j].last, now) < c.stab)
  {
    TickKeeps(c, st, override, now);
  }

  /** tick(0.0) settles every slot. */
  lemma TickZeroSettles(c: Config, st: State, now: int)
    requires ValidConfig(c) && Inv(c, st)
    ensures forall j :: 0 <= j < c.slots ==> Tick(c, st, 0, now).slots[j].state != Filling
  {
    TickBoundsFilling(c, st, 0, now);
  }
}
