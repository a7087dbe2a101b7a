/**
 The deinterleaver object (src/deinterleaver.c): a slot array updated in place, proved against its
 specification operation by operation.
 */
module Deinterleaving {
  import opened Types
  import opened DeinterleaverSpec
  import Invariant = DeinterleaverInvariant

  class Deinterleaver {
    const c: Config
    const slots: array<Slot>
    var stats: Stats
    /** The calls made to the block-final callback so far. */
    var finals: seq<Final>

    ghost function View(): State
      reads this, slots
    {
      State(slots[..], stats, finals)
    }

    ghost predicate Valid()
      reads this, slots
    {
      ValidConfig(c) && Inv(c, View())
    }

    constructor (c: Config)
      requires ValidConfig(c)
      ensures Valid() && fresh(slots) && this.c == c && View() == InitState(c)
    {
      this.c := c;
      slots := new Slot[c.slots](_ => NewSlot(c.n));
      stats := Stats(0, 0, 0, 0, 0, 0, 0, 0, 0);
      finals := [];
      new;
      assert slots[..] == InitState(c).slots;
      Invariant.InitKeeps(c);
    }

    /** deinterleaver_create: no object for invalid parameters. */
    static method Create(maxActiveBlocks: int, symbolsPerBlock: int, k: int, symbolSize: int,
                         stabilization: int, blockMaxAge: int) returns (self: Deinterleaver?)
      ensures self == null <==>
                maxActiveBlocks < 1 || symbolsPerBlock < 1 || symbolsPerBlock > MAX_SYMBOLS_PER_BLOCK
                || k < 1 || k >= symbolsPerBlock || symbolSize <= 0
      ensures self != null ==>
                && fresh(self) && fresh(self.slots) && self.Valid() && self.View() == InitState(self.c)
                && self.c == Config(maxActiveBlocks, symbolsPerBlock, k, symbolSize, stabilization, blockMaxAge)
    {
      if maxActiveBlocks < 1 || symbolsPerBlock < 1 || symbolsPerBlock > MAX_SYMBOLS_PER_BLOCK
         || k < 1 || k >= symbolsPerBlock || symbolSize <= 0
      {
        return null;
      }
      self := new Deinterleaver(Config(maxActiveBlocks, symbolsPerBlock, k, symbolSize, stabilization, blockMaxAge));
    }

    /** find_slot_any. */
    method FindSlotAny(id: uint32) returns (i: nat)
      ensures i == FindSlot(slots[..], id)
    {
      i := 0;
      while i < slots.Length
        invariant i <= slots.Length
        invariant FindSlot(slots[..], id) == FindSlotFrom(slots[..], id, i)
      {
        if slots[i].state != Empty && slots[i].id == id {
          return;
        }
        i := i + 1;
      }
    }

    /** The scan of alloc_slot: first free slot, oldest Ready slot and oldest Filling slot in one pass. */
    method PickSlot(now: int) returns (i: nat)
      ensures i == AllocIndex(slots[..], now)
    {
      hide Elapsed;
      var n := slots.Length;
      var free, ready, filling := n, n, n;
      var readyAge, fillAge := -1, -1;
      for j := 0 to n
        invariant FirstIn(slots[..], Empty, 0) == if free < n then free else FirstIn(slots[..], Empty, j)
        invariant free == n || free < j
        invariant ready == OldestIn(slots[..], Ready, now, j)
        invariant readyAge == if ready == n then -1 else Elapsed(slots[ready].first, now)
        invariant filling == OldestIn(slots[..], Filling, now, j)
        invariant fillAge == if filling == n then -1 else Elapsed(slots[filling].first, now)
      {
        var age := Elapsed(slots[j].first, now);
        match slots[j].state
        case Empty =>
          if free == n { free := j; }
        case Ready =>
          if age > readyAge { readyAge, ready := age, j; }
        case Filling =>
          if age > fillAge { fillAge, filling := age, j; }
      }
      return if free < n then free else if ready < n then ready else filling;
    }

    /** finalize_and_reset_slot: report the outcome, then empty the slot. */
    method FinalizeAndResetSlot(i: nat, reason: Reason)
      requires i < slots.Length
      modifies slots, this`finals
      ensures View() == Finalize(old(View()), i, reason)
    {
      finals := finals + [Final(slots[i].id, reason)];
      slots[i] := ResetSlot(slots[i]);
    }

    /** alloc_slot, with eviction when no slot is free. */
    method AllocSlot(id: uint32, now: int) returns (i: nat)
      modifies this, slots
      ensures i == AllocIndex(old(slots[..]), now)
      ensures View() == if i == slots.Length then old(View()) else Occupy(c, old(View()), i, id, now)
    {
      i := PickSlot(now);
      if i == slots.Length {
        return;
      }
      match slots[i].state {
        case Empty =>
          slots[i] := ResetSlot(slots[i]);
        case Ready =>
          stats := stats.(evictedDone := stats.evictedDone + 1);
          FinalizeAndResetSlot(i, ReadyEvictedBeforeMark);
        case Filling =>
          stats := stats.(evictedFilling := stats.evictedFilling + 1);
          FinalizeAndResetSlot(i, EvictedBeforeDecode);
      }
      slots[i] := InitSlot(slots[i], id, c, now);
    }

    /** maybe_freeze_slot, and the recycling its callers carry out. True when the slot changed state. */
    method MaybeFreezeSlot(i: nat, timeout: int, now: int) returns (changed: bool)
      requires ValidConfig(c) && i < slots.Length
      modifies this, slots
      ensures View() == FreezeSlot(c, old(View()), i, timeout, now)
      ensures changed == (slots[i].state != old(slots[i].state))
    {
      var s := slots[i];
      if s.state != Filling {
        return false;
      }
      var holes, m := c.n - s.valid, c.n - c.k;
      if s.valid == c.n {
        PromoteSlot(i);
        return true;
      }
      var age := Elapsed(s.first, now);
      if s.valid >= c.k {
        // With at least k symbols there are no more than m holes, so neither test below recycles.
        if c.stab == 0 {
          if holes > m { assert false; }
          PromoteSlot(i);
          return true;
        }
        var quiet := Elapsed(s.last, now);
        if quiet >= c.stab {
          if holes > m { assert false; }
          PromoteSlot(i);
          return true;
        }
      }
      if age >= timeout {
        if s.valid >= c.k && holes <= m {
          PromoteSlot(i);
          return true;
        }
        if holes > m {
          stats := stats.(failedHoles := stats.failedHoles + 1);
        } else {
          assert false;
        }
        FinalizeAndResetSlot(i, TooManyHoles);
        return true;
      }
      changed := false;
    }

    /** The slot is ready, and counted. */
    method PromoteSlot(i: nat)
      requires i < slots.Length
      modifies this`stats, slots
      ensures slots[..] == old(slots[..])[i := old(slots[i]).(state := Ready)]
      ensures stats == old(stats).(ready := old(stats).ready + 1)
    {
      slots[i] := slots[i].(state := Ready);
      stats := stats.(ready := stats.ready + 1);
    }

    /** deinterleaver_push_symbol: 1 when the block became ready, 0 when the symbol was taken or dropped, -1 on rejection. */
    method PushSymbol(sym: Symbol, now: int) returns (rc: int)
      requires Valid()
      modifies this, slots
      ensures Valid()
      ensures (View(), rc) == Push(c, old(View()), sym, now)
    {
      Invariant.PushKeeps(c, View(), sym, now);
      if IsErasure(sym) {
        stats := stats.(erasure := stats.erasure + 1);
        return 0;
      }
      if sym.len > c.size || sym.fecId >= c.n {
        return -1;
      }
      rc := PlaceSymbol(sym, now);
    }

    /** The part of push_symbol after the guards. */
    method PlaceSymbol(sym: Symbol, now: int) returns (rc: int)
      requires Valid() && !IsErasure(sym) && Acceptable(c, sym)
      modifies this, slots
      ensures (View(), rc) == Push(c, old(View()), sym, now)
    {
      ghost var st := View();
      var i := FindSlotAny(sym.packetId);
      if i < slots.Length {
        if slots[i].state != Filling {
          stats := stats.(frozen := stats.frozen + 1);
          return 0;
        }
      } else {
        i := AllocSlot(sym.packetId, now);
        if i == slots.Length {
          var ready := ReadyCount();
          return if ready > 0 then 1 else -1;
        }
        Invariant.OccupyVacates(c, st, i, sym.packetId, now);
      }
      rc := StoreAndEvaluate(i, sym, now);
    }

    /** Duplicate check, store, and evaluation of the exit conditions. */
    method StoreAndEvaluate(i: nat, sym: Symbol, now: int) returns (rc: int)
      requires ValidConfig(c) && i < slots.Length && Acceptable(c, sym)
      requires |slots[i].mask| == |slots[i].block.symbols| == c.n
      modifies this, slots
      ensures (View(), rc) == PushInto(c, old(View()), i, sym, now)
    {
      if slots[i].mask[sym.fecId] {
        stats := stats.(duplicate := stats.duplicate + 1);
        return 0;
      }
      slots[i] := StoreSymbol(slots[i], sym, now);
      var changed := MaybeFreezeSlot(i, AgeLimit(c), now);
      return if slots[i].state == Ready then 1 else 0;
    }

    /** deinterleaver_get_ready_block: the first Ready slot, unchanged; None when there is none. */
    method GetReadyBlock() returns (i: nat)
      ensures i == FirstIn(slots[..], Ready, 0)
    {
      i := 0;
      while i < slots.Length
        invariant i <= slots.Length
        invariant FirstIn(slots[..], Ready, 0) == FirstIn(slots[..], Ready, i)
      {
        if slots[i].state == Ready {
          return;
        }
        i := i + 1;
      }
    }

    /** deinterleaver_mark_result. */
    method MarkResult(id: uint32, success: bool) returns (rc: int)
      requires Valid()
      modifies this, slots
      ensures Valid()
      ensures (View(), rc) == Mark(old(View()), id, success)
    {
      Invariant.MarkKeeps(c, View(), id, success);
      var i := FindSlotAny(id);
      if i == slots.Length || slots[i].state != Ready {
        return -1;
      }
      FinalizeAndResetSlot(i, if success then DecodeSuccess else DecodeFailed);
      return 0;
    }

    /** deinterleaver_tick: evaluates every slot in index order and counts those that changed state. */
    method TickSlots(override: int, now: int) returns (transitioned: nat)
      requires Valid()
      modifies this, slots
      ensures Valid()
      ensures View() == Tick(c, old(View()), override, now)
      ensures transitioned == Changes(old(slots[..]), slots[..], slots.Length)
    {
      hide FreezeSlot, Inv;
      ghost var st := View();
      Invariant.TickKeeps(c, st, override, now);
      var limit := TickLimit(c, override);
      transitioned := 0;
      for i := 0 to slots.Length
        invariant View() == TickUpTo(c, st, limit, now, i)
        invariant transitioned == Changes(st.slots, slots[..], i)
      {
        ghost var before := slots[..];
        Invariant.TickUpToKeeps(c, st, limit, now, i);
        FreezeLocal(c, View(), i, limit, now);
        var changed := MaybeFreezeSlot(i, limit, now);
        ChangesSame(st.slots, before, slots[..], i);
        if changed {
          transitioned := transitioned + 1;
        }
      }
    }

    /** deinterleaver_ready_count. */
    method ReadyCount() returns (count: nat)
      ensures count == CountIn(slots[..], Ready, slots.Length)
      ensures count > 0 <==> FirstIn(slots[..], Ready, 0) < slots.Length
    {
      count := 0;
      for i := 0 to slots.Length
        invariant count == CountIn(slots[..], Ready, i)
        invariant count > 0 <==> exists j :: 0 <= j < i && slots[j].state == Ready
      {
        if slots[i].state == Ready {
          count := count + 1;
        }
      }
    }

    /** deinterleaver_inc_crc_drop. */
    method IncCrcDrop()
      modifies this`stats
      ensures View() == old(View()).(stats := old(stats).(crcFail := old(stats).crcFail + 1))
    {
      stats := stats.(crcFail := stats.crcFail + 1);
    }
  }

  /** Evaluating one slot leaves the others alone. */
  lemma FreezeLocal(c: Config, st: State, i: nat, timeout: int, now: int)
    requires ValidConfig(c) && i < |st.slots|
    ensures |FreezeSlot(c, st, i, timeout, now).slots| == |st.slots|
    ensures forall j :: 0 <= j < |st.slots| && j != i ==> FreezeSlot(c, st, i, timeout, now).slots[j] == st.slots[j]
  {
  }
}
