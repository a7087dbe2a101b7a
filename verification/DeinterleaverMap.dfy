/** The slot array refines a map from block id to received symbols; slot order matters only for the choice of a victim. */
module DeinterleaverMap {
  import opened Types
  import opened DeinterleaverSpec
  import Invariant = DeinterleaverInvariant

  datatype Received = Received(ready: bool, symbols: map<int, Symbol>, first: int, last: int)

  function Marked(s: Slot): (m: map<int, Symbol>) {
    map f | 0 <= f < |s.mask| && f < |s.block.symbols| && s.mask[f] :: s.block.symbols[f]
  }

  function Contents(s: Slot): (r: Received) {
    Received(s.state == Ready, Marked(s), s.first, s.last)
  }

  function ActiveIds(slots: seq<Slot>): set<uint32> {
    set i | 0 <= i < |slots| && slots[i].state != Empty :: slots[i].id
  }

  ghost function Blocks(slots: seq<Slot>): (m: map<uint32, Received>) {
    map id | id in ActiveIds(slots) :: Contents(slots[FindSlot(slots, id)])
  }

  /** With unique ids, an active slot is what its id maps to. */
  lemma BlockAt(slots: seq<Slot>, i: nat)
    requires Unique(slots) && i < |slots| && slots[i].state != Empty
    ensures FindSlot(slots, slots[i].id) == i
    ensures slots[i].id in Blocks(slots) && Blocks(slots)[slots[i].id] == Contents(slots[i])
  {
    assert slots[i].id in ActiveIds(slots);
  }

  lemma BlockOf(slots: seq<Slot>, id: uint32)
    ensures id in Blocks(slots) <==> FindSlot(slots, id) < |slots|
  {
  }

  /** The map without what slot i held. */
  ghost function Without(slots: seq<Slot>, i: nat): map<uint32, Received>
    requires i < |slots|
  {
    if slots[i].state == Empty then Blocks(slots) else Blocks(slots) - {slots[i].id}
  }

  /** Where an id is found after slot i is replaced. */
  lemma FindAfter(slots: seq<Slot>, i: nat, s: Slot, id: uint32)
    requires Unique(slots) && i < |slots| && Unique(slots[i := s])
    ensures FindSlot(slots[i := s], id) ==
            if s.state != Empty && s.id == id then i
            else if FindSlot(slots, id) == i then |slots|
            else FindSlot(slots, id)
  {
    var slots' := slots[i := s];
    var j, j' := FindSlot(slots, id), FindSlot(slots', id);
    assert forall a :: 0 <= a < |slots| && a != i ==> slots[a] == slots'[a];
    if s.state != Empty && s.id == id {
      assert slots'[i] == s;
      assert j' <= i;
    } else if j == i {
      assert j' != i;
    } else {
      assert j' != i;
      if j' < |slots| { assert slots[j'] == slots'[j']; }
      if j < |slots| { assert slots[j] == slots'[j]; }
    }
  }

  /** One entry of the map after slot i is replaced. */
  lemma ReplaceEntry(slots: seq<Slot>, i: nat, s: Slot, id: uint32)
    requires Unique(slots) && i < |slots|
    requires Unique(slots[i := s])
    ensures var here := s.state != Empty && s.id == id;
            var m, m' := Without(slots, i), Blocks(slots[i := s]);
            && (id in m' <==> here || id in m)
            && (id in m' ==> m'[id] == if here then Contents(s) else m[id])
  {
    FindAfter(slots, i, s, id);
    BlockOf(slots[i := s], id);
    InWithout(slots, i, id);
  }

  /** Replacing one slot replaces one entry. */
  lemma ReplaceSlot(slots: seq<Slot>, i: nat, s: Slot)
    requires Unique(slots) && i < |slots|
    requires Unique(slots[i := s])
    ensures Blocks(slots[i := s]) ==
            if s.state == Empty then Without(slots, i) else Without(slots, i)[s.id := Contents(s)]
  {
    var m, m' := Without(slots, i), Blocks(slots[i := s]);
    var r := if s.state == Empty then m else m[s.id := Contents(s)];
    forall id: uint32
      ensures (id in m' <==> id in r) && (id in r ==> m'[id] == r[id])
    {
      ReplaceEntry(slots, i, s, id);
    }
    SameMap(m', r);
  }

  lemma SameMap<K, V>(a: map<K, V>, b: map<K, V>)
    requires forall k :: (k in a <==> k in b) && (k in b ==> a[k] == b[k])
    ensures a == b
  {
  }

  lemma InWithout(slots: seq<Slot>, i: nat, id: uint32)
    requires Unique(slots) && i < |slots|
    ensures id in Without(slots, i) <==> FindSlot(slots, id) < |slots| && FindSlot(slots, id) != i
    ensures id in Without(slots, i) ==> Without(slots, i)[id] == Contents(slots[FindSlot(slots, id)])
  {
    BlockOf(slots, id);
    if slots[i].state != Empty { BlockAt(slots, i); }
  }

  /** The number of blocks is the number of active slots. */
  lemma {:induction false} BlockCount(slots: seq<Slot>, i: nat)
    requires Unique(slots) && i <= |slots|
    ensures var ids := set a | 0 <= a < i && slots[a].state != Empty :: slots[a].id;
            |ids| == i - CountIn(slots, Empty, i)
  {
    var ids := set a | 0 <= a < i && slots[a].state != Empty :: slots[a].id;
    if i == 0 {
      assert ids == {};
    } else {
      BlockCount(slots, i - 1);
      var ids' := set a | 0 <= a < i - 1 && slots[a].state != Empty :: slots[a].id;
      if slots[i - 1].state == Empty {
        assert ids == ids';
      } else {
        assert ids == ids' + {slots[i - 1].id};
      }
    }
  }

  lemma {:induction false} CountZero(slots: seq<Slot>, state: BlockState, i: nat)
    requires i <= |slots|
    ensures CountIn(slots, state, i) == 0 <==> forall a :: 0 <= a < i ==> slots[a].state != state
  {
    if i > 0 { CountZero(slots, state, i - 1); }
  }

  /** A free slot exists exactly when fewer blocks than slots are active. */
  lemma FreeSlot(slots: seq<Slot>)
    requires Unique(slots)
    ensures |Blocks(slots)| <= |slots|
    ensures |Blocks(slots)| < |slots| <==> exists a :: 0 <= a < |slots| && slots[a].state == Empty
  {
    BlockCount(slots, |slots|);
    CountZero(slots, Empty, |slots|);
    assert Blocks(slots).Keys == ActiveIds(slots);
    assert ActiveIds(slots) == set a | 0 <= a < |slots| && slots[a].state != Empty :: slots[a].id;
  }

  lemma {:induction false} MarksAreKeys(s: Slot, i: nat)
    requires |s.mask| == |s.block.symbols| && i <= |s.mask|
    ensures |set f | 0 <= f < i && s.mask[f]| == CountMarks(s.mask, i)
  {
    var m := set f | 0 <= f < i && s.mask[f];
    if i > 0 {
      MarksAreKeys(s, i - 1);
      var m' := set f | 0 <= f < i - 1 && s.mask[f];
      assert m == if s.mask[i - 1] then m' + {i - 1} else m';
    }
  }

  /** The mark count is the number of received symbols. */
  lemma MarkCount(s: Slot)
    requires |s.mask| == |s.block.symbols|
    ensures |Contents(s).symbols| == CountMarks(s.mask, |s.mask|)
  {
    MarksAreKeys(s, |s.mask|);
    assert Marked(s).Keys == set f | 0 <= f < |s.mask| && s.mask[f];
    assert |Marked(s).Keys| == |Marked(s)|;
  }

  // ---------------------------------------------------------------------------
  // The operations on maps
  // ---------------------------------------------------------------------------

  /** Evaluate the exit conditions of a Filling block. */
  ghost function Settle(c: Config, m: map<uint32, Received>, id: uint32, timeout: int, now: int): map<uint32, Received>
    requires ValidConfig(c) && id in m
  {
    var b := m[id];
    if b.ready then m
    else
      match FreezeRule(c, |b.symbols|, b.first, b.last, timeout, now)
      case Stay => m
      case Promote => m[id := b.(ready := true)]
      case Recycle(_) => m - {id}
  }

  /** Deliver an acceptable symbol to a map in which its block is present or there is room for it. */
  ghost function Deliver(c: Config, m: map<uint32, Received>, sym: Symbol, now: int): map<uint32, Received>
    requires ValidConfig(c)
  {
    var b := if sym.packetId in m then m[sym.packetId] else Received(false, map[], now, now);
    if b.ready || sym.fecId in b.symbols then m
    else
      var stored := b.(symbols := b.symbols[sym.fecId := sym], last := now);
      Settle(c, m[sym.packetId := stored], sym.packetId, AgeLimit(c), now)
  }

  /** What a push may evict: nothing while there is room, else the oldest Ready block, else the oldest Filling one. */
  ghost predicate Victim(c: Config, m: map<uint32, Received>, id: uint32, gone: set<uint32>, now: int) {
    if id in m || |m| < c.slots then gone == {}
    else
      exists v :: v in m && gone == {v} && Oldest(m, v, now) && (m[v].ready || forall u :: u in m ==> !m[u].ready)
  }

  /** No block of the same state is older than v. */
  ghost predicate Oldest(m: map<uint32, Received>, v: uint32, now: int)
    requires v in m
  {
    forall u :: u in m && m[u].ready == m[v].ready ==> Elapsed(m[u].first, now) <= Elapsed(m[v].first, now)
  }

  lemma ReAdd<K, V>(m: map<K, V>, k: K, v: V)
    ensures (m - {k})[k := v] == m[k := v]
  {
  }

  lemma SameIdUnique(slots: seq<Slot>, i: nat, s: Slot)
    requires Unique(slots) && i < |slots|
    requires s.state == Empty || (slots[i].state != Empty && s.id == slots[i].id)
    ensures Unique(slots[i := s])
  {
  }

  /** Updating the slot of an active block in place updates its entry. */
  lemma UpdateEntry(slots: seq<Slot>, i: nat, s: Slot)
    requires Unique(slots) && i < |slots| && slots[i].state != Empty
    requires s.state != Empty && s.id == slots[i].id
    ensures Unique(slots[i := s])
    ensures Blocks(slots[i := s]) == Blocks(slots)[s.id := Contents(s)]
  {
    SameIdUnique(slots, i, s);
    ReplaceSlot(slots, i, s);
    ReAdd(Blocks(slots), s.id, Contents(s));
  }

  /** Emptying a slot removes its entry. */
  lemma ResetEntry(slots: seq<Slot>, i: nat)
    requires Unique(slots) && i < |slots|
    ensures Unique(slots[i := ResetSlot(slots[i])])
    ensures Blocks(slots[i := ResetSlot(slots[i])]) == Without(slots, i)
  {
    SameIdUnique(slots, i, ResetSlot(slots[i]));
    ReplaceSlot(slots, i, ResetSlot(slots[i]));
  }

  /** Promoting a block sets its flag. */
  lemma PromoteEntry(slots: seq<Slot>, i: nat)
    requires Unique(slots) && i < |slots| && slots[i].state == Filling
    ensures var s := slots[i];
            Blocks(slots[i := s.(state := Ready)]) == Blocks(slots)[s.id := Contents(s).(ready := true)]
  {
    UpdateEntry(slots, i, slots[i].(state := Ready));
  }

  lemma FreezeRefines(c: Config, st: State, i: nat, timeout: int, now: int)
    requires ValidConfig(c) && i < |st.slots| && Unique(st.slots)
    requires var s := st.slots[i]; s.state == Filling && s.valid == |Contents(s).symbols|
    ensures st.slots[i].id in Blocks(st.slots)
    ensures Blocks(FreezeSlot(c, st, i, timeout, now).slots) ==
            Settle(c, Blocks(st.slots), st.slots[i].id, timeout, now)
  {
    var s := st.slots[i];
    BlockAt(st.slots, i);
    match FreezeRule(c, s.valid, s.first, s.last, timeout, now)
    case Stay =>
    case Promote => PromoteEntry(st.slots, i);
    case Recycle(_) => ResetEntry(st.slots, i);
  }

  /** Storing one new symbol adds it to the block's entry. */
  lemma StoreEntry(c: Config, slots: seq<Slot>, i: nat, sym: Symbol, now: int)
    requires ValidConfig(c) && i < |slots| && Shaped(c, slots) && Unique(slots)
    requires slots[i].state == Filling && slots[i].id == sym.packetId && sym.fecId < c.n
    ensures var s' := StoreSymbol(slots[i], sym, now);
            var b := Contents(slots[i]);
            && Unique(slots[i := s'])
            && Blocks(slots[i := s']) ==
               Blocks(slots)[sym.packetId := b.(symbols := b.symbols[sym.fecId := sym], last := now)]
  {
    var s, s' := slots[i], StoreSymbol(slots[i], sym, now);
    BlockAt(slots, i);
    assert Contents(s').symbols == Contents(s).symbols[sym.fecId := sym];
    UpdateEntry(slots, i, s');
  }

  /** push_symbol's tail refines Deliver. */
  lemma StoreRefines(c: Config, st: State, i: nat, sym: Symbol, now: int)
    requires ValidConfig(c) && i < |st.slots| && Shaped(c, st.slots) && Unique(st.slots)
    requires (SlotOk(c, st.slots[i]) && st.slots[i].state == Filling) || Invariant.Vacant(c, st.slots[i])
    requires st.slots[i].id == sym.packetId && Acceptable(c, sym) && !IsErasure(sym)
    ensures Blocks(PushInto(c, st, i, sym, now).0.slots) == Deliver(c, Blocks(st.slots), sym, now)
  {
    BlockAt(st.slots, i);
    if !st.slots[i].mask[sym.fecId] {
      var s' := StoreSymbol(st.slots[i], sym, now);
      Invariant.StoreOk(c, st.slots[i], sym, now);
      MarkCount(s');
      StoreEntry(c, st.slots, i, sym, now);
      FreezeRefines(c, st.(slots := st.slots[i := s']), i, AgeLimit(c), now);
    }
  }

  // ---------------------------------------------------------------------------
  // The refinement
  // ---------------------------------------------------------------------------

  /** Claiming a slot for a new id removes what the slot held and adds an empty block. */
  lemma OccupyRefines(c: Config, st: State, i: nat, id: uint32, now: int)
    requires ValidConfig(c) && Inv(c, st) && i < |st.slots| && FindSlot(st.slots, id) == |st.slots|
    ensures Blocks(Occupy(c, st, i, id, now).slots) == Without(st.slots, i)[id := Received(false, map[], now, now)]
  {
    Invariant.OccupyVacates(c, st, i, id, now);
    var s := Occupy(c, st, i, id, now).slots[i];
    assert Marked(s) == map[];
    ReplaceSlot(st.slots, i, s);
  }

  /** The map entry of a slot found by id. */
  lemma EntryOf(slots: seq<Slot>, id: uint32)
    ensures id in Blocks(slots) <==> FindSlot(slots, id) < |slots|
    ensures id in Blocks(slots) ==>
              var s := slots[FindSlot(slots, id)];
              && Blocks(slots)[id].ready == (s.state == Ready) && Blocks(slots)[id].first == s.first
              && s.state != Empty
  {
  }

  /** The slot alloc_slot picks holds the victim. */
  lemma VictimIsOldest(slots: seq<Slot>, a: nat, now: int)
    requires Unique(slots) && a == AllocIndex(slots, now) < |slots| && slots[a].state != Empty
    ensures var m, v := Blocks(slots), slots[a].id;
            v in m && Oldest(m, v, now) && (m[v].ready || forall u :: u in m ==> !m[u].ready)
  {
    Invariant.AllocAlwaysSucceeds(State(slots, Stats(0, 0, 0, 0, 0, 0, 0, 0, 0), []), now);
    BlockAt(slots, a);
    var m, v := Blocks(slots), slots[a].id;
    forall u | u in m
      ensures m[u].ready == m[v].ready ==> Elapsed(m[u].first, now) <= Elapsed(m[v].first, now)
      ensures !m[v].ready ==> !m[u].ready
    {
      EntryOf(slots, u);
    }
  }

  lemma MinusNothing<K, V>(m: map<K, V>)
    ensures m - {} == m
  {
  }

  lemma VictimIs(c: Config, m: map<uint32, Received>, id: uint32, v: uint32, now: int)
    requires id !in m && |m| >= c.slots && v in m && Oldest(m, v, now)
    requires m[v].ready || forall u :: u in m ==> !m[u].ready
    ensures Victim(c, m, id, {v}, now)
  {
  }

  /** The block that claiming slot a gives up, if any. */
  ghost function GoneAt(slots: seq<Slot>, a: nat): set<uint32>
    requires a < |slots|
  {
    if slots[a].state == Empty then {} else {slots[a].id}
  }

  lemma WithoutGone(slots: seq<Slot>, a: nat)
    requires a < |slots|
    ensures Without(slots, a) == Blocks(slots) - GoneAt(slots, a)
  {
    MinusNothing(Blocks(slots));
  }

  /** alloc_slot evicts only when every slot is in use, and then the oldest Ready or else the oldest Filling block. */
  lemma GoneIsVictim(c: Config, slots: seq<Slot>, a: nat, id: uint32, now: int)
    requires 1 <= |slots| == c.slots && Unique(slots) && id !in Blocks(slots)
    requires a == AllocIndex(slots, now)
    ensures a < |slots| && Victim(c, Blocks(slots), id, GoneAt(slots, a), now)
  {
    Invariant.AllocAlwaysSucceeds(State(slots, Stats(0, 0, 0, 0, 0, 0, 0, 0, 0), []), now);
    FreeSlot(slots);
    if slots[a].state != Empty {
      VictimIsOldest(slots, a, now);
      VictimIs(c, Blocks(slots), id, slots[a].id, now);
    }
  }

  /** push_symbol for a block that has no slot yet. */
  lemma PushNew(c: Config, st: State, sym: Symbol, now: int)
    requires ValidConfig(c) && Inv(c, st) && !IsErasure(sym) && Acceptable(c, sym)
    requires FindSlot(st.slots, sym.packetId) == |st.slots|
    ensures var a := AllocIndex(st.slots, now);
            a < |st.slots| &&
            Blocks(Push(c, st, sym, now).0.slots) ==
            Deliver(c, Without(st.slots, a)[sym.packetId := Received(false, map[], now, now)], sym, now)
  {
    Invariant.AllocAlwaysSucceeds(st, now);
    var a := AllocIndex(st.slots, now);
    OccupyRefines(c, st, a, sym.packetId, now);
    Invariant.OccupyVacates(c, st, a, sym.packetId, now);
    StoreRefines(c, Occupy(c, st, a, sym.packetId, now), a, sym, now);
  }

  /** push_symbol for a block that has a slot. */
  lemma PushKnown(c: Config, st: State, sym: Symbol, now: int)
    requires ValidConfig(c) && Inv(c, st) && !IsErasure(sym) && Acceptable(c, sym)
    requires FindSlot(st.slots, sym.packetId) < |st.slots|
    ensures sym.packetId in Blocks(st.slots)
    ensures Blocks(Push(c, st, sym, now).0.slots) == Deliver(c, Blocks(st.slots), sym, now)
  {
    var i := FindSlot(st.slots, sym.packetId);
    EntryOf(st.slots, sym.packetId);
    if st.slots[i].state == Filling {
      StoreRefines(c, st, i, sym, now);
    }
  }

  /** push_symbol delivers the symbol to the map, after evicting only when every slot is in use. */
  lemma PushRefines(c: Config, st: State, sym: Symbol, now: int) returns (gone: set<uint32>)
    requires ValidConfig(c) && Inv(c, st) && !IsErasure(sym) && Acceptable(c, sym)
    ensures Victim(c, Blocks(st.slots), sym.packetId, gone, now)
    ensures Blocks(Push(c, st, sym, now).0.slots) == Deliver(c, Blocks(st.slots) - gone, sym, now)
    ensures |Blocks(st.slots)| <= c.slots
  {
    FreeSlot(st.slots);
    var m := Blocks(st.slots);
    if FindSlot(st.slots, sym.packetId) < |st.slots| {
      gone := {};
      PushKnown(c, st, sym, now);
      MinusNothing(m);
    } else {
      BlockOf(st.slots, sym.packetId);
      var a := AllocIndex(st.slots, now);
      PushNew(c, st, sym, now);
      GoneIsVictim(c, st.slots, a, sym.packetId, now);
      WithoutGone(st.slots, a);
      gone := GoneAt(st.slots, a);
      DeliverToNew(c, m - gone, sym, now);
    }
  }

  /** Delivering to an absent block is delivering to an empty one. */
  lemma DeliverToNew(c: Config, m: map<uint32, Received>, sym: Symbol, now: int)
    requires ValidConfig(c) && sym.packetId !in m
    ensures Deliver(c, m[sym.packetId := Received(false, map[], now, now)], sym, now) == Deliver(c, m, sym, now)
  {
    var e := Received(false, map[], now, now);
    var b := e.(symbols := e.symbols[sym.fecId := sym]);
    assert m[sym.packetId := e][sym.packetId := b] == m[sym.packetId := b];
  }

  /** tick settles every block on its own. */
  lemma TickRefines(c: Config, st: State, override: int, now: int)
    requires ValidConfig(c) && Inv(c, st)
    ensures Settled(c, Blocks(st.slots), Blocks(Tick(c, st, override, now).slots), TickLimit(c, override), now)
  {
    Invariant.TickKeeps(c, st, override, now);
    forall j | 0 <= j < |st.slots| && st.slots[j].state == Filling
      ensures st.slots[j].valid == |Contents(st.slots[j]).symbols|
    {
      MarkCount(st.slots[j]);
    }
    SettleAll(c, st, Tick(c, st, override, now).slots, TickLimit(c, override), now);
  }

  /** m' is m with every block settled. */
  ghost predicate Settled(c: Config, m: map<uint32, Received>, m': map<uint32, Received>, timeout: int, now: int)
    requires ValidConfig(c)
  {
    && (forall id :: id in m' ==> id in m)
    && (forall id :: id in m ==> (id in m' <==> id in Settle(c, m, id, timeout, now)))
    && (forall id :: id in m && id in m' ==> m'[id] == Settle(c, m, id, timeout, now)[id])
  }

  /** Slots active in slots' were active in slots, under the same id. */
  ghost predicate Inherited(slots: seq<Slot>, slots': seq<Slot>) {
    && |slots| == |slots'|
    && forall i :: 0 <= i < |slots'| && slots'[i].state != Empty ==>
         slots[i].state != Empty && slots[i].id == slots'[i].id
  }

  lemma NeverRevived(c: Config, st: State, slots': seq<Slot>, timeout: int, now: int)
    requires ValidConfig(c) && |st.slots| == |slots'|
    requires forall i :: 0 <= i < |slots'| ==> slots'[i] == FreezeSlot(c, st, i, timeout, now).slots[i]
    ensures Inherited(st.slots, slots')
  {
  }

  lemma SettleAll(c: Config, st: State, slots': seq<Slot>, timeout: int, now: int)
    requires ValidConfig(c) && |st.slots| == |slots'| && Unique(st.slots) && Unique(slots')
    requires forall j :: 0 <= j < |slots'| ==> slots'[j] == FreezeSlot(c, st, j, timeout, now).slots[j]
    requires forall j :: 0 <= j < |st.slots| && st.slots[j].state == Filling ==>
               st.slots[j].valid == |Contents(st.slots[j]).symbols|
    ensures Settled(c, Blocks(st.slots), Blocks(slots'), timeout, now)
  {
    NeverRevived(c, st, slots', timeout, now);
    var m, m' := Blocks(st.slots), Blocks(slots');
    forall id: uint32
      ensures id in m' ==> id in m
      ensures id in m ==> (id in m' <==> id in Settle(c, m, id, timeout, now))
      ensures id in m && id in m' ==> m'[id] == Settle(c, m, id, timeout, now)[id]
    {
      EntryOf(st.slots, id);
      EntryOf(slots', id);
      if id in m' { BlockAt(st.slots, FindSlot(slots', id)); }
      if id in m { SettleOne(c, st, slots', FindSlot(st.slots, id), timeout, now); }
    }
  }

  lemma SettleOne(c: Config, st: State, slots': seq<Slot>, j: nat, timeout: int, now: int)
    requires ValidConfig(c) && j < |st.slots| && Unique(st.slots) && Unique(slots') && Inherited(st.slots, slots')
    requires slots'[j] == FreezeSlot(c, st, j, timeout, now).slots[j]
    requires st.slots[j].state == Filling ==> st.slots[j].valid == |Contents(st.slots[j]).symbols|
    requires st.slots[j].state != Empty
    ensures var id := st.slots[j].id;
            var m, m' := Blocks(st.slots), Blocks(slots');
            id in m &&
            var s := Settle(c, m, id, timeout, now);
            (id in m' <==> id in s) && (id in m' ==> m'[id] == s[id])
  {
    BlockAt(st.slots, j);
    if slots'[j].state != Empty {
      BlockAt(slots', j);
    } else {
      EntryOf(slots', st.slots[j].id);
    }
  }

  /** mark_result removes a Ready block and touches nothing else. */
  lemma MarkRefines(c: Config, st: State, id: uint32, success: bool)
    requires Inv(c, st)
    ensures var m := Blocks(st.slots);
            var done := id in m && m[id].ready;
            && Blocks(Mark(st, id, success).0.slots) == (if done then m - {id} else m)
            && Mark(st, id, success).1 == (if done then 0 else -1)
  {
    BlockOf(st.slots, id);
    var i := FindSlot(st.slots, id);
    if i < |st.slots| && st.slots[i].state == Ready { ResetEntry(st.slots, i); }
  }
}
