/** How old a block may become: by the configured age, written out, a tick or a push settles it exactly as it must. */
module DeinterleaverAges {
  import opened Types
  import opened DeinterleaverSpec
  import Invariant = DeinterleaverInvariant

  /** The configured maximum age has been reached; without one, 1.0e15 ms. */
  ghost predicate Aged(c: Config, first: int, now: int) {
    if c.maxAge > 0 then Elapsed(first, now) >= c.maxAge else Elapsed(first, now) >= 1_000_000_000_000_000_000_000
  }

  /** No symbol has come for the stabilization time. */
  ghost predicate Quiet(c: Config, last: int, now: int) {
    c.stab == 0 || Elapsed(last, now) >= c.stab
  }

  /** Too few symbols have come, and no more will be waited for. */
  ghost predicate Hopeless(c: Config, s: Slot, now: int) {
    s.state == Filling && s.valid < c.k && Aged(c, s.first, now)
  }

  /** Enough symbols have come, and no more will be waited for. */
  ghost predicate Due(c: Config, s: Slot, now: int) {
    s.state == Filling && s.valid >= c.k && (s.valid == c.n || Quiet(c, s.last, now) || Aged(c, s.first, now))
  }

  /** The callbacks for the hopeless blocks among the first i slots. */
  ghost function Discarded(c: Config, slots: seq<Slot>, now: int, i: nat): (f: seq<Final>)
    requires i <= |slots|
  {
    if i == 0 then []
    else Discarded(c, slots, now, i - 1) + if Hopeless(c, slots[i - 1], now) then [Final(slots[i - 1].id, TooManyHoles)] else []
  }

  /** How many of the first i slots hold a block that is due. */
  ghost function DueIn(c: Config, slots: seq<Slot>, now: int, i: nat): nat
    requires i <= |slots|
  {
    if i == 0 then 0 else DueIn(c, slots, now, i - 1) + if Due(c, slots[i - 1], now) then 1 else 0
  }

  // ---------------------------------------------------------------------------
  // One slot
  // ---------------------------------------------------------------------------

  /** What the freeze logic makes of slot i, by the configured age. */
  ghost predicate Settles(c: Config, st: State, st': State, i: nat, now: int)
    requires i < |st.slots|
  {
    var s := st.slots[i];
    if Hopeless(c, s, now) then
      && st'.slots == st.slots[i := ResetSlot(s)] && st'.finals == st.finals + [Final(s.id, TooManyHoles)]
      && st'.stats == st.stats.(failedHoles := st.stats.failedHoles + 1)
    else if Due(c, s, now) then
      && st'.slots == st.slots[i := s.(state := Ready)] && st'.finals == st.finals
      && st'.stats == st.stats.(ready := st.stats.ready + 1)
    else st' == st
  }

  lemma NotBoth(c: Config, s: Slot, now: int)
    ensures !(Hopeless(c, s, now) && Due(c, s, now))
  {
  }

  lemma FreezeSettles(c: Config, st: State, i: nat, now: int)
    requires ValidConfig(c) && i < |st.slots| && st.slots[i].valid <= c.n
    ensures Settles(c, st, FreezeSlot(c, st, i, AgeLimit(c), now), i, now)
  {
    var s := st.slots[i];
    if s.state == Filling && s.valid >= 0 { Invariant.DiscardsOnlyUnrecoverable(c, s.valid, s.first, s.last, AgeLimit(c), now); }
  }

  /** All counters but those of promoted and of discarded blocks. */
  ghost predicate SameDrops(a: Stats, b: Stats) {
    && a.duplicate == b.duplicate && a.frozen == b.frozen && a.erasure == b.erasure && a.crcFail == b.crcFail
    && a.evictedFilling == b.evictedFilling && a.evictedDone == b.evictedDone && a.failedTimeout == b.failedTimeout
  }

  // ---------------------------------------------------------------------------
  // A tick
  // ---------------------------------------------------------------------------

  lemma {:induction false} TickUpToSettles(c: Config, st: State, now: int, i: nat)
    requires ValidConfig(c) && Inv(c, st) && i <= |st.slots|
    ensures var st' := TickUpTo(c, st, AgeLimit(c), now, i);
      && st'.finals == st.finals + Discarded(c, st.slots, now, i)
      && st'.stats.failedHoles == st.stats.failedHoles + |Discarded(c, st.slots, now, i)|
      && st'.stats.ready == st.stats.ready + DueIn(c, st.slots, now, i)
      && SameDrops(st.stats, st'.stats)
  {
    hide FreezeSlot, Hopeless, Due;
    if i == 0 {
      assert st.finals + [] == st.finals;
    } else {
      TickUpToSettles(c, st, now, i - 1);
      Invariant.TickUpToKeeps(c, st, AgeLimit(c), now, i - 1);
      var before := TickUpTo(c, st, AgeLimit(c), now, i - 1);
      assert before.slots[i - 1] == st.slots[i - 1];
      FreezeSettles(c, before, i - 1, now);
      NotBoth(c, st.slots[i - 1], now);
    }
  }

  /**
   A tick with a negative override: blocks of fewer than k symbols are given up exactly at the configured age, each
   with one callback, in slot order, and counted; blocks of k symbols become ready exactly when they are complete,
   quiet or of that age; all other slots stay as they are.
   */
  lemma TickByAge(c: Config, st: State, override: int, now: int)
    requires ValidConfig(c) && Inv(c, st) && override < 0
    ensures var st' := Tick(c, st, override, now);
      && (forall j :: 0 <= j < |st.slots| ==>
            var s := st.slots[j];
            st'.slots[j] == if Hopeless(c, s, now) then ResetSlot(s) else if Due(c, s, now) then s.(state := Ready) else s)
      && st'.finals == st.finals + Discarded(c, st.slots, now, |st.slots|)
      && st'.stats.failedHoles == st.stats.failedHoles + |Discarded(c, st.slots, now, |st.slots|)|
      && st'.stats.ready == st.stats.ready + DueIn(c, st.slots, now, |st.slots|)
      && SameDrops(st.stats, st'.stats)
  {
    TickUpToSettles(c, st, now, |st.slots|);
    Invariant.TickKeeps(c, st, override, now);
    hide FreezeSlot, Hopeless, Due, TickUpTo;
    forall j | 0 <= j < |st.slots|
      ensures var s := st.slots[j];
        Tick(c, st, override, now).slots[j] ==
          if Hopeless(c, s, now) then ResetSlot(s) else if Due(c, s, now) then s.(state := Ready) else s
    {
      FreezeSettles(c, st, j, now);
    }
  }

  /** After it no filling block has reached the configured age, or is complete enough and quiet. */
  lemma TickLeavesYoung(c: Config, st: State, override: int, now: int)
    requires ValidConfig(c) && Inv(c, st) && override < 0
    ensures var st' := Tick(c, st, override, now);
      forall j :: 0 <= j < |st'.slots| && st'.slots[j].state == Filling ==>
        && st'.slots[j] == st.slots[j]
        && (c.maxAge > 0 ==> Elapsed(st'.slots[j].first, now) < c.maxAge)
        && (c.maxAge <= 0 ==> Elapsed(st'.slots[j].first, now) < 1_000_000_000_000_000_000_000)
        && (st'.slots[j].valid >= c.k ==> c.stab != 0 && Elapsed(st'.slots[j].last, now) < c.stab)
  {
    TickByAge(c, st, override, now);
  }

  // ---------------------------------------------------------------------------
  // A push
  // ---------------------------------------------------------------------------

  /** The slot once the symbol is stored in it. */
  ghost predicate StoredIn(s: Slot, s': Slot, sym: Symbol, now: int)
    requires sym.fecId < |s.mask| && sym.fecId < |s.block.symbols|
  {
    && s'.state == s.state && s'.id == s.id && s'.first == s.first && s'.last == now && s'.valid == s.valid + 1
    && s'.mask == s.mask[sym.fecId := true] && s'.block.symbols == s.block.symbols[sym.fecId := sym]
    && s'.block.count == s.valid + 1 && s'.block.id == s.block.id && s'.block.capacity == s.block.capacity
    && s'.block.k == s.block.k
  }

  /** A new symbol of a block in hand is stored, and the block is then settled by the configured age. */
  lemma PushByAge(c: Config, st: State, sym: Symbol, now: int, i: nat) returns (s: Slot)
    requires ValidConfig(c) && Inv(c, st) && i < |st.slots| && st.slots[i].state == Filling
    requires st.slots[i].id == sym.packetId && sym.len <= c.size && sym.fecId < c.n && !(sym.packetId == 0 && sym.len == 0)
    requires |st.slots[i].mask| == |st.slots[i].block.symbols| == c.n && !st.slots[i].mask[sym.fecId]
    ensures StoredIn(st.slots[i], s, sym, now)
    ensures Settles(c, st.(slots := st.slots[i := s]), Push(c, st, sym, now).0, i, now)
    ensures Push(c, st, sym, now).1 == if Due(c, s, now) then 1 else 0
  {
    s := StoreSymbol(st.slots[i], sym, now);
    FoundHere(st.slots, i);
    FreezeSettles(c, st.(slots := st.slots[i := s]), i, now);
    hide FreezeSlot, StoreSymbol;
  }

  lemma FoundHere(slots: seq<Slot>, i: nat)
    requires Unique(slots) && i < |slots| && slots[i].state != Empty
    ensures FindSlot(slots, slots[i].id) == i
  {
  }

  /** The first symbol of a block that is not in hand. */
  lemma PushStarts(c: Config, st: State, sym: Symbol, now: int) returns (a: nat)
    requires ValidConfig(c) && Inv(c, st)
    requires sym.len <= c.size && sym.fecId < c.n && !(sym.packetId == 0 && sym.len == 0)
    requires forall j :: 0 <= j < |st.slots| && st.slots[j].state != Empty ==> st.slots[j].id != sym.packetId
    ensures a < |st.slots|
    ensures var s := Push(c, st, sym, now).0.slots[a];
      && s.id == sym.packetId && s.valid == 1 && s.first == s.last == now
      && s.state == if c.k == 1 && c.stab <= 0 then Ready else Filling
    ensures forall j :: 0 <= j < |st.slots| && j != a ==> Push(c, st, sym, now).0.slots[j] == st.slots[j]
  {
    assert FindSlot(st.slots, sym.packetId) == |st.slots|;
    a := AllocIndex(st.slots, now);
    Invariant.AllocAlwaysSucceeds(st, now);
    Invariant.OccupyVacates(c, st, a, sym.packetId, now);
    var occupied := Occupy(c, st, a, sym.packetId, now);
    var s' := StoreSymbol(occupied.slots[a], sym, now);
    FreezeSettles(c, occupied.(slots := occupied.slots[a := s']), a, now);
    hide FreezeSlot, Occupy, AllocIndex;
  }
}
