/**
 Specification of the deinterleaver's block lifecycle (src/deinterleaver.c): a fixed set of slots,
 each Empty, Filling or Ready, driven by pushes, ticks and acknowledgements.
 */
module DeinterleaverSpec {
  import opened Types

  /** `age` limits are in the clock's unit; stab and maxAge are stabilization_ms and block_max_age_ms. */
  datatype Config = Config(slots: nat, n: nat, k: nat, size: nat, stab: int, maxAge: int)

  ghost predicate ValidConfig(c: Config) {
    1 <= c.slots && 1 <= c.k < c.n <= MAX_SYMBOLS_PER_BLOCK && 0 < c.size
  }

  /** The clock runs in nanoseconds. */
  const NS_PER_MS := 1_000_000
  /** 1.0e15 ms: the age limit used when none is configured. */
  const NO_AGE_LIMIT := 1_000_000_000_000_000 * NS_PER_MS

  datatype BlockState = Empty | Filling | Ready

  /** block_t on the receive path: symbols indexed by fec_id. */
  datatype Block = Block(id: uint32, count: int, capacity: int, k: int, symbols: seq<Symbol>)

  datatype Slot = Slot(
    state: BlockState,
    id: uint32,
    valid: int,
    first: int,
    last: int,
    mask: seq<bool>,
    block: Block)

  datatype Reason =
    | DecodeSuccess
    | DecodeFailed
    | TimeoutBeforeDecode
    | TooManyHoles
    | EvictedBeforeDecode
    | ReadyEvictedBeforeMark

  datatype Final = Final(id: uint32, reason: Reason)

  datatype Stats = Stats(
    duplicate: nat,
    frozen: nat,
    erasure: nat,
    crcFail: nat,
    evictedFilling: nat,
    evictedDone: nat,
    ready: nat,
    failedTimeout: nat,
    failedHoles: nat)

  /** `finals` is the sequence of calls made to the block-final callback. */
  datatype State = State(slots: seq<Slot>, stats: Stats, finals: seq<Final>)

  // ---------------------------------------------------------------------------
  // Slots
  // ---------------------------------------------------------------------------

  function NoMarks(n: nat): (m: seq<bool>)
    ensures |m| == n && forall i :: 0 <= i < n ==> !m[i]
  {
    seq(n, _ => false)
  }

  function NewSlot(n: nat): Slot {
    Slot(Empty, 0, 0, 0, 0, NoMarks(n), Block(0, 0, 0, 0, seq(n, _ => Symbol(0, 0, 0, 0, 0, 0, []))))
  }

  /** slot_reset: the symbol storage is left as it is. */
  function ResetSlot(s: Slot): Slot {
    Slot(Empty, 0, 0, 0, 0, NoMarks(|s.mask|), Block(0, 0, 0, 0, s.block.symbols))
  }

  /** init_slot: only the packet ids of the stored symbols are cleared. */
  function InitSlot(s: Slot, id: uint32, c: Config, now: int): Slot {
    Slot(Filling, id, 0, now, now, s.mask, Block(id, 0, c.n, c.k, ClearIds(s.block.symbols)))
  }

  function ClearIds(symbols: seq<Symbol>): (cleared: seq<Symbol>)
    ensures |cleared| == |symbols|
    ensures forall i :: 0 <= i < |symbols| ==> cleared[i] == symbols[i].(packetId := 0)
  {
    seq(|symbols|, i requires 0 <= i < |symbols| => symbols[i].(packetId := 0))
  }

  function StoreSymbol(s: Slot, sym: Symbol, now: int): Slot
    requires sym.fecId < |s.mask| && sym.fecId < |s.block.symbols|
  {
    s.(valid := s.valid + 1, last := now, mask := s.mask[sym.fecId := true],
       block := s.block.(count := s.valid + 1, symbols := s.block.symbols[sym.fecId := sym]))
  }

  /** find_slot_any, from index i on: the first active slot with the id, or |slots|. */
  function FindSlotFrom(slots: seq<Slot>, id: uint32, i: nat): (j: nat)
    requires i <= |slots|
    ensures i <= j <= |slots|
    ensures j < |slots| ==> slots[j].state != Empty && slots[j].id == id
    ensures forall a :: i <= a < j ==> slots[a].state == Empty || slots[a].id != id
    decreases |slots| - i
  {
    if i == |slots| || (slots[i].state != Empty && slots[i].id == id) then i else FindSlotFrom(slots, id, i + 1)
  }

  function FindSlot(slots: seq<Slot>, id: uint32): (j: nat)
    ensures j <= |slots|
  {
    FindSlotFrom(slots, id, 0)
  }

  /** The first slot in the state at or after i, or |slots|. */
  function FirstIn(slots: seq<Slot>, state: BlockState, i: nat): (j: nat)
    requires i <= |slots|
    ensures i <= j <= |slots|
    ensures j < |slots| ==> slots[j].state == state
    ensures forall a :: i <= a < j ==> slots[a].state != state
    decreases |slots| - i
  {
    if i == |slots| || slots[i].state == state then i else FirstIn(slots, state, i + 1)
  }

  /** The first of the oldest slots in the state among the first i, or |slots|. */
  function OldestIn(slots: seq<Slot>, state: BlockState, now: int, i: nat): (j: nat)
    requires i <= |slots|
    ensures j < i || j == |slots|
  {
    if i == 0 then |slots|
    else
      var j := OldestIn(slots, state, now, i - 1);
      if slots[i - 1].state == state &&
         (j == |slots| || Elapsed(slots[i - 1].first, now) > Elapsed(slots[j].first, now))
      then i - 1 else j
  }

  /** It is what it says: in the state, and no other slot in the state is older, nor as old and earlier. */
  lemma {:induction false} OldestIsOldest(slots: seq<Slot>, state: BlockState, now: int, i: nat)
    requires i <= |slots|
    ensures var j := OldestIn(slots, state, now, i);
      && (j == |slots| ==> forall a :: 0 <= a < i ==> slots[a].state != state)
      && (j < i ==> slots[j].state == state)
      && (j < i ==> forall a :: 0 <= a < i && slots[a].state == state ==>
            Elapsed(slots[a].first, now) <= Elapsed(slots[j].first, now))
      && (j < i ==> forall a :: 0 <= a < j && slots[a].state == state ==>
            Elapsed(slots[a].first, now) < Elapsed(slots[j].first, now))
  {
    hide Elapsed;
    if i > 0 { OldestIsOldest(slots, state, now, i - 1); }
  }

  /** How many of the first i slots are in the state. */
  function CountIn(slots: seq<Slot>, state: BlockState, i: nat): (count: nat)
    requires i <= |slots|
    ensures count <= i
  {
    if i == 0 then 0 else CountIn(slots, state, i - 1) + if slots[i - 1].state == state then 1 else 0
  }

  // ---------------------------------------------------------------------------
  // Transitions
  // ---------------------------------------------------------------------------

  datatype FreezeOutcome = Stay | Promote | Recycle(reason: Reason)

  /** maybe_freeze_slot, on a Filling slot holding `valid` symbols. */
  function FreezeRule(c: Config, valid: int, first: int, last: int, timeout: int, now: int): FreezeOutcome
    requires ValidConfig(c)
  {
    var holes := c.n - valid;
    var m := c.n - c.k;
    if valid == c.n then Promote
    else if valid >= c.k && c.stab == 0 then
      (if holes > m then Recycle(TooManyHoles) else Promote)
    else if valid >= c.k && Elapsed(last, now) >= c.stab then
      (if holes > m then Recycle(TooManyHoles) else Promote)
    else if Elapsed(first, now) >= timeout then
      (if valid >= c.k && holes <= m then Promote
       else if holes > m then Recycle(TooManyHoles)
       else Recycle(TimeoutBeforeDecode))
    else Stay
  }

  function CountFailure(stats: Stats, reason: Reason): Stats {
    if reason == TooManyHoles then stats.(failedHoles := stats.failedHoles + 1)
    else stats.(failedTimeout := stats.failedTimeout + 1)
  }

  /** finalize_and_reset_slot. */
  function Finalize(st: State, i: nat, reason: Reason): State
    requires i < |st.slots|
  {
    State(st.slots[i := ResetSlot(st.slots[i])], st.stats, st.finals + [Final(st.slots[i].id, reason)])
  }

  /** Evaluate the exit conditions of slot i and carry out the outcome. */
  function FreezeSlot(c: Config, st: State, i: nat, timeout: int, now: int): (st': State)
    requires ValidConfig(c) && i < |st.slots|
  {
    var s := st.slots[i];
    if s.state != Filling then st
    else
      match FreezeRule(c, s.valid, s.first, s.last, timeout, now)
      case Stay => st
      case Promote =>
        State(st.slots[i := s.(state := Ready)], st.stats.(ready := st.stats.ready + 1), st.finals)
      case Recycle(reason) =>
        Finalize(st.(stats := CountFailure(st.stats, reason)), i, reason)
  }

  /** The slot alloc_slot picks: a free one, else the oldest Ready, else the oldest Filling. */
  function AllocIndex(slots: seq<Slot>, now: int): (i: nat)
    ensures i <= |slots|
  {
    var free := FirstIn(slots, Empty, 0);
    var ready := OldestIn(slots, Ready, now, |slots|);
    if free < |slots| then free
    else if ready < |slots| then ready
    else OldestIn(slots, Filling, now, |slots|)
  }

  /** alloc_slot, once slot i has been picked. */
  function Occupy(c: Config, st: State, i: nat, id: uint32, now: int): (st': State)
    requires i < |st.slots|
    ensures |st'.slots| == |st.slots|
  {
    var s := st.slots[i];
    var cleared :=
      match s.state
      case Empty => st.(slots := st.slots[i := ResetSlot(s)])
      case Ready =>
        Finalize(st.(stats := st.stats.(evictedDone := st.stats.evictedDone + 1)), i, ReadyEvictedBeforeMark)
      case Filling =>
        Finalize(st.(stats := st.stats.(evictedFilling := st.stats.evictedFilling + 1)), i, EvictedBeforeDecode);
    cleared.(slots := cleared.slots[i := InitSlot(cleared.slots[i], id, c, now)])
  }

  function AgeLimit(c: Config): int {
    if c.maxAge > 0 then c.maxAge else NO_AGE_LIMIT
  }

  predicate IsErasure(sym: Symbol) {
    sym.packetId == 0 && sym.len == 0
  }

  predicate Acceptable(c: Config, sym: Symbol) {
    sym.len <= c.size && sym.fecId < c.n
  }

  /** The store-and-evaluate tail of push_symbol, once the slot is known. */
  function PushInto(c: Config, st: State, i: nat, sym: Symbol, now: int): (res: (State, int))
    requires ValidConfig(c) && i < |st.slots| && Acceptable(c, sym)
    requires |st.slots[i].mask| == |st.slots[i].block.symbols| == c.n
  {
    if st.slots[i].mask[sym.fecId] then
      (st.(stats := st.stats.(duplicate := st.stats.duplicate + 1)), 0)
    else
      var stored := st.(slots := st.slots[i := StoreSymbol(st.slots[i], sym, now)]);
      var st' := FreezeSlot(c, stored, i, AgeLimit(c), now);
      (st', if st'.slots[i].state == Ready then 1 else 0)
  }

  function Push(c: Config, st: State, sym: Symbol, now: int): (res: (State, int))
    requires ValidConfig(c) && Shaped(c, st.slots)
  {
    if IsErasure(sym) then (st.(stats := st.stats.(erasure := st.stats.erasure + 1)), 0)
    else if !Acceptable(c, sym) then (st, -1)
    else
      var i := FindSlot(st.slots, sym.packetId);
      if i < |st.slots| then
        if st.slots[i].state != Filling
        then (st.(stats := st.stats.(frozen := st.stats.frozen + 1)), 0)
        else PushInto(c, st, i, sym, now)
      else
        var a := AllocIndex(st.slots, now);
        if a == |st.slots| then (st, if FirstIn(st.slots, Ready, 0) < |st.slots| then 1 else -1)
        else PushInto(c, Occupy(c, st, a, sym.packetId, now), a, sym, now)
  }

  /** tick's effective age limit: a negative override selects the configured one. */
  function TickLimit(c: Config, override: int): int {
    if override >= 0 then override else AgeLimit(c)
  }

  /** tick after its first i slots. */
  function TickUpTo(c: Config, st: State, limit: int, now: int, i: nat): (st': State)
    requires ValidConfig(c) && i <= |st.slots|
    ensures |st'.slots| == |st.slots|
  {
    if i == 0 then st else FreezeSlot(c, TickUpTo(c, st, limit, now, i - 1), i - 1, limit, now)
  }

  function Tick(c: Config, st: State, override: int, now: int): (st': State)
    requires ValidConfig(c)
    ensures |st'.slots| == |st.slots|
  {
    TickUpTo(c, st, TickLimit(c, override), now, |st.slots|)
  }

  /** How many of the first i slots differ in state. */
  function Changes(a: seq<Slot>, b: seq<Slot>, i: nat): nat
    requires i <= |a| && i <= |b|
  {
    if i == 0 then 0 else Changes(a, b, i - 1) + if a[i - 1].state != b[i - 1].state then 1 else 0
  }

  lemma {:induction false} ChangesSame(a: seq<Slot>, b: seq<Slot>, b': seq<Slot>, i: nat)
    requires i <= |a| && i <= |b| && i <= |b'| && forall j :: 0 <= j < i ==> b[j].state == b'[j].state
    ensures Changes(a, b, i) == Changes(a, b', i)
  {
    if i > 0 { ChangesSame(a, b, b', i - 1); }
  }

  /** mark_result: 0 when the block was Ready, -1 otherwise. */
  function Mark(st: State, id: uint32, success: bool): (res: (State, int)) {
    var i := FindSlot(st.slots, id);
    if i == |st.slots| || st.slots[i].state != Ready then (st, -1)
    else (Finalize(st, i, if success then DecodeSuccess else DecodeFailed), 0)
  }

  // ---------------------------------------------------------------------------
  // The invariant
  // ---------------------------------------------------------------------------

  ghost predicate Shaped(c: Config, slots: seq<Slot>) {
    |slots| == c.slots && forall i :: 0 <= i < |slots| ==> |slots[i].mask| == |slots[i].block.symbols| == c.n
  }

  /** How many of the first i bits are set. */
  function CountMarks(mask: seq<bool>, i: nat): (count: nat)
    requires i <= |mask|
    ensures count <= i
  {
    if i == 0 then 0 else CountMarks(mask, i - 1) + if mask[i - 1] then 1 else 0
  }

  /** The stored symbols of an active slot sit at their own fec_id, and nowhere else. */
  ghost predicate Stored(c: Config, s: Slot)
    requires |s.mask| == |s.block.symbols| == c.n
  {
    && s.block.id == s.id && s.block.count == s.valid && s.block.capacity == c.n && s.block.k == c.k
    && (forall f :: 0 <= f < c.n && s.mask[f] ==>
          && s.block.symbols[f].packetId == s.id && s.block.symbols[f].fecId == f
          && s.block.symbols[f].len <= c.size && !IsErasure(s.block.symbols[f]))
    && (forall f :: 0 <= f < c.n && !s.mask[f] ==> s.block.symbols[f].packetId == 0)
  }

  ghost predicate SlotOk(c: Config, s: Slot) {
    && |s.mask| == |s.block.symbols| == c.n
    && s.valid == CountMarks(s.mask, c.n)
    && (s.state == Empty ==> s.id == 0 && s.mask == NoMarks(c.n))
    && (s.state != Empty ==> Stored(c, s))
    && (s.state == Filling ==> 1 <= s.valid < c.n)
    && (s.state == Ready ==> c.k <= s.valid)
  }

  ghost predicate Unique(slots: seq<Slot>) {
    forall i, j {:trigger slots[i].id, slots[j].id} ::
      0 <= i < j < |slots| && slots[i].state != Empty && slots[j].state != Empty ==> slots[i].id != slots[j].id
  }

  ghost predicate Inv(c: Config, st: State) {
    && |st.slots| == c.slots
    && (forall i :: 0 <= i < |st.slots| ==> SlotOk(c, st.slots[i]))
    && Unique(st.slots)
  }

  function InitState(c: Config): State {
    State(seq(c.slots, _ => NewSlot(c.n)), Stats(0, 0, 0, 0, 0, 0, 0, 0, 0), [])
  }
}
