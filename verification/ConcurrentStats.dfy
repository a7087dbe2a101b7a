/** Burst statistics under threads (src/stats.c): atomic operations in any order, weak swaps that may fail for no reason. */
module ConcurrentStatistics {
  import BurstStatistics

  /** Where a thread stands inside stats_record_symbol or stats_finalize_burst. */
  datatype Pc =
    | Idle
    | CountLost
    | GrowBurst
    | TakeBurst
    | CountBurst(len: nat)
    | AddLength(len: nat)
    | LoadMax(len: nat)
    | SwapMax(len: nat, seen: nat)
    | FillBucket(len: nat)
    | LoadSlot(len: nat)
    | SwapSlot(len: nat, slot: nat)
    | WriteSample(len: nat, slot: nat)
    | DropSample(len: nat)
    | LoadSpan(len: nat)
    | CountCritical(len: nat)
    | CountExceeding(len: nat)
    | CountRecoverable(len: nat)

  /** The shared counters. `taken` is the history of burst lengths taken by the exchange. */
  datatype Shared = Shared(
    total: nat,
    lost: nat,
    current: nat,
    bursts: nat,
    sum: nat,
    max: nat,
    buckets: seq<nat>,
    recorded: nat,
    samples: map<nat, nat>,
    dropped: nat,
    recoverable: nat,
    critical: nat,
    exceeding: nat,
    taken: seq<nat>)

  datatype System = System(shared: Shared, threads: seq<Pc>)

  /** What the scheduled thread does: start a call when idle, else its next atomic operation. */
  datatype Action = RecordLost | RecordReceived | Finalize | Proceed(spurious: bool)

  function Start(a: Action, sh: Shared): (Shared, Pc) {
    match a
    case RecordLost => (sh.(total := sh.total + 1), CountLost)
    case RecordReceived => (sh.(total := sh.total + 1), TakeBurst)
    case Finalize => (sh, TakeBurst)
    case Proceed(_) => (sh, Idle)
  }

  /** One atomic operation of a thread that is inside a call. */
  function Operate(span: nat, sh: Shared, pc: Pc, spurious: bool): (r: (Shared, Pc))
    requires |sh.buckets| == BurstStatistics.BUCKETS
    ensures |r.0.buckets| == BurstStatistics.BUCKETS
  {
    match pc
    case Idle => (sh, Idle)
    case CountLost => (sh.(lost := sh.lost + 1), GrowBurst)
    case GrowBurst => (sh.(current := sh.current + 1), Idle)
    case TakeBurst =>
      if sh.current == 0 then (sh, Idle)
      else (sh.(current := 0, taken := sh.taken + [sh.current]), CountBurst(sh.current))
    case CountBurst(len) => (sh.(bursts := sh.bursts + 1), AddLength(len))
    case AddLength(len) => (sh.(sum := sh.sum + len), LoadMax(len))
    case LoadMax(len) => (sh, if len > sh.max then SwapMax(len, sh.max) else FillBucket(len))
    case SwapMax(len, seen) =>
      if sh.max == seen && !spurious then (sh.(max := len), FillBucket(len))
      else (sh, if len > sh.max then SwapMax(len, sh.max) else FillBucket(len))
    case FillBucket(len) =>
      var b := BurstStatistics.Bucket(len);
      (sh.(buckets := sh.buckets[b := sh.buckets[b] + 1]), LoadSlot(len))
    case LoadSlot(len) =>
      (sh, if sh.recorded < BurstStatistics.MAX_BURST_SAMPLES then SwapSlot(len, sh.recorded) else DropSample(len))
    case SwapSlot(len, slot) =>
      if sh.recorded == slot && !spurious then (sh.(recorded := slot + 1), WriteSample(len, slot))
      else (sh, if sh.recorded < BurstStatistics.MAX_BURST_SAMPLES then SwapSlot(len, sh.recorded) else DropSample(len))
    case WriteSample(len, slot) => (sh.(samples := sh.samples[slot := len]), LoadSpan(len))
    case DropSample(len) => (sh.(dropped := sh.dropped + 1), LoadSpan(len))
    case LoadSpan(len) => (sh, if span > 0 && len > span then CountCritical(len) else CountRecoverable(len))
    case CountCritical(len) => (sh.(critical := sh.critical + 1), CountExceeding(len))
    case CountExceeding(len) => (sh.(exceeding := sh.exceeding + 1), Idle)
    case CountRecoverable(len) => (sh.(recoverable := sh.recoverable + 1), Idle)
  }

  function Step(span: nat, s: System, t: nat, a: Action): (s': System)
    requires t < |s.threads| && |s.shared.buckets| == BurstStatistics.BUCKETS
    ensures |s'.threads| == |s.threads| && |s'.shared.buckets| == BurstStatistics.BUCKETS
  {
    var (sh, pc) :=
      match a
      case Proceed(spurious) => Operate(span, s.shared, s.threads[t], spurious)
      case _ => if s.threads[t].Idle? then Start(a, s.shared) else (s.shared, s.threads[t]);
    System(sh, s.threads[t := pc])
  }

  function Initially(threads: nat): System {
    System(Shared(0, 0, 0, 0, 0, 0, [0, 0, 0, 0, 0, 0, 0], 0, map[], 0, 0, 0, 0, []), seq(threads, _ => Idle))
  }

  /** The system after a schedule: which thread moves, and how, at every step. */
  function Run(span: nat, threads: nat, schedule: seq<(nat, Action)>): (s: System)
    requires forall i :: 0 <= i < |schedule| ==> schedule[i].0 < threads
    ensures |s.threads| == threads && |s.shared.buckets| == BurstStatistics.BUCKETS
  {
    if schedule == [] then Initially(threads)
    else
      var last := schedule[|schedule| - 1];
      Step(span, Run(span, threads, schedule[..|schedule| - 1]), last.0, last.1)
  }

  // ---------------------------------------------------------------------------
  // What threads still owe
  // ---------------------------------------------------------------------------

  /** The part of the work on a taken burst still ahead of a thread: 9 right after the exchange, 0 at the end. */
  function Ahead(pc: Pc): nat {
    match pc
    case CountBurst(_) => 9
    case AddLength(_) => 8
    case LoadMax(_) => 7
    case SwapMax(_, _) => 7
    case FillBucket(_) => 6
    case LoadSlot(_) => 5
    case SwapSlot(_, _) => 5
    case WriteSample(_, _) => 4
    case DropSample(_) => 5
    case LoadSpan(_) => 3
    case CountCritical(_) => 2
    case CountRecoverable(_) => 2
    case CountExceeding(_) => 1
    case _ => 0
  }

  function Len(pc: Pc): nat {
    match pc
    case CountBurst(len) => len
    case AddLength(len) => len
    case LoadMax(len) => len
    case SwapMax(len, _) => len
    case FillBucket(len) => len
    case LoadSlot(len) => len
    case SwapSlot(len, _) => len
    case WriteSample(len, _) => len
    case DropSample(len) => len
    case LoadSpan(len) => len
    case CountCritical(len) => len
    case CountExceeding(len) => len
    case CountRecoverable(len) => len
    case _ => 0
  }

  /** The weight a burst of the length adds to some counter. */
  type Weight = nat -> nat

  /** What the threads at stage at least `stage` will still add. */
  function Owed(threads: seq<Pc>, stage: nat, w: Weight, i: nat): nat
    requires i <= |threads|
  {
    if i == 0 then 0
    else Owed(threads, stage, w, i - 1) + if Ahead(threads[i - 1]) >= stage then w(Len(threads[i - 1])) else 0
  }

  /** The weight of all bursts taken so far. */
  function Weigh(taken: seq<nat>, w: Weight): nat {
    if taken == [] then 0 else Weigh(taken[..|taken| - 1], w) + w(taken[|taken| - 1])
  }

  /** A counter of weight w that is updated on leaving the stage: what it holds and what is owed make up all bursts. */
  ghost predicate Settles(s: System, value: nat, stage: nat, w: Weight) {
    value + Owed(s.threads, stage, w, |s.threads|) == Weigh(s.shared.taken, w)
  }

  function Share(pc: Pc, stage: nat, w: Weight): nat {
    if Ahead(pc) >= stage then w(Len(pc)) else 0
  }

  lemma {:induction false} OwedUpdate(threads: seq<Pc>, t: nat, pc: Pc, stage: nat, w: Weight, i: nat)
    requires t < |threads| && i <= |threads|
    ensures Owed(threads[t := pc], stage, w, i) + (if t < i then Share(threads[t], stage, w) else 0)
         == Owed(threads, stage, w, i) + if t < i then Share(pc, stage, w) else 0
  {
    if i > 0 { OwedUpdate(threads, t, pc, stage, w, i - 1); }
  }

  lemma WeighAppend(taken: seq<nat>, len: nat, w: Weight)
    ensures Weigh(taken + [len], w) == Weigh(taken, w) + w(len)
  {
    assert (taken + [len])[..|taken|] == taken;
  }

  lemma {:induction false} NothingOwed(threads: seq<Pc>, stage: nat, w: Weight, i: nat)
    requires i <= |threads| && stage >= 1 && forall t :: 0 <= t < i ==> threads[t].Idle?
    ensures Owed(threads, stage, w, i) == 0
  {
    if i > 0 { NothingOwed(threads, stage, w, i - 1); }
  }

  /** Threads between counting a loss and growing the burst. */
  function Growing(threads: seq<Pc>, i: nat): nat
    requires i <= |threads|
  {
    if i == 0 then 0 else Growing(threads, i - 1) + if threads[i - 1].GrowBurst? then 1 else 0
  }

  lemma {:induction false} GrowingUpdate(threads: seq<Pc>, t: nat, pc: Pc, i: nat)
    requires t < |threads| && i <= |threads|
    ensures Growing(threads[t := pc], i) + (if t < i && threads[t].GrowBurst? then 1 else 0)
         == Growing(threads, i) + if t < i && pc.GrowBurst? then 1 else 0
  {
    if i > 0 { GrowingUpdate(threads, t, pc, i - 1); }
  }

  const ONE: Weight := (len: nat) => 1
  const ITSELF: Weight := (len: nat) => len

  function InBucket(b: nat): Weight {
    (len: nat) => if BurstStatistics.Bucket(len) == b then 1 else 0
  }

  function Over(span: nat): Weight {
    (len: nat) => if span > 0 && len > span then 1 else 0
  }

  // ---------------------------------------------------------------------------
  // The invariant
  // ---------------------------------------------------------------------------

  /** Every counter and the work still owed to it account for every burst taken. */
  ghost predicate Accounts(span: nat, s: System) {
    && Settles(s, s.shared.bursts, 9, ONE)
    && Settles(s, s.shared.sum, 8, ITSELF)
    && |s.shared.buckets| == BurstStatistics.BUCKETS
    && (forall b :: 0 <= b < BurstStatistics.BUCKETS ==> Settles(s, s.shared.buckets[b], 6, InBucket(b)))
    && Settles(s, s.shared.recorded + s.shared.dropped, 5, ONE)
    && Settles(s, s.shared.critical, 2, Over(span))
    && Settles(s, s.shared.exceeding, 1, Over(span))
    && Settles(s, s.shared.recoverable + s.shared.critical, 2, ONE)
  }

  /** Every lost symbol is in the current burst, in a taken burst, or about to join the current one. */
  ghost predicate LossesConserved(s: System) {
    s.shared.lost == s.shared.current + Weigh(s.shared.taken, ITSELF) + Growing(s.threads, |s.threads|)
  }

  /** One thread's move changes what is owed by that thread's share alone. */
  lemma SettlesOn(s: System, s': System, t: nat, value: nat, value': nat, stage: nat, w: Weight)
    requires Settles(s, value, stage, w) && t < |s.threads| == |s'.threads|
    requires s'.threads == s.threads[t := s'.threads[t]]
    requires s'.shared.taken == s.shared.taken
    requires value' + Share(s'.threads[t], stage, w) == value + Share(s.threads[t], stage, w)
    ensures Settles(s', value', stage, w)
  {
    OwedUpdate(s.threads, t, s'.threads[t], stage, w, |s.threads|);
  }

  /** Taking a burst puts its whole weight in debt. */
  lemma SettlesTaken(s: System, s': System, t: nat, value: nat, stage: nat, w: Weight, len: nat)
    requires Settles(s, value, stage, w) && t < |s.threads| && s'.threads == s.threads[t := CountBurst(len)]
    requires s'.shared.taken == s.shared.taken + [len] && 1 <= stage <= 9 && Ahead(s.threads[t]) == 0
    ensures Settles(s', value, stage, w)
  {
    OwedUpdate(s.threads, t, CountBurst(len), stage, w, |s.threads|);
    WeighAppend(s.shared.taken, len, w);
  }

  lemma TakeAccounts(span: nat, s: System, s': System, t: nat, len: nat)
    requires Accounts(span, s) && t < |s.threads| && s'.threads == s.threads[t := CountBurst(len)]
    requires Ahead(s.threads[t]) == 0
    requires s'.shared == s.shared.(current := s'.shared.current, taken := s.shared.taken + [len])
    ensures Accounts(span, s')
  {
    hide Settles;
    SettlesTaken(s, s', t, s.shared.bursts, 9, ONE, len);
    SettlesTaken(s, s', t, s.shared.sum, 8, ITSELF, len);
    forall b | 0 <= b < BurstStatistics.BUCKETS ensures Settles(s', s'.shared.buckets[b], 6, InBucket(b)) {
      SettlesTaken(s, s', t, s.shared.buckets[b], 6, InBucket(b), len);
    }
    SettlesTaken(s, s', t, s.shared.recorded + s.shared.dropped, 5, ONE, len);
    SettlesTaken(s, s', t, s.shared.critical, 2, Over(span), len);
    SettlesTaken(s, s', t, s.shared.exceeding, 1, Over(span), len);
    SettlesTaken(s, s', t, s.shared.recoverable + s.shared.critical, 2, ONE, len);
  }

  /** A move that takes no burst pays exactly what the thread stops owing: to the tallies of all bursts, */
  ghost predicate PaysTallies(sh: Shared, o: Pc, sh': Shared, n: Pc)
    requires |sh.buckets| == |sh'.buckets| == BurstStatistics.BUCKETS
  {
    && sh'.bursts + Share(n, 9, ONE) == sh.bursts + Share(o, 9, ONE)
    && sh'.sum + Share(n, 8, ITSELF) == sh.sum + Share(o, 8, ITSELF)
    && (forall b :: 0 <= b < BurstStatistics.BUCKETS ==>
          sh'.buckets[b] + Share(n, 6, InBucket(b)) == sh.buckets[b] + Share(o, 6, InBucket(b)))
  }

  /** to the samples, */
  ghost predicate PaysSamples(sh: Shared, o: Pc, sh': Shared, n: Pc) {
    sh'.recorded + sh'.dropped + Share(n, 5, ONE) == sh.recorded + sh.dropped + Share(o, 5, ONE)
  }

  /** and to the classes. */
  ghost predicate PaysClasses(span: nat, sh: Shared, o: Pc, sh': Shared, n: Pc) {
    && sh'.critical + Share(n, 2, Over(span)) == sh.critical + Share(o, 2, Over(span))
    && sh'.exceeding + Share(n, 1, Over(span)) == sh.exceeding + Share(o, 1, Over(span))
    && sh'.recoverable + sh'.critical + Share(n, 2, ONE) == sh.recoverable + sh.critical + Share(o, 2, ONE)
  }

  lemma PayAccounts(span: nat, s: System, s': System, t: nat)
    requires Accounts(span, s) && t < |s.threads| == |s'.threads| && s'.threads == s.threads[t := s'.threads[t]]
    requires |s'.shared.buckets| == BurstStatistics.BUCKETS && s'.shared.taken == s.shared.taken
    requires PaysTallies(s.shared, s.threads[t], s'.shared, s'.threads[t])
    requires PaysSamples(s.shared, s.threads[t], s'.shared, s'.threads[t])
    requires PaysClasses(span, s.shared, s.threads[t], s'.shared, s'.threads[t])
    ensures Accounts(span, s')
  {
    hide Settles, Share;
    SettlesOn(s, s', t, s.shared.bursts, s'.shared.bursts, 9, ONE);
    SettlesOn(s, s', t, s.shared.sum, s'.shared.sum, 8, ITSELF);
    forall b | 0 <= b < BurstStatistics.BUCKETS ensures Settles(s', s'.shared.buckets[b], 6, InBucket(b)) {
      SettlesOn(s, s', t, s.shared.buckets[b], s'.shared.buckets[b], 6, InBucket(b));
    }
    SettlesOn(s, s', t, s.shared.recorded + s.shared.dropped, s'.shared.recorded + s'.shared.dropped, 5, ONE);
    SettlesOn(s, s', t, s.shared.critical, s'.shared.critical, 2, Over(span));
    SettlesOn(s, s', t, s.shared.exceeding, s'.shared.exceeding, 1, Over(span));
    SettlesOn(s, s', t, s.shared.recoverable + s.shared.critical, s'.shared.recoverable + s'.shared.critical, 2, ONE);
  }

  ghost predicate Takes(s: System, t: nat, a: Action)
    requires t < |s.threads|
  {
    a.Proceed? && s.threads[t].TakeBurst? && s.shared.current > 0
  }

  /** An atomic operation other than taking a burst. */
  ghost predicate Ordinary(sh: Shared, pc: Pc) {
    |sh.buckets| == BurstStatistics.BUCKETS && !(pc.TakeBurst? && sh.current > 0)
  }

  lemma OperateTallies(span: nat, sh: Shared, pc: Pc, spurious: bool)
    requires Ordinary(sh, pc)
    ensures var (sh', n) := Operate(span, sh, pc, spurious); PaysTallies(sh, pc, sh', n)
  {
    hide BurstStatistics.Bucket;
  }

  lemma OperateSamples(span: nat, sh: Shared, pc: Pc, spurious: bool)
    requires Ordinary(sh, pc)
    ensures var (sh', n) := Operate(span, sh, pc, spurious); PaysSamples(sh, pc, sh', n)
  {
    hide BurstStatistics.Bucket;
  }

  /** A thread that has chosen a class has chosen the right one. */
  predicate Classed(span: nat, pc: Pc) {
    match pc
    case CountCritical(len) => span > 0 && len > span
    case CountExceeding(len) => span > 0 && len > span
    case CountRecoverable(len) => !(span > 0 && len > span)
    case _ => true
  }

  ghost predicate AllClassed(span: nat, s: System) {
    forall t :: 0 <= t < |s.threads| ==> Classed(span, s.threads[t])
  }

  lemma StepClassed(span: nat, s: System, t: nat, a: Action)
    requires t < |s.threads| && |s.shared.buckets| == BurstStatistics.BUCKETS && AllClassed(span, s)
    ensures AllClassed(span, Step(span, s, t, a))
  {
    hide BurstStatistics.Bucket;
  }

  lemma OperateClasses(span: nat, sh: Shared, pc: Pc, spurious: bool)
    requires Ordinary(sh, pc) && Classed(span, pc)
    ensures var (sh', n) := Operate(span, sh, pc, spurious);
      PaysClasses(span, sh, pc, sh', n) && sh'.taken == sh.taken
  {
    hide BurstStatistics.Bucket;
  }

  lemma StepAccounts(span: nat, s: System, t: nat, a: Action)
    requires t < |s.threads| && Accounts(span, s) && AllClassed(span, s)
    ensures Accounts(span, Step(span, s, t, a))
  {
    hide Classed, Accounts, PaysTallies, PaysSamples, PaysClasses, Operate;
    BucketsThere(span, s);
    var s' := Step(span, s, t, a);
    if Takes(s, t, a) {
      TakeIs(span, s, t, a);
      TakeAccounts(span, s, s', t, s.shared.current);
    } else if a.Proceed? {
      OperateTallies(span, s.shared, s.threads[t], a.spurious);
      OperateSamples(span, s.shared, s.threads[t], a.spurious);
      OperateClasses(span, s.shared, s.threads[t], a.spurious);
      PayAccounts(span, s, s', t);
    } else {
      StartPays(span, s, t, a);
      PayAccounts(span, s, s', t);
    }
  }

  lemma TakeIs(span: nat, s: System, t: nat, a: Action)
    requires t < |s.threads| && |s.shared.buckets| == BurstStatistics.BUCKETS && Takes(s, t, a)
    ensures var s' := Step(span, s, t, a);
      && s'.threads == s.threads[t := CountBurst(s.shared.current)] && Ahead(s.threads[t]) == 0
      && s'.shared == s.shared.(current := 0, taken := s.shared.taken + [s.shared.current])
  {
  }

  lemma StartPays(span: nat, s: System, t: nat, a: Action)
    requires t < |s.threads| && |s.shared.buckets| == BurstStatistics.BUCKETS && !a.Proceed?
    ensures var s' := Step(span, s, t, a);
      && PaysTallies(s.shared, s.threads[t], s'.shared, s'.threads[t])
      && PaysSamples(s.shared, s.threads[t], s'.shared, s'.threads[t])
      && PaysClasses(span, s.shared, s.threads[t], s'.shared, s'.threads[t])
      && s'.shared.taken == s.shared.taken
  {
    hide BurstStatistics.Bucket, Operate;
  }

  lemma BucketsThere(span: nat, s: System)
    requires Accounts(span, s)
    ensures |s.shared.buckets| == BurstStatistics.BUCKETS
  {
  }

  lemma StepConserves(span: nat, s: System, t: nat, a: Action)
    requires t < |s.threads| && |s.shared.buckets| == BurstStatistics.BUCKETS && LossesConserved(s)
    ensures LossesConserved(Step(span, s, t, a))
  {
    var s' := Step(span, s, t, a);
    GrowingUpdate(s.threads, t, s'.threads[t], |s.threads|);
    if Takes(s, t, a) { WeighAppend(s.shared.taken, s.shared.current, ITSELF); }
  }

  // ---------------------------------------------------------------------------
  // The sample slots
  // ---------------------------------------------------------------------------

  /** A thread that has not finished with the maximum for its burst. */
  predicate Comparing(pc: Pc) {
    Ahead(pc) >= 7
  }

  predicate Writes(pc: Pc, k: nat) {
    pc.WriteSample? && pc.slot == k
  }

  ghost predicate WriterOf(threads: seq<Pc>, k: nat) {
    exists t :: 0 <= t < |threads| && Writes(threads[t], k)
  }

  ghost predicate OneWriter(threads: seq<Pc>) {
    forall t, u {:trigger threads[t], threads[u]} :: 0 <= t < u < |threads| && threads[t].WriteSample? ==>
      !Writes(threads[u], threads[t].slot)
  }

  ghost predicate Dropping(threads: seq<Pc>) {
    exists t :: 0 <= t < |threads| && threads[t].DropSample?
  }

  /** Slots seen free are within the array. */
  ghost predicate SwapsInRange(threads: seq<Pc>) {
    forall t :: 0 <= t < |threads| && threads[t].SwapSlot? ==> threads[t].slot < BurstStatistics.MAX_BURST_SAMPLES
  }

  /** A slot is below `recorded` exactly when it is written or has a writer. */
  ghost predicate Handed(recorded: nat, samples: map<nat, nat>, threads: seq<Pc>) {
    forall k: nat :: k < recorded <==> k in samples || WriterOf(threads, k)
  }

  /** No writer's slot is written yet. */
  ghost predicate Unwritten(samples: map<nat, nat>, threads: seq<Pc>) {
    forall t :: 0 <= t < |threads| && threads[t].WriteSample? ==> threads[t].slot !in samples
  }

  /** Every slot is handed out once. */
  ghost predicate SlotsOnce(s: System) {
    && s.shared.recorded <= BurstStatistics.MAX_BURST_SAMPLES && SwapsInRange(s.threads) && OneWriter(s.threads)
    && Handed(s.shared.recorded, s.shared.samples, s.threads) && Unwritten(s.shared.samples, s.threads)
  }

  /** Samples are dropped only once every slot is taken. */
  ghost predicate DropsWhenFull(s: System) {
    s.shared.dropped > 0 || Dropping(s.threads) ==> s.shared.recorded == BurstStatistics.MAX_BURST_SAMPLES
  }

  lemma StepDrops(span: nat, s: System, t: nat, a: Action)
    requires t < |s.threads| && |s.shared.buckets| == BurstStatistics.BUCKETS && SlotsOnce(s) && DropsWhenFull(s)
    ensures DropsWhenFull(Step(span, s, t, a))
  {
    hide OneWriter, WriterOf;
    var s' := Step(span, s, t, a);
    if Dropping(s'.threads) {
      var u :| 0 <= u < |s'.threads| && s'.threads[u].DropSample?;
      if u != t { assert s.threads[u] == s'.threads[u]; }
    }
    if s.threads[t].DropSample? { assert Dropping(s.threads); }
  }

  /** A thread that is not a writer before or after changes no slot's writer. */
  lemma SameWriters(threads: seq<Pc>, t: nat, pc: Pc)
    requires t < |threads| && !threads[t].WriteSample? && !pc.WriteSample? && OneWriter(threads)
    ensures OneWriter(threads[t := pc]) && forall k :: WriterOf(threads[t := pc], k) <==> WriterOf(threads, k)
  {
    var after := threads[t := pc];
    forall k ensures WriterOf(after, k) <==> WriterOf(threads, k) {
      if WriterOf(after, k) {
        var u :| 0 <= u < |after| && Writes(after[u], k);
        assert Writes(threads[u], k);
      }
      if WriterOf(threads, k) {
        var u :| 0 <= u < |threads| && Writes(threads[u], k);
        assert Writes(after[u], k);
      }
    }
  }

  /** The winner of the swap becomes the new slot's writer. */
  lemma NewWriter(threads: seq<Pc>, t: nat, len: nat, slot: nat)
    requires t < |threads| && !threads[t].WriteSample? && OneWriter(threads) && !WriterOf(threads, slot)
    ensures var after := threads[t := WriteSample(len, slot)];
      OneWriter(after) && forall k :: WriterOf(after, k) <==> WriterOf(threads, k) || k == slot
  {
    var after := threads[t := WriteSample(len, slot)];
    assert Writes(after[t], slot);
    assert forall u :: 0 <= u < |threads| ==> !Writes(threads[u], slot);
    forall k ensures WriterOf(after, k) <==> WriterOf(threads, k) || k == slot {
      if WriterOf(after, k) {
        var u :| 0 <= u < |after| && Writes(after[u], k);
        if u != t { assert Writes(threads[u], k); }
      }
      if WriterOf(threads, k) {
        var u :| 0 <= u < |threads| && Writes(threads[u], k);
        assert Writes(after[u], k);
      }
    }
  }

  /** A writer that is done leaves its slot to no other. */
  lemma DoneWriter(threads: seq<Pc>, t: nat, pc: Pc)
    requires t < |threads| && threads[t].WriteSample? && !pc.WriteSample? && OneWriter(threads)
    ensures var after := threads[t := pc];
      OneWriter(after) && forall k :: WriterOf(threads, k) <==> WriterOf(after, k) || k == threads[t].slot
    ensures var after := threads[t := pc];
      forall u :: 0 <= u < |after| && after[u].WriteSample? ==> after[u].slot != threads[t].slot
  {
    var after, slot := threads[t := pc], threads[t].slot;
    assert Writes(threads[t], slot);
    forall u | 0 <= u < |after| ensures !Writes(after[u], slot) {
      if u < t { assert threads[u].WriteSample? ==> !Writes(threads[t], threads[u].slot); }
      if u > t { assert !Writes(threads[u], threads[t].slot); }
    }
    forall k ensures WriterOf(threads, k) <==> WriterOf(after, k) || k == slot {
      if WriterOf(after, k) {
        var u :| 0 <= u < |after| && Writes(after[u], k);
        assert Writes(threads[u], k);
      }
      if WriterOf(threads, k) {
        var u :| 0 <= u < |threads| && Writes(threads[u], k);
        if u != t { assert Writes(after[u], k); }
      }
    }
  }

  /** How one step touches the slots, by what the thread was and becomes. */
  lemma StepWrites(span: nat, s: System, t: nat, a: Action)
    requires t < |s.threads| && |s.shared.buckets| == BurstStatistics.BUCKETS && SlotsOnce(s)
    ensures var s' := Step(span, s, t, a);
      var o, n, sh, sh' := s.threads[t], s'.threads[t], s.shared, s'.shared;
      && s'.threads == s.threads[t := n]
      && (n.SwapSlot? ==> n.slot < BurstStatistics.MAX_BURST_SAMPLES)
      && (if o.WriteSample? && !n.WriteSample? then
            sh'.recorded == sh.recorded && sh'.samples == sh.samples[o.slot := o.len]
          else if n.WriteSample? && !o.WriteSample? then
            n.slot == sh.recorded < BurstStatistics.MAX_BURST_SAMPLES
            && sh'.recorded == sh.recorded + 1 && sh'.samples == sh.samples
          else
            sh'.recorded == sh.recorded && sh'.samples == sh.samples && (o.WriteSample? ==> n == o))
  {
    hide OneWriter, WriterOf, BurstStatistics.Bucket;
  }

  lemma UnwrittenSame(samples: map<nat, nat>, threads: seq<Pc>, t: nat, pc: Pc)
    requires t < |threads| && Unwritten(samples, threads) && !pc.WriteSample?
    ensures Unwritten(samples, threads[t := pc])
  {
  }

  lemma HandedSame(recorded: nat, samples: map<nat, nat>, threads: seq<Pc>, after: seq<Pc>)
    requires Handed(recorded, samples, threads) && forall k: nat :: WriterOf(after, k) <==> WriterOf(threads, k)
    ensures Handed(recorded, samples, after)
  {
    forall k: nat ensures k < recorded <==> k in samples || WriterOf(after, k) {
      assert WriterOf(after, k) <==> WriterOf(threads, k);
    }
  }

  lemma InRangeAfter(threads: seq<Pc>, t: nat, pc: Pc)
    requires t < |threads| && SwapsInRange(threads)
    requires pc.SwapSlot? ==> pc.slot < BurstStatistics.MAX_BURST_SAMPLES
    ensures SwapsInRange(threads[t := pc])
  {
  }

  lemma StepSlots(span: nat, s: System, t: nat, a: Action)
    requires t < |s.threads| && |s.shared.buckets| == BurstStatistics.BUCKETS && SlotsOnce(s)
    ensures SlotsOnce(Step(span, s, t, a))
  {
    hide OneWriter, WriterOf, Step, SwapsInRange;
    StepWrites(span, s, t, a);
    InRangeAfter(s.threads, t, Step(span, s, t, a).threads[t]);
    var s' := Step(span, s, t, a);
    var o, n := s.threads[t], s'.threads[t];
    if o.WriteSample? && !n.WriteSample? {
      DoneWriter(s.threads, t, n);
    } else if n.WriteSample? && !o.WriteSample? {
      assert !(n.slot < s.shared.recorded);
      NewWriter(s.threads, t, n.len, n.slot);
    } else if o.WriteSample? {
      assert s'.threads == s.threads;
    } else {
      SameWriters(s.threads, t, n);
      UnwrittenSame(s.shared.samples, s.threads, t, n);
      HandedSame(s.shared.recorded, s.shared.samples, s.threads, s'.threads);
    }
  }

  // ---------------------------------------------------------------------------
  // The maximum
  // ---------------------------------------------------------------------------

  /** Some thread is still comparing a burst of the length. */
  ghost predicate BeingCompared(threads: seq<Pc>, len: nat) {
    exists t :: 0 <= t < |threads| && Comparing(threads[t]) && Len(threads[t]) == len
  }

  /** A move that does not end a comparison keeps every comparison going. */
  lemma StillCompared(threads: seq<Pc>, t: nat, pc: Pc, len: nat)
    requires t < |threads| && BeingCompared(threads, len)
    requires Comparing(threads[t]) ==> (Comparing(pc) && Len(pc) == Len(threads[t])) || Len(threads[t]) != len
    ensures BeingCompared(threads[t := pc], len)
  {
    var u :| 0 <= u < |threads| && Comparing(threads[u]) && Len(threads[u]) == len;
    var after := threads[t := pc];
    if u != t {
      assert Comparing(after[u]) && Len(after[u]) == len;
    } else {
      assert Comparing(after[t]) && Len(after[t]) == len;
    }
  }

  ghost predicate Covered(s: System, len: nat) {
    len <= s.shared.max || BeingCompared(s.threads, len)
  }

  /** Covered lengths stay covered: the maximum only grows, and a comparison ends below it. */
  lemma StepCovers(span: nat, s: System, t: nat, a: Action, len: nat)
    requires t < |s.threads| && |s.shared.buckets| == BurstStatistics.BUCKETS
    requires s.threads[t].SwapMax? ==> s.threads[t].seen < s.threads[t].len
    requires Covered(s, len)
    ensures Covered(Step(span, s, t, a), len)
  {
    var s' := Step(span, s, t, a);
    assert s'.shared.max >= s.shared.max;
    if len > s'.shared.max {
      StillCompared(s.threads, t, s'.threads[t], len);
    }
  }

  lemma TakenCovered(s: System, t: nat, len: nat)
    requires t < |s.threads| && s.threads[t] == CountBurst(len)
    ensures Covered(s, len)
  {
    assert Comparing(s.threads[t]) && Len(s.threads[t]) == len;
  }

  /** Every taken burst is at most the maximum, or some thread is still comparing it. */
  ghost predicate MaxTracks(s: System) {
    && (forall i :: 0 <= i < |s.shared.taken| ==> Covered(s, s.shared.taken[i]))
    && (s.shared.max == 0 || s.shared.max in s.shared.taken)
    && (forall t :: 0 <= t < |s.threads| && Ahead(s.threads[t]) > 0 ==> Len(s.threads[t]) in s.shared.taken)
    && (forall t :: 0 <= t < |s.threads| && s.threads[t].SwapMax? ==> s.threads[t].seen < s.threads[t].len)
  }

  /** What a thread works on was taken. */
  lemma StepLengths(span: nat, s: System, t: nat, a: Action)
    requires t < |s.threads| && |s.shared.buckets| == BurstStatistics.BUCKETS && MaxTracks(s)
    ensures var s' := Step(span, s, t, a);
      && (forall len :: len in s.shared.taken ==> len in s'.shared.taken)
      && (Ahead(s'.threads[t]) > 0 ==> Len(s'.threads[t]) in s'.shared.taken)
      && (s'.threads[t].SwapMax? ==> s'.threads[t].seen < s'.threads[t].len)
      && (s'.shared.max == s.shared.max || (s'.shared.max == Len(s.threads[t]) && Ahead(s.threads[t]) > 0))
  {
    hide BurstStatistics.Bucket, Covered;
  }

  lemma StepMax(span: nat, s: System, t: nat, a: Action)
    requires t < |s.threads| && |s.shared.buckets| == BurstStatistics.BUCKETS && MaxTracks(s)
    ensures MaxTracks(Step(span, s, t, a))
  {
    StepLengths(span, s, t, a);
    StepTakes(span, s, t, a);
    hide Covered, Step;
    var s' := Step(span, s, t, a);
    forall i | 0 <= i < |s'.shared.taken| ensures Covered(s', s'.shared.taken[i]) {
      if i < |s.shared.taken| {
        StepCovers(span, s, t, a, s.shared.taken[i]);
      } else {
        TakenCovered(s', t, s'.shared.taken[i]);
      }
    }
  }

  /** A step appends at most one taken burst, which its thread then holds. */
  lemma StepTakes(span: nat, s: System, t: nat, a: Action)
    requires t < |s.threads| && |s.shared.buckets| == BurstStatistics.BUCKETS
    ensures var s' := Step(span, s, t, a);
      && |s.shared.taken| <= |s'.shared.taken| <= |s.shared.taken| + 1
      && s'.shared.taken[..|s.shared.taken|] == s.shared.taken
      && (forall i :: |s.shared.taken| <= i < |s'.shared.taken| ==> s'.threads[t] == CountBurst(s'.shared.taken[i]))
      && s'.threads == s.threads[t := s'.threads[t]]
  {
    hide BurstStatistics.Bucket;
  }

  // ---------------------------------------------------------------------------
  // Over every schedule
  // ---------------------------------------------------------------------------

  ghost predicate Invariant(span: nat, s: System) {
    Accounts(span, s) && LossesConserved(s) && MaxTracks(s) && SlotsOnce(s) && DropsWhenFull(s)
    && AllClassed(span, s)
  }

  lemma StartsSound(span: nat, threads: nat)
    ensures Invariant(span, Initially(threads))
  {
    var s := Initially(threads);
    forall stage: nat, w: Weight | stage >= 1 ensures Settles(s, 0, stage, w) {
      NothingOwed(s.threads, stage, w, threads);
    }
    NobodyGrowing(s.threads, threads);
  }

  lemma {:induction false} NobodyGrowing(threads: seq<Pc>, i: nat)
    requires i <= |threads| && forall t :: 0 <= t < i ==> threads[t].Idle?
    ensures Growing(threads, i) == 0
  {
    if i > 0 { NobodyGrowing(threads, i - 1); }
  }

  /** The invariant holds after every schedule of every number of threads. */
  lemma {:induction false} RunSound(span: nat, threads: nat, schedule: seq<(nat, Action)>)
    requires forall i :: 0 <= i < |schedule| ==> schedule[i].0 < threads
    ensures Invariant(span, Run(span, threads, schedule))
  {
    if schedule == [] {
      StartsSound(span, threads);
    } else {
      hide Accounts, LossesConserved, MaxTracks, SlotsOnce, DropsWhenFull, Step, AllClassed;
      var before, last := schedule[..|schedule| - 1], schedule[|schedule| - 1];
      RunSound(span, threads, before);
      var s := Run(span, threads, before);
      StepAccounts(span, s, last.0, last.1);
      StepClassed(span, s, last.0, last.1);
      StepConserves(span, s, last.0, last.1);
      StepMax(span, s, last.0, last.1);
      StepSlots(span, s, last.0, last.1);
      StepDrops(span, s, last.0, last.1);
    }
  }

  ghost predicate Quiet(s: System) {
    forall t :: 0 <= t < |s.threads| ==> s.threads[t].Idle?
  }

  lemma {:induction false} WeighIs(taken: seq<nat>, span: nat)
    ensures Weigh(taken, ONE) == |taken|
    ensures Weigh(taken, ITSELF) == BurstStatistics.Sum(taken)
    ensures forall b :: Weigh(taken, InBucket(b)) == BurstStatistics.InBucket(taken, b)
    ensures Weigh(taken, Over(span)) == BurstStatistics.Exceeding(taken, span)
  {
    if taken != [] { WeighIs(taken[..|taken| - 1], span); }
  }

  /** When all threads have returned, the counters are those of the bursts taken, whatever the schedule was. */
  lemma QuietCounts(span: nat, threads: nat, schedule: seq<(nat, Action)>)
    requires forall i :: 0 <= i < |schedule| ==> schedule[i].0 < threads
    requires Quiet(Run(span, threads, schedule))
    ensures var sh := Run(span, threads, schedule).shared;
      var taken := sh.taken;
      && sh.bursts == |taken| && sh.sum == BurstStatistics.Sum(taken) && sh.lost == sh.current + sh.sum
      && (forall b :: 0 <= b < BurstStatistics.BUCKETS ==> sh.buckets[b] == BurstStatistics.InBucket(taken, b))
      && sh.recorded + sh.dropped == |taken|
      && sh.critical == sh.exceeding == BurstStatistics.Exceeding(taken, span) && sh.recoverable + sh.critical == |taken|
  {
    RunSound(span, threads, schedule);
    var s := Run(span, threads, schedule);
    WeighIs(s.shared.taken, span);
    hide Run, MaxTracks, SlotsOnce, DropsWhenFull;
    forall stage: nat, w: Weight | stage >= 1 ensures Owed(s.threads, stage, w, |s.threads|) == 0 {
      NothingOwed(s.threads, stage, w, |s.threads|);
    }
    NobodyGrowing(s.threads, |s.threads|);
  }

  /** When all threads have returned: the maximum is the longest burst, and every slot below `recorded` holds one sample. */
  lemma QuietSamples(span: nat, threads: nat, schedule: seq<(nat, Action)>)
    requires forall i :: 0 <= i < |schedule| ==> schedule[i].0 < threads
    requires Quiet(Run(span, threads, schedule))
    ensures var sh := Run(span, threads, schedule).shared;
      && sh.max == BurstStatistics.Max(sh.taken)
      && (forall k: nat :: k in sh.samples <==> k < sh.recorded)
      && sh.recorded == BurstStatistics.Smaller(|sh.taken|, BurstStatistics.MAX_BURST_SAMPLES)
  {
    RunSound(span, threads, schedule);
    QuietCounts(span, threads, schedule);
    var s := Run(span, threads, schedule);
    hide Run, Accounts, LossesConserved;
    forall i | 0 <= i < |s.shared.taken| ensures s.shared.taken[i] <= s.shared.max {
      assert Covered(s, s.shared.taken[i]);
    }
    var m := BurstStatistics.Max(s.shared.taken);
    assert s.shared.max <= m;
  }

  lemma {:induction false} TakenPositive(span: nat, threads: nat, schedule: seq<(nat, Action)>)
    requires forall i :: 0 <= i < |schedule| ==> schedule[i].0 < threads
    ensures forall j :: 0 <= j < |Run(span, threads, schedule).shared.taken| ==> Run(span, threads, schedule).shared.taken[j] > 0
  {
    hide BurstStatistics.Bucket;
    if schedule != [] { TakenPositive(span, threads, schedule[..|schedule| - 1]); }
  }

  /** When all threads have returned, each bucket counts the bursts taken whose lengths lie within its bounds. */
  lemma QuietBuckets(span: nat, threads: nat, schedule: seq<(nat, Action)>)
    requires forall i :: 0 <= i < |schedule| ==> schedule[i].0 < threads
    requires Quiet(Run(span, threads, schedule))
    ensures var sh := Run(span, threads, schedule).shared;
      && sh.buckets == BurstStatistics.Spread(sh.taken)
      && sh.critical == if span > 0 then BurstStatistics.AtLeast(sh.taken, span + 1) else 0
  {
    QuietCounts(span, threads, schedule);
    TakenPositive(span, threads, schedule);
    hide Run, Quiet, BurstStatistics.Spread, BurstStatistics.InBucket;
    var taken := Run(span, threads, schedule).shared.taken;
    BurstStatistics.ExceedingSpan(taken, span);
    BurstStatistics.SpreadSize(taken);
    forall b: nat | b < BurstStatistics.BUCKETS ensures BurstStatistics.InBucket(taken, b) == BurstStatistics.Spread(taken)[b] {
      BurstStatistics.BucketSpread(taken, b);
    }
  }
}
