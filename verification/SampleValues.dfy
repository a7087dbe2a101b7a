/** What the threads of src/stats.c leave in the sample slots: lengths of bursts that were taken. */
module SampleValues {
  import BurstStatistics
  import opened ConcurrentStatistics

  /** The weight of the written slots below n. */
  function Held(samples: map<nat, nat>, w: Weight, n: nat): nat {
    if n == 0 then 0
    else Held(samples, w, n - 1) + if n - 1 in samples then w(samples[n - 1]) else 0
  }

  lemma {:induction false} HeldAfter(samples: map<nat, nat>, w: Weight, k: nat, len: nat, n: nat)
    requires k !in samples
    ensures Held(samples[k := len], w, n) == Held(samples, w, n) + if k < n then w(len) else 0
  {
    if n > 0 { HeldAfter(samples, w, k, len, n - 1); }
  }

  lemma {:induction false} NothingHeld(w: Weight, n: nat)
    ensures Held(map[], w, n) == 0
  {
    if n > 0 { NothingHeld(w, n - 1); }
  }

  ghost function Stored(s: System, w: Weight): nat {
    Held(s.shared.samples, w, BurstStatistics.MAX_BURST_SAMPLES)
  }

  /** What the threads have still to store or drop: a sample is settled on entering the classification. */
  ghost function Owing(s: System, w: Weight): nat {
    Owed(s.threads, 4, w, |s.threads|)
  }

  /** Stored and pending samples weigh no more than the bursts taken, and as much unless one was dropped. */
  ghost predicate Placed(s: System, w: Weight) {
    && Stored(s, w) + Owing(s, w) <= Weigh(s.shared.taken, w)
    && (s.shared.dropped == 0 ==> Stored(s, w) + Owing(s, w) == Weigh(s.shared.taken, w))
  }

  /** A writer's slot is within the array and not written yet. */
  lemma WriterSlot(s: System, t: nat)
    requires t < |s.threads| && SlotsOnce(s) && s.threads[t].WriteSample?
    ensures s.threads[t].slot !in s.shared.samples && s.threads[t].slot < BurstStatistics.MAX_BURST_SAMPLES
  {
    hide OneWriter, SwapsInRange;
    assert Writes(s.threads[t], s.threads[t].slot);
    assert WriterOf(s.threads, s.threads[t].slot);
  }

  /** How one operation touches the slots, the drop counter and the history, by the thread's place before and after. */
  ghost predicate Moves(sh: Shared, o: Pc, sh': Shared, n: Pc) {
    if o.WriteSample? && n.LoadSpan? then
      sh'.samples == sh.samples[o.slot := o.len] && sh'.dropped == sh.dropped && sh'.taken == sh.taken
    else if o.DropSample? && n.LoadSpan? then
      sh'.samples == sh.samples && sh'.dropped == sh.dropped + 1 && sh'.taken == sh.taken
    else if o.TakeBurst? && n.CountBurst? then
      sh'.samples == sh.samples && sh'.dropped == sh.dropped && sh'.taken == sh.taken + [n.len]
    else
      && sh'.samples == sh.samples && sh'.dropped == sh.dropped && sh'.taken == sh.taken
      && (Ahead(o) >= 4 <==> Ahead(n) >= 4) && (Ahead(o) >= 4 ==> Len(n) == Len(o))
  }

  lemma OperateMoves(span: nat, sh: Shared, pc: Pc, spurious: bool)
    requires |sh.buckets| == BurstStatistics.BUCKETS
    ensures var (sh', n) := Operate(span, sh, pc, spurious); Moves(sh, pc, sh', n)
  {
    hide BurstStatistics.Bucket;
  }

  lemma StepMoves(span: nat, s: System, t: nat, a: Action)
    requires t < |s.threads| && |s.shared.buckets| == BurstStatistics.BUCKETS
    ensures var s' := Step(span, s, t, a);
      s'.threads == s.threads[t := s'.threads[t]] && Moves(s.shared, s.threads[t], s'.shared, s'.threads[t])
  {
    if a.Proceed? {
      OperateMoves(span, s.shared, s.threads[t], a.spurious);
      hide Moves, Operate;
    } else {
      hide Operate;
    }
  }

  lemma StepPlaces(span: nat, s: System, t: nat, a: Action, w: Weight)
    requires t < |s.threads| && |s.shared.buckets| == BurstStatistics.BUCKETS && SlotsOnce(s) && Placed(s, w)
    ensures Placed(Step(span, s, t, a), w)
  {
    StepMoves(span, s, t, a);
    var s' := Step(span, s, t, a);
    var o, n := s.threads[t], s'.threads[t];
    hide SlotsOnce, Step, Owed, Held, Weigh;
    OwedUpdate(s.threads, t, n, 4, w, |s.threads|);
    if o.WriteSample? && n.LoadSpan? {
      WriterSlot(s, t);
      HeldAfter(s.shared.samples, w, o.slot, o.len, BurstStatistics.MAX_BURST_SAMPLES);
    } else if o.TakeBurst? && n.CountBurst? {
      WeighAppend(s.shared.taken, n.len, w);
    }
  }

  lemma {:induction false} RunPlaces(span: nat, threads: nat, schedule: seq<(nat, Action)>, w: Weight)
    requires forall i :: 0 <= i < |schedule| ==> schedule[i].0 < threads
    ensures Placed(Run(span, threads, schedule), w)
  {
    if schedule == [] {
      NothingOwed(Initially(threads).threads, 4, w, threads);
      NothingHeld(w, BurstStatistics.MAX_BURST_SAMPLES);
    } else {
      var before, last := schedule[..|schedule| - 1], schedule[|schedule| - 1];
      RunSound(span, threads, before);
      RunPlaces(span, threads, before, w);
      hide Placed, Step, SlotsOnce, Accounts, LossesConserved, MaxTracks, DropsWhenFull, AllClassed;
      StepPlaces(span, Run(span, threads, before), last.0, last.1, w);
    }
  }

  /** Counts occurrences of one length. */
  function Is(l: nat): Weight {
    (len: nat) => if len == l then 1 else 0
  }

  lemma {:induction false} WeighIsCount(taken: seq<nat>, l: nat)
    ensures Weigh(taken, Is(l)) == multiset(taken)[l]
  {
    if taken != [] {
      WeighIsCount(taken[..|taken| - 1], l);
      assert taken == taken[..|taken| - 1] + [taken[|taken| - 1]];
    }
  }

  /**
   When all threads have returned, whatever the schedule was: a length is in no more slots than bursts
   of that length were taken, and in exactly as many while the slots suffice for all bursts.
   */
  lemma QuietValues(span: nat, threads: nat, schedule: seq<(nat, Action)>, l: nat)
    requires forall i :: 0 <= i < |schedule| ==> schedule[i].0 < threads
    requires Quiet(Run(span, threads, schedule))
    ensures var s := Run(span, threads, schedule);
      && Stored(s, Is(l)) <= multiset(s.shared.taken)[l]
      && (|s.shared.taken| <= BurstStatistics.MAX_BURST_SAMPLES ==> Stored(s, Is(l)) == multiset(s.shared.taken)[l])
  {
    RunPlaces(span, threads, schedule, Is(l));
    QuietCounts(span, threads, schedule);
    QuietSamples(span, threads, schedule);
    var s := Run(span, threads, schedule);
    hide Run, Held;
    NothingOwed(s.threads, 4, Is(l), |s.threads|);
    WeighIsCount(s.shared.taken, l);
  }
}
