/** Burst statistics (src/stats.c) as one thread records them: the counters describe the maximal runs of losses. */
module BurstStatistics {

  const MAX_BURST_SAMPLES := 4096
  const BUCKETS := 7

  /** The bucket of a burst length: 1, 2-5, 6-10, 11-50, 51-100, 101-500, 501 and up. */
  function Bucket(len: nat): (b: nat)
    ensures b < BUCKETS
  {
    if len == 1 then 0 else if len <= 5 then 1 else if len <= 10 then 2 else if len <= 50 then 3
    else if len <= 100 then 4 else if len <= 500 then 5 else 6
  }

  datatype Counters = Counters(
    total: nat,
    lost: nat,
    current: nat,
    bursts: nat,
    sum: nat,
    max: nat,
    buckets: seq<nat>,
    samples: seq<nat>,
    dropped: nat,
    recoverable: nat,
    critical: nat,
    exceeding: nat)

  function NoCounts(): Counters {
    Counters(0, 0, 0, 0, 0, 0, [0, 0, 0, 0, 0, 0, 0], [], 0, 0, 0, 0)
  }

  // ---------------------------------------------------------------------------
  // The program
  // ---------------------------------------------------------------------------

  /** What closing a burst of the length does to the counters. */
  function Close(c: Counters, len: nat, span: nat): Counters
    requires |c.buckets| == BUCKETS
  {
    if len == 0 then c.(current := 0)
    else
      c.(current := 0,
         bursts := c.bursts + 1,
         sum := c.sum + len,
         max := if len > c.max then len else c.max,
         buckets := c.buckets[Bucket(len) := c.buckets[Bucket(len)] + 1],
         samples := if |c.samples| < MAX_BURST_SAMPLES then c.samples + [len] else c.samples,
         dropped := if |c.samples| < MAX_BURST_SAMPLES then c.dropped else c.dropped + 1,
         critical := if span > 0 && len > span then c.critical + 1 else c.critical,
         exceeding := if span > 0 && len > span then c.exceeding + 1 else c.exceeding,
         recoverable := if span > 0 && len > span then c.recoverable else c.recoverable + 1)
  }

  function Record(c: Counters, lost: bool, span: nat): Counters
    requires |c.buckets| == BUCKETS
  {
    if lost then c.(total := c.total + 1, lost := c.lost + 1, current := c.current + 1)
    else Close(c.(total := c.total + 1), c.current, span)
  }

  class BurstStats {
    var span: nat
    var total: nat
    var lost: nat
    var current: nat
    var bursts: nat
    var sum: nat
    var max: nat
    const buckets: array<nat>
    const samples: array<nat>
    var recorded: nat
    var dropped: nat
    var recoverable: nat
    var critical: nat
    var exceeding: nat

    ghost predicate Valid()
      reads this
    {
      buckets.Length == BUCKETS && samples.Length == MAX_BURST_SAMPLES && recorded <= MAX_BURST_SAMPLES
      && buckets != samples
    }

    ghost function View(): Counters
      requires Valid()
      reads this, buckets, samples
    {
      Counters(total, lost, current, bursts, sum, max, buckets[..], samples[..recorded], dropped, recoverable, critical,
               exceeding)
    }

    constructor (span: nat)
      ensures Valid() && View() == NoCounts() && this.span == span && fresh(buckets) && fresh(samples)
    {
      this.span := span;
      total, lost, current, bursts, sum, max := 0, 0, 0, 0, 0, 0;
      buckets := new nat[BUCKETS](_ => 0);
      samples := new nat[MAX_BURST_SAMPLES];
      recorded, dropped, recoverable, critical, exceeding := 0, 0, 0, 0, 0;
      new;
      assert buckets[..] == [0, 0, 0, 0, 0, 0, 0];
    }

    /** stats_update_max, uncontended. */
    method UpdateMax(candidate: nat)
      modifies this`max
      ensures max == if candidate > old(max) then candidate else old(max)
    {
      if candidate > max { max := candidate; }
    }

    /** stats_bucket_burst_length. */
    method BucketBurst(len: nat)
      requires Valid()
      modifies buckets
      ensures buckets[..] == old(buckets[..])[Bucket(len) := old(buckets[Bucket(len)]) + 1]
    {
      if len == 1 { buckets[0] := buckets[0] + 1; }
      else if len <= 5 { buckets[1] := buckets[1] + 1; }
      else if len <= 10 { buckets[2] := buckets[2] + 1; }
      else if len <= 50 { buckets[3] := buckets[3] + 1; }
      else if len <= 100 { buckets[4] := buckets[4] + 1; }
      else if len <= 500 { buckets[5] := buckets[5] + 1; }
      else { buckets[6] := buckets[6] + 1; }
    }

    /** stats_store_burst_sample, uncontended. */
    method StoreSample(len: nat)
      requires Valid()
      modifies this`recorded, this`dropped, samples
      ensures Valid()
      ensures if old(recorded) < MAX_BURST_SAMPLES
              then samples[..recorded] == old(samples[..recorded]) + [len] && dropped == old(dropped)
              else recorded == old(recorded) && samples[..] == old(samples[..]) && dropped == old(dropped) + 1
    {
      if recorded < MAX_BURST_SAMPLES {
        samples[recorded] := len;
        recorded := recorded + 1;
      } else {
        dropped := dropped + 1;
      }
    }

    /** The counters of a closed burst, up to its class. */
    method CountBurst(len: nat)
      requires Valid()
      modifies this`bursts, this`sum, this`max, buckets
      ensures Valid()
      ensures bursts == old(bursts) + 1 && sum == old(sum) + len
      ensures max == if len > old(max) then len else old(max)
      ensures buckets[..] == old(buckets[..])[Bucket(len) := old(buckets[Bucket(len)]) + 1]
    {
      hide Bucket;
      bursts := bursts + 1;
      sum := sum + len;
      UpdateMax(len);
      BucketBurst(len);
    }

    /** stats_close_current_burst. */
    method CloseCurrentBurst()
      requires Valid()
      modifies this`current, this`bursts, this`sum, this`max, this`recorded, this`dropped, this`recoverable,
        this`critical, this`exceeding, buckets, samples
      ensures Valid() && View() == Close(old(View()), old(current), span)
    {
      hide Bucket;
      var len := current;
      current := 0;
      if len == 0 { return; }
      CountBurst(len);
      StoreSample(len);
      Classify(len);
    }

    /** The class of a closed burst. */
    method Classify(len: nat)
      modifies this`recoverable, this`critical, this`exceeding
      ensures var over := span > 0 && len > span;
        && critical == old(critical) + (if over then 1 else 0) && exceeding == old(exceeding) + (if over then 1 else 0)
        && recoverable == old(recoverable) + if over then 0 else 1
    {
      if span > 0 && len > span {
        critical := critical + 1;
        exceeding := exceeding + 1;
      } else {
        recoverable := recoverable + 1;
      }
    }

    /** stats_record_symbol. */
    method RecordSymbol(isLost: bool)
      requires Valid()
      modifies this`total, this`lost, this`current, this`bursts, this`sum, this`max, this`recorded, this`dropped,
        this`recoverable, this`critical, this`exceeding, buckets, samples
      ensures Valid() && View() == Record(old(View()), isLost, span)
    {
      total := total + 1;
      if isLost {
        lost := lost + 1;
        current := current + 1;
        return;
      }
      CloseCurrentBurst();
    }

    /** stats_finalize_burst. */
    method FinalizeBurst()
      requires Valid()
      modifies this`current, this`bursts, this`sum, this`max, this`recorded, this`dropped, this`recoverable,
        this`critical, this`exceeding, buckets, samples
      ensures Valid() && View() == Close(old(View()), old(current), span)
    {
      CloseCurrentBurst();
    }
  }

  // ---------------------------------------------------------------------------
  // Maximal runs of losses
  // ---------------------------------------------------------------------------

  datatype Run = Run(start: nat, end: nat)

  /** A maximal run of losses: all lost, and not extensible at either end. */
  ghost predicate IsRun(s: seq<bool>, r: Run) {
    && r.start < r.end <= |s|
    && (forall i :: r.start <= i < r.end ==> s[i])
    && (r.start == 0 || !s[r.start - 1])
    && (r.end == |s| || !s[r.end])
  }

  /** The runs of a stream, in order. */
  function Runs(s: seq<bool>): (rs: seq<Run>)
    ensures forall i :: 0 <= i < |rs| ==> rs[i].start < rs[i].end <= |s|
    ensures s != [] && s[|s| - 1] ==> rs != [] && rs[|rs| - 1].end == |s|
    ensures s != [] && !s[|s| - 1] ==> forall i :: 0 <= i < |rs| ==> rs[i].end < |s|
  {
    if s == [] then []
    else
      var n, p := |s| - 1, s[..|s| - 1];
      var rs := Runs(p);
      if !s[n] then rs
      else if p != [] && p[|p| - 1] then rs[..|rs| - 1] + [Run(rs[|rs| - 1].start, n + 1)]
      else rs + [Run(n, n + 1)]
  }

  ghost predicate Apart(rs: seq<Run>) {
    forall i, j {:trigger rs[i].end, rs[j].start} :: 0 <= i < j < |rs| ==> rs[i].end < rs[j].start
  }

  /** rs lists exactly the maximal runs of s. */
  ghost predicate Lists(rs: seq<Run>, s: seq<bool>) {
    forall r :: r in rs <==> IsRun(s, r)
  }

  /** Runs lists exactly the maximal runs, in order and apart. */
  lemma {:induction false} RunsAreMaximal(s: seq<bool>)
    ensures Lists(Runs(s), s) && Apart(Runs(s))
  {
    if s != [] {
      var p := s[..|s| - 1];
      RunsAreMaximal(p);
      if !s[|s| - 1] { GapLists(s); }
      else if p != [] && p[|p| - 1] { ExtendedLists(s); }
      else { BegunLists(s); }
    }
  }

  /** A received symbol ends no run that was not already ended. */
  lemma GapLists(s: seq<bool>)
    requires s != [] && !s[|s| - 1] && Lists(Runs(s[..|s| - 1]), s[..|s| - 1])
    ensures Lists(Runs(s), s)
  {
    hide Runs, IsRun;
    GapRuns(s);
    forall r ensures r in Runs(s) <==> IsRun(s, r) { GapRun(s, r); }
  }

  lemma GapRuns(s: seq<bool>)
    requires s != [] && !s[|s| - 1]
    ensures Runs(s) == Runs(s[..|s| - 1])
  {
  }

  lemma GapRun(s: seq<bool>, r: Run)
    requires s != [] && !s[|s| - 1]
    ensures IsRun(s, r) <==> IsRun(s[..|s| - 1], r)
  {
    if IsRun(s, r) { assert r.end < |s|; }
  }

  /** A loss after a received symbol starts a run of one. */
  lemma BegunLists(s: seq<bool>)
    requires s != [] && s[|s| - 1] && (|s| == 1 || !s[|s| - 2])
    requires Lists(Runs(s[..|s| - 1]), s[..|s| - 1]) && Apart(Runs(s[..|s| - 1]))
    ensures Lists(Runs(s), s) && Apart(Runs(s))
  {
    hide Runs, IsRun;
    BegunRuns(s);
    forall r ensures r in Runs(s) <==> IsRun(s, r) { BegunRun(s, r); }
  }

  lemma BegunRuns(s: seq<bool>)
    requires s != [] && s[|s| - 1] && (|s| == 1 || !s[|s| - 2])
    ensures var n, p := |s| - 1, s[..|s| - 1];
      Runs(s) == Runs(p) + [Run(n, n + 1)] && forall i :: 0 <= i < |Runs(p)| ==> Runs(p)[i].end < n
  {
  }

  lemma BegunRun(s: seq<bool>, r: Run)
    requires s != [] && s[|s| - 1] && (|s| == 1 || !s[|s| - 2])
    ensures IsRun(s, r) <==> IsRun(s[..|s| - 1], r) || r == Run(|s| - 1, |s|)
  {
    var n := |s| - 1;
    if r.end <= n {
      assert r.start < r.end == n ==> s[n - 1] == false;
    } else if r.start < n {
      assert s[n - 1] == false;
    }
  }

  /** A further loss lengthens the last run. */
  lemma ExtendedLists(s: seq<bool>)
    requires |s| > 1 && s[|s| - 1] && s[|s| - 2]
    requires Lists(Runs(s[..|s| - 1]), s[..|s| - 1]) && Apart(Runs(s[..|s| - 1]))
    ensures Lists(Runs(s), s) && Apart(Runs(s))
  {
    hide Runs, IsRun;
    ExtendedApart(s);
    forall r ensures r in Runs(s) <==> IsRun(s, r) { ExtendedRun(s, r); }
  }

  lemma ExtendedApart(s: seq<bool>)
    requires |s| > 1 && s[|s| - 1] && s[|s| - 2] && Apart(Runs(s[..|s| - 1]))
    ensures Apart(Runs(s))
  {
    hide Runs;
    ExtendedRuns(s);
  }

  lemma ExtendedRun(s: seq<bool>, r: Run)
    requires |s| > 1 && s[|s| - 1] && s[|s| - 2]
    requires Lists(Runs(s[..|s| - 1]), s[..|s| - 1]) && Apart(Runs(s[..|s| - 1]))
    ensures r in Runs(s) <==> IsRun(s, r)
  {
    hide Runs, IsRun, Apart;
    var n, p := |s| - 1, s[..|s| - 1];
    var rs := Runs(p);
    ExtendedRuns(s);
    var last := rs[|rs| - 1];
    assert last in rs;
    RunLengthened(s, r);
    EarlierRuns(rs, r);
    if r.end == n + 1 && r.start < n && IsRun(p, Run(r.start, n)) { OneLastRun(p, last, Run(r.start, n)); }
  }

  lemma ExtendedRuns(s: seq<bool>)
    requires |s| > 1 && s[|s| - 1] && s[|s| - 2]
    ensures var n, rs := |s| - 1, Runs(s[..|s| - 1]);
      && rs != [] && rs[|rs| - 1].end == n && (forall i :: 0 <= i < |rs| ==> rs[i].start < rs[i].end)
      && Runs(s) == rs[..|rs| - 1] + [Run(rs[|rs| - 1].start, n + 1)]
  {
  }

  lemma RunLengthened(s: seq<bool>, r: Run)
    requires |s| > 1 && s[|s| - 1] && s[|s| - 2]
    ensures var n, p := |s| - 1, s[..|s| - 1];
      IsRun(s, r) <==> if r.end == n + 1 then r.start < n && IsRun(p, Run(r.start, n)) else IsRun(p, r) && r.end < n
  {
    var n, p := |s| - 1, s[..|s| - 1];
    assert forall i :: 0 <= i < n ==> s[i] == p[i];
  }

  /** Only one run of a stream can reach its end. */
  lemma OneLastRun(p: seq<bool>, a: Run, b: Run)
    requires IsRun(p, a) && IsRun(p, b) && a.end == b.end
    ensures a == b
  {
    assert b.start == 0 || !p[b.start - 1];
    assert a.start == 0 || !p[a.start - 1];
  }

  /** All but the last run end before the last one does. */
  lemma EarlierRuns(rs: seq<Run>, r: Run)
    requires rs != [] && Apart(rs) && forall i :: 0 <= i < |rs| ==> rs[i].start < rs[i].end
    ensures r in rs[..|rs| - 1] <==> r in rs && r.end < rs[|rs| - 1].end
  {
    if r in rs && r.end < rs[|rs| - 1].end {
      var i :| 0 <= i < |rs| && rs[i] == r;
      assert rs[..|rs| - 1][i] == r;
    }
  }

  // ---------------------------------------------------------------------------
  // What the counters say
  // ---------------------------------------------------------------------------

  /** The counters after a stream of symbols, each lost or received. */
  function Replay(s: seq<bool>, span: nat): (c: Counters)
    ensures |c.buckets| == BUCKETS
  {
    if s == [] then NoCounts() else Record(Replay(s[..|s| - 1], span), s[|s| - 1], span)
  }

  function Losses(s: seq<bool>): nat {
    if s == [] then 0 else Losses(s[..|s| - 1]) + if s[|s| - 1] then 1 else 0
  }

  /** The lengths of the runs, in order. */
  function Lengths(rs: seq<Run>): (l: seq<nat>)
    requires forall i :: 0 <= i < |rs| ==> rs[i].start < rs[i].end
    ensures |l| == |rs| && forall i :: 0 <= i < |rs| ==> l[i] == rs[i].end - rs[i].start > 0
  {
    seq(|rs|, i requires 0 <= i < |rs| => rs[i].end - rs[i].start)
  }

  /** The counters after closing bursts of these lengths. */
  function CloseAll(lens: seq<nat>, span: nat): (c: Counters)
    ensures |c.buckets| == BUCKETS
  {
    if lens == [] then NoCounts() else Close(CloseAll(lens[..|lens| - 1], span), lens[|lens| - 1], span)
  }

  /** The length of the run still open at the end of the stream. */
  function OpenLength(s: seq<bool>): nat {
    if s == [] || !s[|s| - 1] then 0 else OpenLength(s[..|s| - 1]) + 1
  }

  /** The lengths of the runs already closed. */
  function ClosedLengths(s: seq<bool>): seq<nat> {
    var l := Lengths(Runs(s));
    if s != [] && s[|s| - 1] then l[..|l| - 1] else l
  }

  /** The last run is the open one. */
  lemma {:induction false} OpenIsLast(s: seq<bool>)
    requires s != [] && s[|s| - 1]
    ensures var l := Lengths(Runs(s)); l[|l| - 1] == OpenLength(s) > 0
  {
    if |s| > 1 && s[|s| - 2] {
      OpenIsLast(s[..|s| - 1]);
      ExtendedRuns(s);
    }
  }

  lemma LengthsAppend(rs: seq<Run>, r: Run)
    requires (forall i :: 0 <= i < |rs| ==> rs[i].start < rs[i].end) && r.start < r.end
    ensures Lengths(rs + [r]) == Lengths(rs) + [r.end - r.start]
  {
  }

  lemma LengthsPrefix(rs: seq<Run>)
    requires rs != [] && forall i :: 0 <= i < |rs| ==> rs[i].start < rs[i].end
    ensures Lengths(rs)[..|rs| - 1] == Lengths(rs[..|rs| - 1])
  {
  }

  lemma GapCloses(s: seq<bool>)
    requires s != [] && !s[|s| - 1]
    ensures var p := s[..|s| - 1];
      ClosedLengths(s) == if OpenLength(p) > 0 then ClosedLengths(p) + [OpenLength(p)] else ClosedLengths(p)
  {
    var p := s[..|s| - 1];
    GapRuns(s);
    if p != [] && p[|p| - 1] { OpenIsLast(p); }
    hide Runs, Lengths;
    assert ClosedLengths(s) == Lengths(Runs(p));
    if OpenLength(p) > 0 {
      var l := Lengths(Runs(p));
      assert l == l[..|l| - 1] + [l[|l| - 1]];
    }
  }

  lemma LossClosesNothing(s: seq<bool>)
    requires s != [] && s[|s| - 1]
    ensures ClosedLengths(s) == ClosedLengths(s[..|s| - 1])
  {
    var n, p := |s| - 1, s[..|s| - 1];
    if n > 0 && s[n - 1] {
      ExtendedRuns(s);
      hide Runs;
      var rs := Runs(p);
      LengthsAppend(rs[..|rs| - 1], Run(rs[|rs| - 1].start, n + 1));
      LengthsPrefix(rs);
      hide Lengths;
      assert ClosedLengths(s) == Lengths(rs[..|rs| - 1]);
    } else {
      BegunRuns(s);
      hide Runs;
      LengthsAppend(Runs(p), Run(n, n + 1));
      hide Lengths;
      assert ClosedLengths(s) == Lengths(Runs(p));
    }
  }

  /** How the closed lengths grow: only by a received symbol after a loss. */
  lemma ClosedGrows(s: seq<bool>)
    requires s != []
    ensures var p := s[..|s| - 1];
      ClosedLengths(s) == if !s[|s| - 1] && OpenLength(p) > 0 then ClosedLengths(p) + [OpenLength(p)] else ClosedLengths(p)
  {
    hide ClosedLengths;
    if s[|s| - 1] { LossClosesNothing(s); } else { GapCloses(s); }
  }

  lemma CloseAllAppend(lens: seq<nat>, len: nat, span: nat)
    ensures CloseAll(lens + [len], span) == Close(CloseAll(lens, span), len, span)
  {
    assert (lens + [len])[..|lens|] == lens;
  }

  /** One more symbol recorded on top of closed bursts and an open one. */
  lemma RecordStep(lens: seq<nat>, open: nat, total: nat, lost: nat, isLost: bool, span: nat)
    ensures Record(CloseAll(lens, span).(total := total, lost := lost, current := open), isLost, span) ==
      if isLost then CloseAll(lens, span).(total := total + 1, lost := lost + 1, current := open + 1)
      else CloseAll(if open > 0 then lens + [open] else lens, span).(total := total + 1, lost := lost, current := 0)
  {
    hide CloseAll;
    CloseAllAppend(lens, open, span);
    CloseAllIdle(lens, span);
  }

  /** While recording: the closed runs are accounted for, the open one is the current burst. */
  lemma {:induction false} ReplayIs(s: seq<bool>, span: nat)
    ensures Replay(s, span)
         == CloseAll(ClosedLengths(s), span).(total := |s|, lost := Losses(s), current := OpenLength(s))
  {
    if s == [] {
      assert ClosedLengths(s) == [];
    } else {
      hide ClosedLengths, CloseAll, Record;
      var p := s[..|s| - 1];
      ReplayIs(p, span);
      ClosedGrows(s);
      RecordStep(ClosedLengths(p), OpenLength(p), |p|, Losses(p), s[|s| - 1], span);
    }
  }

  lemma CloseAllIdle(lens: seq<nat>, span: nat)
    ensures CloseAll(lens, span).current == 0
  {
  }

  function Sum(lens: seq<nat>): nat {
    if lens == [] then 0 else Sum(lens[..|lens| - 1]) + lens[|lens| - 1]
  }

  function Max(lens: seq<nat>): (m: nat)
    ensures forall i :: 0 <= i < |lens| ==> lens[i] <= m
    ensures m == 0 || m in lens
  {
    if lens == [] then 0
    else
      var m, last := Max(lens[..|lens| - 1]), lens[|lens| - 1];
      assert forall i :: 0 <= i < |lens| - 1 ==> lens[..|lens| - 1][i] == lens[i];
      if last > m then last else m
  }

  /** How many lengths fall in bucket b. */
  function InBucket(lens: seq<nat>, b: nat): nat {
    if lens == [] then 0
    else InBucket(lens[..|lens| - 1], b) + if Bucket(lens[|lens| - 1]) == b then 1 else 0
  }

  /** How many lengths exceed a configured span. */
  function Exceeding(lens: seq<nat>, span: nat): (e: nat)
    ensures e <= |lens|
  {
    if lens == [] then 0
    else Exceeding(lens[..|lens| - 1], span) + if span > 0 && lens[|lens| - 1] > span then 1 else 0
  }

  function Smaller(a: nat, b: nat): nat {
    if a <= b then a else b
  }

  /** The counters summarise these burst lengths. */
  ghost predicate Summarises(c: Counters, lens: seq<nat>, span: nat) {
    && c.bursts == |lens| && c.sum == Sum(lens) && c.max == Max(lens)
    && |c.buckets| == BUCKETS && (forall b :: 0 <= b < BUCKETS ==> c.buckets[b] == InBucket(lens, b))
    && c.samples == lens[..Smaller(|lens|, MAX_BURST_SAMPLES)]
    && c.dropped == |lens| - Smaller(|lens|, MAX_BURST_SAMPLES)
    && c.critical == c.exceeding == Exceeding(lens, span) && c.recoverable == |lens| - Exceeding(lens, span)
  }

  lemma Appended(lens: seq<nat>, len: nat, span: nat)
    ensures Sum(lens + [len]) == Sum(lens) + len
    ensures Max(lens + [len]) == if len > Max(lens) then len else Max(lens)
    ensures Exceeding(lens + [len], span) == Exceeding(lens, span) + if span > 0 && len > span then 1 else 0
    ensures forall b :: InBucket(lens + [len], b) == InBucket(lens, b) + if Bucket(len) == b then 1 else 0
  {
    hide Bucket;
    assert (lens + [len])[..|lens|] == lens;
  }

  lemma SamplesAppended(lens: seq<nat>, len: nat)
    ensures (lens + [len])[..Smaller(|lens| + 1, MAX_BURST_SAMPLES)] ==
      if |lens| < MAX_BURST_SAMPLES then lens[..Smaller(|lens|, MAX_BURST_SAMPLES)] + [len]
      else lens[..Smaller(|lens|, MAX_BURST_SAMPLES)]
  {
  }

  /** Closing one more burst adds its length to the summary. */
  lemma CloseSummarises(c: Counters, lens: seq<nat>, len: nat, span: nat)
    requires Summarises(c, lens, span) && len > 0
    ensures Summarises(Close(c, len, span), lens + [len], span)
  {
    Appended(lens, len, span);
    SamplesAppended(lens, len);
    hide Bucket, Sum, Max, Exceeding, InBucket;
  }

  lemma {:induction false} CloseAllSummarises(lens: seq<nat>, span: nat)
    requires forall i :: 0 <= i < |lens| ==> lens[i] > 0
    ensures Summarises(CloseAll(lens, span), lens, span)
  {
    hide Summarises, Close;
    if lens == [] {
      NothingClosed(span);
    } else {
      var n := |lens| - 1;
      CloseAllSummarises(lens[..n], span);
      CloseSummarises(CloseAll(lens[..n], span), lens[..n], lens[n], span);
      assert lens[..n] + [lens[n]] == lens;
    }
  }

  lemma NothingClosed(span: nat)
    ensures Summarises(CloseAll([], span), [], span)
  {
  }

  /** Losses are conserved: the runs' lengths add up to them. */
  lemma {:induction false} LengthsAddUp(s: seq<bool>)
    ensures Sum(ClosedLengths(s)) + OpenLength(s) == Losses(s)
  {
    if s == [] {
      assert ClosedLengths(s) == [];
    } else {
      LengthsAddUp(s[..|s| - 1]);
      ClosedGrows(s);
      var l, o := ClosedLengths(s[..|s| - 1]), OpenLength(s[..|s| - 1]);
      assert (l + [o])[..|l|] == l;
    }
  }

  /** Closing the open run completes the list of lengths. */
  lemma AllLengths(s: seq<bool>)
    ensures Lengths(Runs(s)) == ClosedLengths(s) + if OpenLength(s) > 0 then [OpenLength(s)] else []
  {
    hide Runs, Lengths;
    if s != [] && s[|s| - 1] {
      OpenIsLast(s);
      var l := Lengths(Runs(s));
      assert l == l[..|l| - 1] + [l[|l| - 1]];
    }
  }

  /**
   After any stream and a final close, the counters describe the stream's maximal runs of losses:
   their number, lengths, longest, buckets and samples; their lengths sum to the symbols lost, and
   every run is either recoverable or critical.
   */
  lemma StatisticsTheorem(s: seq<bool>, span: nat)
    ensures var c, lens := Close(Replay(s, span), OpenLength(s), span), Lengths(Runs(s));
      && Replay(s, span).current == OpenLength(s)
      && Summarises(c, lens, span)
      && c.total == |s| && c.lost == Losses(s) == c.sum && c.current == 0
      && c.recoverable + c.critical == c.bursts
  {
    hide Summarises, ClosedLengths, CloseAll, Runs, Lengths, Replay, OpenLength, Losses, Close, Sum;
    ReplayIs(s, span);
    AllLengths(s);
    TotalLoss(s);
    FinalCounts(s, span);
    CloseAllIdle(Lengths(Runs(s)), span);
    CloseAllSummarises(Lengths(Runs(s)), span);
    SumIs(CloseAll(Lengths(Runs(s)), span), Lengths(Runs(s)), span);
  }

  /** The runs' lengths add up to the symbols lost. */
  lemma TotalLoss(s: seq<bool>)
    ensures Sum(Lengths(Runs(s))) == Losses(s)
  {
    hide ClosedLengths, Runs, Lengths, OpenLength, Losses;
    AllLengths(s);
    LengthsAddUp(s);
    var l, o := ClosedLengths(s), OpenLength(s);
    assert l + [] == l;
    assert (l + [o])[..|l|] == l;
  }

  lemma FinalCounts(s: seq<bool>, span: nat)
    requires Lengths(Runs(s)) == ClosedLengths(s) + if OpenLength(s) > 0 then [OpenLength(s)] else []
    requires Replay(s, span)
          == CloseAll(ClosedLengths(s), span).(total := |s|, lost := Losses(s), current := OpenLength(s))
    ensures Close(Replay(s, span), OpenLength(s), span)
         == CloseAll(Lengths(Runs(s)), span).(total := |s|, lost := Losses(s))
  {
    hide ClosedLengths, CloseAll, Runs, Lengths, Replay, OpenLength, Losses;
    CloseAllIdle(ClosedLengths(s), span);
    CloseAllAppend(ClosedLengths(s), OpenLength(s), span);
    assert ClosedLengths(s) + [] == ClosedLengths(s);
  }

  lemma SumIs(c: Counters, lens: seq<nat>, span: nat)
    requires Summarises(c, lens, span)
    ensures c.sum == Sum(lens) && c.bursts == c.recoverable + c.critical
    ensures forall n: nat, l: nat :: Summarises(c.(total := n, lost := l), lens, span)
  {
  }

  // ---------------------------------------------------------------------------
  // The counters in numbers
  // ---------------------------------------------------------------------------

  /** How many lengths are at least lo. */
  function AtLeast(lens: seq<nat>, lo: nat): nat {
    if lens == [] then 0 else AtLeast(lens[..|lens| - 1], lo) + if lens[|lens| - 1] >= lo then 1 else 0
  }

  /** How many lengths are from lo to hi. */
  function Between(lens: seq<nat>, lo: nat, hi: nat): nat {
    if lens == [] then 0 else Between(lens[..|lens| - 1], lo, hi) + if lo <= lens[|lens| - 1] <= hi then 1 else 0
  }

  /** The seven buckets. */
  function Spread(lens: seq<nat>): seq<nat> {
    [Between(lens, 1, 1), Between(lens, 2, 5), Between(lens, 6, 10), Between(lens, 11, 50), Between(lens, 51, 100),
     Between(lens, 101, 500), AtLeast(lens, 501)]
  }

  lemma {:induction false} BucketSpread(lens: seq<nat>, b: nat)
    requires (forall i :: 0 <= i < |lens| ==> lens[i] > 0) && b < BUCKETS
    ensures InBucket(lens, b) == Spread(lens)[b]
  {
    if lens != [] { BucketSpread(lens[..|lens| - 1], b); }
  }

  lemma {:induction false} ExceedingSpan(lens: seq<nat>, span: nat)
    ensures Exceeding(lens, span) == if span > 0 then AtLeast(lens, span + 1) else 0
  {
    if lens != [] { ExceedingSpan(lens[..|lens| - 1], span); }
  }

  /**
   After any stream and a final close, each bucket counts the maximal runs of losses whose lengths lie within its
   bounds, and the runs longer than a configured span are the critical ones.
   */
  lemma BucketTheorem(s: seq<bool>, span: nat)
    ensures var c, lens := Close(Replay(s, span), OpenLength(s), span), Lengths(Runs(s));
      && c.buckets == Spread(lens)
      && c.critical == (if span > 0 then AtLeast(lens, span + 1) else 0) && c.recoverable == |lens| - c.critical
  {
    hide Runs, Lengths, Replay, OpenLength, Close, Spread, InBucket, Sum, Max, Losses;
    StatisticsTheorem(s, span);
    var lens := Lengths(Runs(s));
    ExceedingSpan(lens, span);
    SpreadSize(lens);
    forall b: nat | b < BUCKETS ensures InBucket(lens, b) == Spread(lens)[b] {
      BucketSpread(lens, b);
    }
  }

  lemma SpreadSize(lens: seq<nat>)
    ensures |Spread(lens)| == BUCKETS
  {
  }
}
