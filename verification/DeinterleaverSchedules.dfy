/** A run that decodes a block as often as the bound of DeinterleaverRuns allows. */
module DeinterleaverSchedules {
  import opened Types
  import opened DeinterleaverSpec
  import opened DeinterleaverMap
  import opened DeinterleaverRuns
  import opened Arithmetic

  function Probe(id: uint32, f: nat): Symbol
    requires f < MAX_SYMBOLS_PER_BLOCK
  {
    Symbol(id, f, 0, 0, 0, 0, [])
  }

  /** After t symbols in groups of k: p complete groups, the last started at `start` and holding `held`. */
  datatype Progress = Progress(start: nat, held: nat, p: nat)

  function ProgressAt(k: nat, t: nat): (g: Progress)
    requires 1 <= k
    ensures g.start + g.held == t && g.held < k && g.start == Times(k, g.p)
  {
    if t == 0 then Progress(0, 0, 0)
    else
      var g := ProgressAt(k, t - 1);
      if g.held + 1 < k then Progress(g.start, g.held + 1, g.p) else Progress(g.start + g.held + 1, 0, g.p + 1)
  }

  /** How long a block with k symbols must be left alone. */
  function Quiet(c: Config): nat {
    if c.stab > 0 then c.stab else 0
  }

  /** When round p starts: each round is pushed at one time and ends with a tick after the quiet period. */
  function RoundTime(c: Config, p: nat): nat {
    Times(Quiet(c), p)
  }

  /** The first t symbols of one block in order; after every k of them a quiet period, a tick, and the acknowledgement. */
  function Schedule(c: Config, id: uint32, t: nat): (ops: seq<Op>)
    requires 1 <= c.k && t <= c.n <= MAX_SYMBOLS_PER_BLOCK
    ensures forall i :: 0 <= i < |ops| && ops[i].PushOp? ==> ops[i].sym.packetId == id && ops[i].sym.fecId < t
    ensures PushedOnce(ops)
  {
    if t == 0 then []
    else
      var g := ProgressAt(c.k, t - 1);
      Schedule(c, id, t - 1) + [PushOp(Probe(id, t - 1), RoundTime(c, g.p))] +
      if ProgressAt(c.k, t).held == 0 then [TickOp(-1, RoundTime(c, g.p) + Quiet(c)), MarkOp(id, true)] else []
  }

  /** The operations come in the order of their times, all at or before `now`. */
  ghost predicate Chronological(ops: seq<Op>, now: int) {
    ops == [] ||
      var before := ops[..|ops| - 1];
      match ops[|ops| - 1]
      case PushOp(_, t) => t <= now && Chronological(before, t)
      case TickOp(_, t) => t <= now && Chronological(before, t)
      case _ => Chronological(before, now)
  }

  /** j consecutive symbols from fec_id a on. */
  ghost function Consecutive(id: uint32, a: nat, j: nat): (m: map<int, Symbol>)
    requires a + j <= MAX_SYMBOLS_PER_BLOCK
    ensures |m| == j && forall f :: f in m ==> a <= f < a + j
  {
    if j == 0 then map[] else Consecutive(id, a, j - 1)[a + j - 1 := Probe(id, a + j - 1)]
  }

  /** A block holding j consecutive symbols pushed at time tm; absent when j is 0. */
  ghost function Partial(id: uint32, a: nat, j: nat, tm: int): map<uint32, Received>
    requires a + j <= MAX_SYMBOLS_PER_BLOCK
  {
    if j == 0 then map[] else map[id := Received(false, Consecutive(id, a, j), tm, tm)]
  }

  /** The block, alone and Ready. */
  ghost predicate OnlyReady(id: uint32, m: map<uint32, Received>) {
    id in m && m[id].ready && m - {id} == map[]
  }

  lemma Overwrite<K, V>(k: K, v: V, v': V)
    ensures map[k := v][k := v'] == map[k := v']
    ensures map[][k := v'] == map[k := v']
    ensures map[k := v'] - {k} == map[]
  {
  }

  lemma NotYetOld(c: Config, valid: int, tm: int)
    requires ValidConfig(c) && 1 <= valid <= c.k
    ensures FreezeRule(c, valid, tm, tm, AgeLimit(c), tm) == if valid < c.k || c.stab > 0 then Stay else Promote
  {
  }

  /** The next symbol is stored, and the block evaluated. */
  lemma DeliverStores(c: Config, id: uint32, a: nat, j: nat, tm: int)
    requires ValidConfig(c) && id != 0 && j < c.k && a + j < c.n
    ensures Deliver(c, Partial(id, a, j, tm), Probe(id, a + j), tm)
         == Settle(c, map[id := Received(false, Consecutive(id, a, j + 1), tm, tm)], id, AgeLimit(c), tm)
  {
    hide Consecutive, Settle;
    ConsecutiveNext(id, a, j);
    var b := Received(false, Consecutive(id, a, j), tm, tm);
    var stored := Received(false, Consecutive(id, a, j + 1), tm, tm);
    Overwrite(id, b, stored);
    assert b.(symbols := b.symbols[a + j := Probe(id, a + j)], last := tm) == stored;
    assert Partial(id, a, j, tm)[id := stored] == map[id := stored];
  }

  lemma SettleNext(c: Config, id: uint32, stored: Received, tm: int)
    requires ValidConfig(c) && !stored.ready && 1 <= |stored.symbols| <= c.k && stored.first == stored.last == tm
    ensures var m' := Settle(c, map[id := stored], id, AgeLimit(c), tm);
            if |stored.symbols| < c.k || c.stab > 0 then m' == map[id := stored] else OnlyReady(id, m')
  {
    hide FreezeRule;
    NotYetOld(c, |stored.symbols|, tm);
    Overwrite(id, stored, stored.(ready := true));
  }

  /** Delivering the next symbol: without a stabilization period the block is promoted exactly when it reaches k. */
  lemma DeliverNext(c: Config, id: uint32, a: nat, j: nat, tm: int)
    requires ValidConfig(c) && id != 0 && j < c.k && a + j < c.n
    ensures var m' := Deliver(c, Partial(id, a, j, tm), Probe(id, a + j), tm);
            if j + 1 < c.k || c.stab > 0 then m' == Partial(id, a, j + 1, tm) else OnlyReady(id, m')
  {
    hide Consecutive, Settle, Deliver;
    DeliverStores(c, id, a, j, tm);
    SettleNext(c, id, Received(false, Consecutive(id, a, j + 1), tm, tm), tm);
  }

  lemma ConsecutiveNext(id: uint32, a: nat, j: nat)
    requires a + j < MAX_SYMBOLS_PER_BLOCK
    ensures Consecutive(id, a, 0) == map[]
    ensures Consecutive(id, a, j + 1) == Consecutive(id, a, j)[a + j := Probe(id, a + j)]
    ensures a + j !in Consecutive(id, a, j)
  {
  }

  /** One scheduled push, from a state holding j symbols of the block. */
  lemma PushNext(c: Config, st: State, id: uint32, a: nat, j: nat, tm: int)
    requires ValidConfig(c) && id != 0 && j < c.k && a + j < c.n && Inv(c, st)
    requires Blocks(st.slots) == Partial(id, a, j, tm)
    ensures var m' := Blocks(Push(c, st, Probe(id, a + j), tm).0.slots);
            && !ReadyIn(st, id)
            && if j + 1 < c.k || c.stab > 0 then m' == Partial(id, a, j + 1, tm) else OnlyReady(id, m')
  {
    var m := Blocks(st.slots);
    var gone := PushRefines(c, st, Probe(id, a + j), tm);
    DeliverNext(c, id, a, j, tm);
    if j == 0 { assert |m| == 0; }
    assert gone == {};
    MinusNothing(m);
  }

  /** The tick that ends a round: the block, with its k symbols, is or becomes Ready. */
  lemma TickNext(c: Config, st: State, id: uint32, a: nat, tm: int)
    requires ValidConfig(c) && a + c.k <= c.n && Inv(c, st)
    requires if c.stab > 0 then Blocks(st.slots) == Partial(id, a, c.k, tm) else OnlyReady(id, Blocks(st.slots))
    ensures OnlyReady(id, Blocks(Tick(c, st, -1, tm + Quiet(c)).slots))
  {
    hide Blocks, Tick;
    var m, m' := Blocks(st.slots), Blocks(Tick(c, st, -1, tm + Quiet(c)).slots);
    TickRefines(c, st, -1, tm + Quiet(c));
    RoundSettles(c, m, m', id, a, tm);
  }

  lemma RoundSettles(c: Config, m: map<uint32, Received>, m': map<uint32, Received>, id: uint32, a: nat, tm: int)
    requires ValidConfig(c) && a + c.k <= c.n && Settled(c, m, m', AgeLimit(c), tm + Quiet(c))
    requires if c.stab > 0 then m == Partial(id, a, c.k, tm) else OnlyReady(id, m)
    ensures OnlyReady(id, m')
  {
    assert id in m;
    forall u | u in m' ensures u == id {
      assert u in m;
      assert u in m - {id} <==> u != id;
    }
    assert m' - {id} == map[];
    if c.stab > 0 {
      assert m[id].symbols == Consecutive(id, a, c.k) && |m[id].symbols| == c.k;
      assert FreezeRule(c, c.k, tm, tm, AgeLimit(c), tm + c.stab) == Promote;
    }
  }

  lemma RunAppend(c: Config, ops: seq<Op>, op: Op, id: uint32)
    requires ValidConfig(c)
    ensures Run(c, ops + [op]) == Step(c, Run(c, ops), op)
    ensures Promotions(c, ops + [op], id) == Promotions(c, ops, id) +
              if ReadyIn(Run(c, ops + [op]), id) && !ReadyIn(Run(c, ops), id) then 1 else 0
  {
    assert (ops + [op])[..|ops|] == ops;
  }

  /** After the run, the block's progress is g. */
  ghost predicate At(c: Config, id: uint32, st: State, promotions: nat, g: Progress)
    requires g.start + g.held <= MAX_SYMBOLS_PER_BLOCK
  {
    Blocks(st.slots) == Partial(id, g.start, g.held, RoundTime(c, g.p)) && promotions == g.p
  }

  /** A scheduled push at the end of a run. */
  lemma SchedulePush(c: Config, id: uint32, ops: seq<Op>, g: Progress)
    requires ValidConfig(c) && id != 0 && g.held < c.k && g.start + g.held < c.n
    requires At(c, id, Run(c, ops), Promotions(c, ops, id), g)
    ensures var pushed := ops + [PushOp(Probe(id, g.start + g.held), RoundTime(c, g.p))];
            var m, p := Blocks(Run(c, pushed).slots), Promotions(c, pushed, id);
            if g.held + 1 < c.k || c.stab > 0 then m == Partial(id, g.start, g.held + 1, RoundTime(c, g.p)) && p == g.p
            else OnlyReady(id, m) && p == g.p + 1
  {
    hide Push, Blocks, RoundTime, Promotions, Run;
    RunAppend(c, ops, PushOp(Probe(id, g.start + g.held), RoundTime(c, g.p)), id);
    PushNext(c, Run(c, ops), id, g.start, g.held, RoundTime(c, g.p));
  }

  /** The tick at the end of a round. */
  lemma ScheduleTick(c: Config, id: uint32, ops: seq<Op>, a: nat, tm: int, p: nat)
    requires ValidConfig(c) && a + c.k <= c.n
    requires var m := Blocks(Run(c, ops).slots);
             if c.stab > 0 then m == Partial(id, a, c.k, tm) && Promotions(c, ops, id) == p
             else OnlyReady(id, m) && Promotions(c, ops, id) == p + 1
    ensures var ticked := ops + [TickOp(-1, tm + Quiet(c))];
            OnlyReady(id, Blocks(Run(c, ticked).slots)) && Promotions(c, ticked, id) == p + 1
  {
    hide Tick, Blocks;
    RunAppend(c, ops, TickOp(-1, tm + Quiet(c)), id);
    TickNext(c, Run(c, ops), id, a, tm);
  }

  /** The acknowledgement at the end of a run. */
  lemma ScheduleMark(c: Config, id: uint32, ops: seq<Op>)
    requires ValidConfig(c) && OnlyReady(id, Blocks(Run(c, ops).slots))
    ensures var marked := ops + [MarkOp(id, true)];
            Blocks(Run(c, marked).slots) == map[] && Promotions(c, marked, id) == Promotions(c, ops, id)
  {
    RunAppend(c, ops, MarkOp(id, true), id);
    MarkRefines(c, Run(c, ops), id, true);
  }

  lemma ScheduleNext(c: Config, id: uint32, t: nat)
    requires 1 <= c.k && 1 <= t <= c.n <= MAX_SYMBOLS_PER_BLOCK
    ensures var g := ProgressAt(c.k, t - 1);
            var pushed := Schedule(c, id, t - 1) + [PushOp(Probe(id, t - 1), RoundTime(c, g.p))];
            var ticked := pushed + [TickOp(-1, RoundTime(c, g.p) + Quiet(c))];
            Schedule(c, id, t) == if ProgressAt(c.k, t).held == 0 then ticked + [MarkOp(id, true)] else pushed
  {
    hide RoundTime, Quiet;
    var g := ProgressAt(c.k, t - 1);
    var tick, mark := TickOp(-1, RoundTime(c, g.p) + Quiet(c)), MarkOp(id, true);
    assert [tick, mark] == [tick] + [mark];
  }

  /** The tick and the acknowledgement that end round p. */
  lemma ScheduleRound(c: Config, id: uint32, ops: seq<Op>, g: Progress)
    requires ValidConfig(c) && g.start + c.k <= c.n && id != 0
    requires var m, tm := Blocks(Run(c, ops).slots), RoundTime(c, g.p);
             if c.stab > 0 then m == Partial(id, g.start, c.k, tm) && Promotions(c, ops, id) == g.p
             else OnlyReady(id, m) && Promotions(c, ops, id) == g.p + 1
    requires Chronological(ops, RoundTime(c, g.p))
    ensures var ended := ops + [TickOp(-1, RoundTime(c, g.p) + Quiet(c))] + [MarkOp(id, true)];
            && Blocks(Run(c, ended).slots) == map[] && Promotions(c, ended, id) == g.p + 1
            && Chronological(ended, RoundTime(c, g.p + 1))
  {
    hide Run, Blocks, Promotions, RoundTime, Quiet, Chronological, Partial, OnlyReady;
    NextRound(c, g.p);
    ScheduleTick(c, id, ops, g.start, RoundTime(c, g.p), g.p);
    OrderedTick(ops, id, RoundTime(c, g.p), RoundTime(c, g.p + 1));
    ScheduleMark(c, id, ops + [TickOp(-1, RoundTime(c, g.p) + Quiet(c))]);
  }

  lemma ProgressNext(k: nat, t: nat)
    requires 1 <= k && 1 <= t
    ensures ProgressAt(k, t) == After(k, ProgressAt(k, t - 1))
  {
  }

  /** The progress one symbol later. */
  function After(k: nat, g: Progress): Progress {
    if g.held + 1 < k then Progress(g.start, g.held + 1, g.p) else Progress(g.start + g.held + 1, 0, g.p + 1)
  }

  /** A run extended by the next symbol, and by the end of the round when that is due. */
  function Extended(c: Config, id: uint32, ops: seq<Op>, g: Progress): seq<Op>
    requires g.start + g.held < MAX_SYMBOLS_PER_BLOCK
  {
    var pushed := ops + [PushOp(Probe(id, g.start + g.held), RoundTime(c, g.p))];
    if g.held + 1 < c.k then pushed else pushed + [TickOp(-1, RoundTime(c, g.p) + Quiet(c))] + [MarkOp(id, true)]
  }

  lemma ExtendedRun(c: Config, id: uint32, ops: seq<Op>, g: Progress)
    requires ValidConfig(c) && id != 0 && g.held < c.k && g.start + g.held < c.n
    requires At(c, id, Run(c, ops), Promotions(c, ops, id), g) && Chronological(ops, RoundTime(c, g.p))
    ensures var ops', g' := Extended(c, id, ops, g), After(c.k, g);
      At(c, id, Run(c, ops'), Promotions(c, ops', id), g') && Chronological(ops', RoundTime(c, g'.p))
  {
    hide Run, Blocks, Promotions, RoundTime, Quiet, Chronological, Consecutive, OnlyReady;
    var pushed := ops + [PushOp(Probe(id, g.start + g.held), RoundTime(c, g.p))];
    SchedulePush(c, id, ops, g);
    OrderedPush(ops, Probe(id, g.start + g.held), RoundTime(c, g.p));
    if g.held + 1 == c.k { ScheduleRound(c, id, pushed, g); }
  }

  lemma {:induction false} ScheduleRun(c: Config, id: uint32, t: nat) returns (ops: seq<Op>)
    requires ValidConfig(c) && id != 0 && t <= c.n
    ensures ops == Schedule(c, id, t)
    ensures At(c, id, Run(c, ops), Promotions(c, ops, id), ProgressAt(c.k, t))
    ensures Chronological(ops, RoundTime(c, ProgressAt(c.k, t).p))
  {
    hide Run, Blocks, Promotions, RoundTime, Quiet, Chronological, Consecutive, PushedOnce;
    if t == 0 {
      ops := [];
      NothingYet(c);
      NoneOrdered(RoundTime(c, 0));
    } else {
      hide Schedule, ProgressAt, At;
      var before := ScheduleRun(c, id, t - 1);
      ScheduleNext(c, id, t);
      ProgressNext(c.k, t);
      ExtendedRun(c, id, before, ProgressAt(c.k, t - 1));
      ops := Extended(c, id, before, ProgressAt(c.k, t - 1));
    }
  }

  lemma NoneOrdered(now: int)
    ensures Chronological([], now)
  {
  }

  lemma NextRound(c: Config, p: nat)
    ensures RoundTime(c, p + 1) == RoundTime(c, p) + Quiet(c)
  {
  }

  lemma OrderedPush(ops: seq<Op>, sym: Symbol, tm: int)
    requires Chronological(ops, tm)
    ensures Chronological(ops + [PushOp(sym, tm)], tm)
  {
    assert (ops + [PushOp(sym, tm)])[..|ops|] == ops;
  }

  lemma OrderedTick(ops: seq<Op>, id: uint32, tm: int, now: int)
    requires Chronological(ops, tm) && tm <= now
    ensures Chronological(ops + [TickOp(-1, now)] + [MarkOp(id, true)], now)
  {
    OrderedLater(ops, tm, now);
    var ticked := ops + [TickOp(-1, now)];
    assert ticked[..|ops|] == ops && (ticked + [MarkOp(id, true)])[..|ticked|] == ticked;
  }

  lemma {:induction false} OrderedLater(ops: seq<Op>, tm: int, now: int)
    requires Chronological(ops, tm) && tm <= now
    ensures Chronological(ops, now)
  {
    if ops != [] && !ops[|ops| - 1].PushOp? && !ops[|ops| - 1].TickOp? { OrderedLater(ops[..|ops| - 1], tm, now); }
  }

  /**
   The bound is reached, whatever the stabilization period: some run in the order of time that pushes each
   symbol once, with ticks between, promotes a block floor(n / k) times.
   */
  lemma BoundAttained(c: Config, id: uint32)
    requires ValidConfig(c) && id != 0
    ensures exists ops, now :: PushedOnce(ops) && Chronological(ops, now) && Promotions(c, ops, id) == c.n / c.k
  {
    hide Run, Blocks, Promotions, RoundTime;
    var ops := ScheduleRun(c, id, c.n);
    var g := ProgressAt(c.k, c.n);
    TimesIsProduct(c.k, g.p);
    DivModOf(c.k, g.p, g.held);
    assert PushedOnce(ops) && Chronological(ops, RoundTime(c, g.p));
  }
}
