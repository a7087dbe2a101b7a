/** What holds over every run of the deinterleaver: its invariant, and how often a block can be decoded. */
module DeinterleaverRuns {
  import opened Types
  import opened DeinterleaverSpec
  import opened DeinterleaverMap
  import Invariant = DeinterleaverInvariant
  import opened Arithmetic

  datatype Op =
    | PushOp(sym: Symbol, now: int)
    | TickOp(override: int, now: int)
    | MarkOp(id: uint32, success: bool)
    | CrcDropOp

  ghost function Step(c: Config, st: State, op: Op): State
    requires ValidConfig(c) && Inv(c, st)
  {
    match op
    case PushOp(sym, now) => Push(c, st, sym, now).0
    case TickOp(override, now) => Tick(c, st, override, now)
    case MarkOp(id, success) => Mark(st, id, success).0
    case CrcDropOp => st.(stats := st.stats.(crcFail := st.stats.crcFail + 1))
  }

  lemma StepKeeps(c: Config, st: State, op: Op)
    requires ValidConfig(c) && Inv(c, st)
    ensures Inv(c, Step(c, st, op))
  {
    match op
    case PushOp(sym, now) => Invariant.PushKeeps(c, st, sym, now);
    case TickOp(override, now) => Invariant.TickKeeps(c, st, override, now);
    case MarkOp(id, success) => Invariant.MarkKeeps(c, st, id, success);
    case CrcDropOp =>
  }

  /** The state after a run; the invariant holds throughout. */
  ghost function Run(c: Config, ops: seq<Op>): (st: State)
    requires ValidConfig(c)
    ensures Inv(c, st)
  {
    if ops == [] then
      Invariant.InitKeeps(c);
      InitState(c)
    else
      var st := Run(c, ops[..|ops| - 1]);
      StepKeeps(c, st, ops[|ops| - 1]);
      Step(c, st, ops[|ops| - 1])
  }

  // ---------------------------------------------------------------------------
  // How often a block becomes ready
  // ---------------------------------------------------------------------------

  ghost predicate ReadyIn(st: State, id: uint32) {
    id in Blocks(st.slots) && Blocks(st.slots)[id].ready
  }

  /** Symbols collected for a block that is still filling. */
  ghost function Collected(m: map<uint32, Received>, id: uint32): nat {
    if id in m && !m[id].ready then |m[id].symbols| else 0
  }

  /** How many times the run promoted the block to Ready. */
  ghost function Promotions(c: Config, ops: seq<Op>, id: uint32): nat
    requires ValidConfig(c)
  {
    if ops == [] then 0
    else
      var before := ops[..|ops| - 1];
      Promotions(c, before, id) + if ReadyIn(Run(c, ops), id) && !ReadyIn(Run(c, before), id) then 1 else 0
  }

  ghost predicate Offers(c: Config, op: Op, id: uint32) {
    op.PushOp? && op.sym.packetId == id && Acceptable(c, op.sym)
  }

  /** The fec_ids offered to the block so far. */
  ghost function Offered(c: Config, ops: seq<Op>, id: uint32): (fecs: set<int>)
    ensures forall f :: f in fecs ==> 0 <= f < c.n
    ensures forall f :: f in fecs ==>
              exists i :: 0 <= i < |ops| && Offers(c, ops[i], id) && ops[i].sym.fecId == f
  {
    if ops == [] then {}
    else
      var before, op := ops[..|ops| - 1], ops[|ops| - 1];
      Offered(c, before, id) + if Offers(c, op, id) then {op.sym.fecId} else {}
  }

  /** No (block, fec_id) pair is pushed twice. */
  ghost predicate PushedOnce(ops: seq<Op>) {
    forall i, j :: 0 <= i < j < |ops| && ops[i].PushOp? && ops[j].PushOp? ==>
      ops[i].sym.packetId != ops[j].sym.packetId || ops[i].sym.fecId != ops[j].sym.fecId
  }

  /** Settling one block leaves the others alone. */
  lemma SettleOthers(c: Config, m: map<uint32, Received>, key: uint32, timeout: int, now: int, id: uint32)
    requires ValidConfig(c) && key in m && id != key
    ensures var m' := Settle(c, m, key, timeout, now); (id in m' <==> id in m) && (id in m' ==> m'[id] == m[id])
  {
    hide FreezeRule;
  }

  /** A delivery leaves other blocks alone. */
  lemma DeliverOthers(c: Config, m: map<uint32, Received>, sym: Symbol, now: int, id: uint32)
    requires ValidConfig(c) && id != sym.packetId
    ensures var m' := Deliver(c, m, sym, now); (id in m' <==> id in m) && (id in m' ==> m'[id] == m[id])
  {
    hide Settle;
    var b := if sym.packetId in m then m[sym.packetId] else Received(false, map[], now, now);
    var stored := b.(symbols := b.symbols[sym.fecId := sym], last := now);
    SettleOthers(c, m[sym.packetId := stored], sym.packetId, AgeLimit(c), now, id);
  }

  /** A delivery to a ready block does nothing. */
  lemma DeliverReady(c: Config, m: map<uint32, Received>, sym: Symbol, now: int)
    requires ValidConfig(c) && sym.packetId in m && m[sym.packetId].ready
    ensures Deliver(c, m, sym, now) == m
  {
  }

  /** What a delivery does to its own block. */
  lemma DeliverOwn(c: Config, m: map<uint32, Received>, sym: Symbol, now: int)
    requires ValidConfig(c)
    ensures var id, m' := sym.packetId, Deliver(c, m, sym, now);
            var b := if id in m then m[id] else Received(false, map[], now, now);
            id in m' ==> m'[id] == b || (!b.ready && |m'[id].symbols| == |b.symbols| + 1 && (m'[id].ready ==> |b.symbols| + 1 >= c.k))
  {
    hide Settle;
    var b := if sym.packetId in m then m[sym.packetId] else Received(false, map[], now, now);
    if !b.ready && sym.fecId !in b.symbols {
      var stored := b.(symbols := b.symbols[sym.fecId := sym], last := now);
      SettleOwn(c, m[sym.packetId := stored], sym.packetId, AgeLimit(c), now);
    }
  }

  /** Settling keeps a block's symbols, and promotes it only with k of them. */
  lemma SettleOwn(c: Config, m: map<uint32, Received>, key: uint32, timeout: int, now: int)
    requires ValidConfig(c) && key in m && !m[key].ready
    ensures var m' := Settle(c, m, key, timeout, now);
            key in m' ==> m'[key].symbols == m[key].symbols && (m'[key].ready ==> |m[key].symbols| >= c.k)
  {
  }

  /** One push adds at most one collected symbol, and a promotion consumes at least k. */
  lemma DeliverBound(c: Config, m: map<uint32, Received>, gone: set<uint32>, sym: Symbol, now: int, id: uint32)
    requires ValidConfig(c) && sym.packetId !in gone
    ensures var m' := Deliver(c, m - gone, sym, now);
            var promoted := id in m' && m'[id].ready && !(id in m && m[id].ready);
            && (promoted ==> Collected(m, id) + 1 >= c.k)
            && Collected(m', id) + (if promoted then Collected(m, id) + 1 else 0)
               <= Collected(m, id) + (if sym.packetId == id then 1 else 0)
  {
    hide Deliver;
    if id == sym.packetId {
      DeliverOwn(c, m - gone, sym, now);
    } else {
      DeliverOthers(c, m - gone, sym, now, id);
    }
  }

  lemma SettleBound(c: Config, m: map<uint32, Received>, m': map<uint32, Received>, timeout: int, now: int, id: uint32)
    requires ValidConfig(c) && Settled(c, m, m', timeout, now)
    ensures var promoted := id in m' && m'[id].ready && !(id in m && m[id].ready);
            && (promoted ==> Collected(m, id) >= c.k)
            && Collected(m', id) + (if promoted then Collected(m, id) else 0) <= Collected(m, id)
  {
  }

  /** k symbols are used up by every promotion. */
  lemma StepBound(c: Config, st: State, op: Op, id: uint32)
    requires ValidConfig(c) && Inv(c, st)
    ensures var st' := Step(c, st, op);
            var promoted := ReadyIn(st', id) && !ReadyIn(st, id);
            Collected(Blocks(st'.slots), id) + (if promoted then c.k else 0)
            <= Collected(Blocks(st.slots), id) + (if Offers(c, op, id) then 1 else 0)
  {
    match op
    case PushOp(sym, now) =>
      if !IsErasure(sym) && Acceptable(c, sym) {
        var gone := PushRefines(c, st, sym, now);
        DeliverBound(c, Blocks(st.slots), gone, sym, now, id);
      }
    case TickOp(override, now) =>
      TickRefines(c, st, override, now);
      SettleBound(c, Blocks(st.slots), Blocks(Tick(c, st, override, now).slots), TickLimit(c, override), now, id);
    case MarkOp(b, success) => MarkRefines(c, st, b, success);
    case CrcDropOp =>
  }

  /** Under PushedOnce each offered symbol is new. */
  lemma OfferedGrows(c: Config, ops: seq<Op>, id: uint32)
    requires ops != [] && PushedOnce(ops)
    ensures var before := ops[..|ops| - 1];
            && PushedOnce(before)
            && |Offered(c, ops, id)| == |Offered(c, before, id)| + (if Offers(c, ops[|ops| - 1], id) then 1 else 0)
  {
    var before, op := ops[..|ops| - 1], ops[|ops| - 1];
    assert forall i :: 0 <= i < |before| ==> before[i] == ops[i];
  }

  /** k times p, by repeated addition. */
  function Times(k: nat, p: nat): (t: nat) {
    if p == 0 then 0 else Times(k, p - 1) + k
  }

  lemma {:induction false} TimesIsProduct(k: nat, p: nat)
    ensures Times(k, p) == k * p
  {
    if p > 0 {
      TimesIsProduct(k, p - 1);
      Distribute(k, p - 1);
    }
  }

  lemma NothingYet(c: Config)
    requires ValidConfig(c)
    ensures Blocks(Run(c, []).slots) == map[]
    ensures forall id :: Promotions(c, [], id) == 0
  {
    assert ActiveIds(InitState(c).slots) == {};
  }

  /** StepBound, for the last step of a run. */
  lemma PromotionStep(c: Config, ops: seq<Op>, id: uint32) returns (promoted: bool)
    requires ValidConfig(c) && ops != []
    ensures var before, op := ops[..|ops| - 1], ops[|ops| - 1];
            && Promotions(c, ops, id) == Promotions(c, before, id) + (if promoted then 1 else 0)
            && Collected(Blocks(Run(c, ops).slots), id) + (if promoted then c.k else 0)
               <= Collected(Blocks(Run(c, before).slots), id) + (if Offers(c, op, id) then 1 else 0)
  {
    var st, st' := Run(c, ops[..|ops| - 1]), Run(c, ops);
    promoted := ReadyIn(st', id) && !ReadyIn(st, id);
    StepBound(c, st, ops[|ops| - 1], id);
  }

  /** p promotions have used k of the offered symbols each. */
  ghost predicate WithinBudget(k: nat, p: nat, collected: nat, offered: nat) {
    Times(k, p) + collected <= offered
  }

  lemma BudgetStep(k: nat, p: nat, collected: nat, offered: nat, p': nat, collected': nat, offered': nat)
    requires WithinBudget(k, p, collected, offered) && p <= p' <= p + 1 && offered <= offered'
    requires collected' + (if p' > p then k else 0) <= collected + (offered' - offered)
    ensures WithinBudget(k, p', collected', offered')
  {
    assert Times(k, p + 1) == Times(k, p) + k;
  }

  lemma {:induction false} PromotionBudget(c: Config, ops: seq<Op>, id: uint32)
    requires ValidConfig(c) && PushedOnce(ops)
    ensures WithinBudget(c.k, Promotions(c, ops, id), Collected(Blocks(Run(c, ops).slots), id), |Offered(c, ops, id)|)
  {
    if ops == [] {
      NothingYet(c);
    } else {
      var before := ops[..|ops| - 1];
      OfferedGrows(c, ops, id);
      PromotionBudget(c, before, id);
      var promoted := PromotionStep(c, ops, id);
      BudgetStep(c.k, Promotions(c, before, id), Collected(Blocks(Run(c, before).slots), id), |Offered(c, before, id)|,
                 Promotions(c, ops, id), Collected(Blocks(Run(c, ops).slots), id), |Offered(c, ops, id)|);
    }
  }

  /**
   A block is promoted to Ready at most floor(n / k) times in any run in which no symbol is pushed
   twice: late symbols that reopen a slot, evictions and acknowledgements included.
   */
  lemma BoundedRedecoding(c: Config, ops: seq<Op>, id: uint32)
    requires ValidConfig(c) && PushedOnce(ops)
    ensures Promotions(c, ops, id) <= c.n / c.k
    ensures 2 * c.k > c.n ==> Promotions(c, ops, id) <= 1
  {
    PromotionBudget(c, ops, id);
    TimesIsProduct(c.k, Promotions(c, ops, id));
    SetBound(Offered(c, ops, id), c.n);
    AtMostDiv(c.n, c.k, Promotions(c, ops, id));
  }

  lemma AtMostDiv(n: nat, k: nat, p: nat)
    requires 1 <= k && k * p <= n
    ensures p <= n / k
    ensures 2 * k > n ==> p <= 1
  {
    DivLower(n, k, p);
    if p >= 2 { MulMono(k, 2, p); }
  }
}
