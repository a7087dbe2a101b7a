/** A block waiting to be decoded stays as it is. */
module DeinterleaverReady {
  import opened Types
  import opened DeinterleaverSpec
  import opened DeinterleaverMap
  import opened DeinterleaverRuns

  /** What an operation may do to the ready block: nothing, unless it acknowledges the block or evicts it. */
  ghost predicate Kept(c: Config, m: map<uint32, Received>, op: Op, m': map<uint32, Received>, id: uint32)
    requires id in m
  {
    if op.MarkOp? && op.id == id then id !in m'
    else if id in m' then m'[id] == m[id]
    else op.PushOp? && op.sym.packetId !in m && |m| == c.slots && Oldest(m, id, op.now)
  }

  /** A push: untouched, unless it is the victim. */
  lemma DeliverKeeps(c: Config, m: map<uint32, Received>, gone: set<uint32>, sym: Symbol, now: int, id: uint32)
    requires ValidConfig(c) && id in m && m[id].ready && |m| <= c.slots && Victim(c, m, sym.packetId, gone, now)
    ensures Kept(c, m, PushOp(sym, now), Deliver(c, m - gone, sym, now), id)
  {
    hide Oldest, Deliver;
    if id == sym.packetId {
      MinusNothing(m);
      DeliverReady(c, m, sym, now);
    } else {
      DeliverOthers(c, m - gone, sym, now, id);
    }
  }

  lemma PushKeeps(c: Config, st: State, sym: Symbol, now: int, id: uint32)
    requires ValidConfig(c) && Inv(c, st) && ReadyIn(st, id)
    ensures Kept(c, Blocks(st.slots), PushOp(sym, now), Blocks(Push(c, st, sym, now).0.slots), id)
  {
    hide Blocks, Deliver, Victim, Oldest;
    if !IsErasure(sym) && Acceptable(c, sym) {
      hide Push;
      var gone := PushRefines(c, st, sym, now);
      DeliverKeeps(c, Blocks(st.slots), gone, sym, now, id);
    } else {
      assert Push(c, st, sym, now).0.slots == st.slots;
    }
  }

  lemma TickKeeps(c: Config, st: State, override: int, now: int, id: uint32)
    requires ValidConfig(c) && Inv(c, st) && ReadyIn(st, id)
    ensures Kept(c, Blocks(st.slots), TickOp(override, now), Blocks(Tick(c, st, override, now).slots), id)
  {
    hide Blocks, Tick, Inv, FreezeRule;
    TickRefines(c, st, override, now);
  }

  lemma MarkKeeps(c: Config, st: State, other: uint32, success: bool, id: uint32)
    requires Inv(c, st) && ReadyIn(st, id)
    ensures Kept(c, Blocks(st.slots), MarkOp(other, success), Blocks(Mark(st, other, success).0.slots), id)
  {
    hide Blocks, Mark, Inv;
    MarkRefines(c, st, other, success);
  }

  /**
   A ready block never changes: every operation leaves its contents as they are, except the
   acknowledgement that removes it, and a push for a new block that evicts it as the oldest ready
   block when every slot is in use.
   */
  lemma ReadyUnchanged(c: Config, st: State, op: Op, id: uint32)
    requires ValidConfig(c) && Inv(c, st) && ReadyIn(st, id)
    ensures Kept(c, Blocks(st.slots), op, Blocks(Step(c, st, op).slots), id)
  {
    hide Blocks, Push, Tick, Mark, Inv, Kept;
    match op
    case PushOp(sym, now) => PushKeeps(c, st, sym, now, id);
    case TickOp(override, now) => TickKeeps(c, st, override, now, id);
    case MarkOp(other, success) => MarkKeeps(c, st, other, success, id);
    case CrcDropOp => CountKeeps(c, st, id);
  }

  lemma CountKeeps(c: Config, st: State, id: uint32)
    requires ValidConfig(c) && Inv(c, st) && ReadyIn(st, id)
    ensures Kept(c, Blocks(st.slots), CrcDropOp, Blocks(Step(c, st, CrcDropOp).slots), id)
  {
    hide Blocks, Inv;
  }
}
