/** Over every run, packets of any length: which fragments share a block, when blocks are sealed, when windows are sent, and what is sent. */
module TxScheduleRuns {
  import opened Types
  import opened BlockBuilding
  import opened Fragmentation
  import FecWrapper
  import opened Interleaving
  import opened TxSpec
  import opened WholeBlocks
  import TxHistory
  import opened TxPacking
  import opened TxComposition
  import opened TxSchedule
  import BurstBound

  // ---------------------------------------------------------------------------
  // The fragment loop
  // ---------------------------------------------------------------------------

  /** The last |g| pieces are the fragments g of one packet, just arriving. */
  ghost predicate Pieced(f: seq<Piece>, g: seq<Symbol>, now: int) {
    |g| <= |f| && forall j :: 0 <= j < |g| ==> PieceOf(f[|f| - |g| + j], g[j], j, |g|, now)
  }

  ghost predicate PieceOf(p: Piece, s: Symbol, j: nat, total: nat, now: int) {
    p.sym == TxHistory.Bare(s) && p.at == now && s.index == j && s.total == total
  }

  lemma AddedBare(syms: seq<Symbol>, s: Symbol, f: seq<Piece>, i: nat, n: nat)
    requires i <= n < |f| && TxHistory.BareAll(syms) == Syms(f[i..n]) && f[n].sym == TxHistory.Bare(s)
    ensures TxHistory.BareAll(syms + [s]) == Syms(f[i..n + 1])
  {
    BareAppend(syms, s);
    assert f[i..n + 1] == f[i..n] + [f[n]];
    assert Syms(f[i..n + 1]) == Syms(f[i..n]) + [f[n].sym];
  }

  /** The builder with one symbol more. */
  function Joined(st: TxState, s: Symbol, now: int): TxState {
    st.(builder := Add(st.builder, s, now))
  }

  /** A fragment joins the open block; the first one sets its time. */
  lemma AddedScheduled(cfg: TxConfig, codec: FecWrapper.Codec, st: TxState, f: seq<Piece>, n: nat, l: Log, s: Symbol, now: int)
    requires Scheduled(cfg, codec, st, f, n, l) && |st.builder.syms| < cfg.k && Fits(cfg, s)
    requires n < |f| && f[n].sym == TxHistory.Bare(s) && f[n].at == now
    ensures Scheduled(cfg, codec, Joined(st, s, now), f, n + 1, l)
    ensures |Joined(st, s, now).builder.syms| == |st.builder.syms| + 1 && Joined(st, s, now).builder.id == st.builder.id
  {
    hide Scheduled, Logged, InWindow, TxOk;
    ScheduledParts(cfg, codec, st, f, n, l);
    BuilderCount(cfg, codec, st, f, n, l);
    AddedBare(st.builder.syms, s, f, Last(l.cuts), n);
    AddedOk(cfg, st, s, now);
    assert InBuilder(Add(st.builder, s, now), f, n + 1, l.cuts);
    BuilderChanged(cfg, codec, st, f, n, l, Add(st.builder, s, now), n + 1);
  }

  lemma AddedOk(cfg: TxConfig, st: TxState, s: Symbol, now: int)
    requires TxOk(cfg, st) && |st.builder.syms| < cfg.k && Fits(cfg, s)
    ensures TxOk(cfg, st.(builder := Add(st.builder, s, now)))
  {
  }

  lemma BuilderChanged(cfg: TxConfig, codec: FecWrapper.Codec, st: TxState, f: seq<Piece>, n: nat, l: Log, b: Builder, n': nat)
    requires Scheduled(cfg, codec, st, f, n, l) && InBuilder(b, f, n', l.cuts) && TxOk(cfg, st.(builder := b))
    ensures Scheduled(cfg, codec, st.(builder := b), f, n', l)
  {
  }

  lemma FullAlready(cfg: TxConfig, st: TxState)
    requires TxOk(cfg, st) && |st.builder.syms| == cfg.k
    ensures Full(cfg, st) == st
  {
    hide TxOk;
    assert PadTo(st.builder.syms, cfg.k, cfg.size) == st.builder.syms;
  }

  /** A block that has filled up is sealed, and the interleaver ticked. */
  lemma FilledScheduled(cfg: TxConfig, codec: FecWrapper.Codec, st: TxState, f: seq<Piece>, n: nat, l: Log, now: int)
    returns (l': Log)
    requires Scheduled(cfg, codec, st, f, n, l) && |st.builder.syms| == cfg.k && st.builder.id < 0x1_0000_0000
    requires n < |f| && f[n].sym.index != 0 ==> f[n].sym.total > cfg.k
    ensures TxOk(cfg, st) && CloseBlock(cfg, codec, st, now).1
    ensures var st' := TickAndDrain(cfg, CloseBlock(cfg, codec, st, now).0, now);
      && TxOk(cfg, st') && Scheduled(cfg, codec, st', f, n, l') && st'.builder.syms == [] && 0 < st'.builder.id
      && st'.builder.id == st.builder.id + 1
    ensures Continues(l, l', now)
  {
    hide Scheduled, CloseBlock, TickAndDrain, TxOk, Continues;
    ScheduledParts(cfg, codec, st, f, n, l);
    BuilderCount(cfg, codec, st, f, n, l);
    FullAlready(cfg, st);
    var m := CloseScheduled(cfg, codec, st, f, n, l, now);
    l' := TickScheduled(cfg, codec, CloseBlock(cfg, codec, st, now).0, f, n, m, now);
    ContinuesOn(l, m, l', now);
  }

  /** The fragment loop: a block that fills up is sealed on the spot, inside a packet only if that is longer than a block. */
  lemma {:induction false} AddScheduled(cfg: TxConfig, codec: FecWrapper.Codec, st: TxState, f: seq<Piece>, l: Log,
                                        g: seq<Symbol>, i: nat, n: nat, now: int)
    returns (st': TxState, l': Log)
    requires Pieced(f, g, now) && AllFit(cfg, g) && i <= |g| <= UINT16_MAX && n + |g| == |f| + i
    requires Scheduled(cfg, codec, st, f, n, l) && |st.builder.syms| < cfg.k
    requires |g| > cfg.k || |st.builder.syms| + |g| - i <= cfg.k
    requires TxOk(cfg, st) && st.builder.id < 0x1_0000_0000
    requires AddFrom(cfg, codec, st, g, i, now).0.builder.id < 0x1_0000_0000
    ensures AddFrom(cfg, codec, st, g, i, now) == (st', true) && Scheduled(cfg, codec, st', f, |f|, l')
    ensures |st'.builder.syms| < cfg.k && Continues(l, l', now)
    decreases |g| - i
  {
    hide *;
    if i == |g| {
      AddEnds(cfg, codec, st, g, i, now);
      st', l' := st, l;
      SameLog(l, now);
    } else {
      NextPiece(f, g, i, n, now);
      ScheduledParts(cfg, codec, st, f, n, l);
      FitsAt(cfg, g, i);
      var added := Joined(st, g[i], now);
      AddedScheduled(cfg, codec, st, f, n, l, g[i], now);
      AddUnfolds(cfg, codec, st, g, i, now);
      if |added.builder.syms| < cfg.k {
        st', l' := AddScheduled(cfg, codec, added, f, l, g, i + 1, n + 1, now);
      } else {
        var m := FilledScheduled(cfg, codec, added, f, n + 1, l, now);
        var next := TickAndDrain(cfg, CloseBlock(cfg, codec, added, now).0, now);
        IdsGrow(cfg, codec, next, g, i + 1, now);
        st', l' := AddScheduled(cfg, codec, next, f, m, g, i + 1, n + 1, now);
        ContinuesOn(l, m, l', now);
      }
    }
  }

  lemma IdsGrow(cfg: TxConfig, codec: FecWrapper.Codec, st: TxState, g: seq<Symbol>, i: nat, now: int)
    requires TxOk(cfg, st) && AllFit(cfg, g) && i <= |g| <= UINT16_MAX && 0 < st.builder.id <= 0x1_0000_0000
    ensures st.builder.id <= AddFrom(cfg, codec, st, g, i, now).0.builder.id
  {
    hide AddFrom, TxOk;
    AddGrows(cfg, codec, st, g, i, now);
  }

  lemma AddEnds(cfg: TxConfig, codec: FecWrapper.Codec, st: TxState, g: seq<Symbol>, i: nat, now: int)
    requires TxOk(cfg, st) && AllFit(cfg, g) && i == |g|
    ensures AddFrom(cfg, codec, st, g, i, now) == (st, true)
  {
  }

  lemma AddUnfolds(cfg: TxConfig, codec: FecWrapper.Codec, st: TxState, g: seq<Symbol>, i: nat, now: int)
    requires TxOk(cfg, st) && AllFit(cfg, g) && i < |g| && |st.builder.syms| < cfg.k
    ensures TxOk(cfg, Joined(st, g[i], now))
    ensures var added := Joined(st, g[i], now);
      if |added.builder.syms| < cfg.k then AddFrom(cfg, codec, st, g, i, now) == AddFrom(cfg, codec, added, g, i + 1, now)
      else
        |added.builder.syms| == cfg.k && (CloseBlock(cfg, codec, added, now).1 ==>
          AddFrom(cfg, codec, st, g, i, now)
          == AddFrom(cfg, codec, TickAndDrain(cfg, CloseBlock(cfg, codec, added, now).0, now), g, i + 1, now))
  {
    hide CloseBlock, TickAndDrain;
    AddedOk(cfg, st, g[i], now);
  }

  lemma NextPiece(f: seq<Piece>, g: seq<Symbol>, i: nat, n: nat, now: int)
    requires Pieced(f, g, now) && i < |g| && n + |g| == |f| + i
    ensures
      && n < |f| && f[n].sym == TxHistory.Bare(g[i]) && f[n].at == now
      && (n + 1 < |f| ==> f[n + 1].sym.index != 0 ==> f[n + 1].sym.total == |g|)
      && (n + 1 < |f| <==> i + 1 < |g|)
  {
    assert PieceOf(f[|f| - |g| + i], g[i], i, |g|, now);
    if i + 1 < |g| { assert PieceOf(f[|f| - |g| + (i + 1)], g[i + 1], i + 1, |g|, now); }
  }

  lemma FitsAt(cfg: TxConfig, g: seq<Symbol>, i: nat)
    requires AllFit(cfg, g) && i < |g|
    ensures Fits(cfg, g[i])
  {
  }

  // ---------------------------------------------------------------------------
  // One call
  // ---------------------------------------------------------------------------

  /** The pieces of a packet: its fragments, unless it is too long to be taken. */
  function PiecesOf(cfg: TxConfig, p: seq<byte>, now: int): (f: seq<Piece>)
    requires ValidTx(cfg)
  {
    match FragmentAll(p, 0, cfg.size, MaxFrags(cfg))
    case None => []
    case Some(g) => seq(|g|, j requires 0 <= j < |g| => Piece(TxHistory.Bare(g[j]), now))
  }

  /** The pieces of an input. */
  function Given(cfg: TxConfig, input: Input, now: int): seq<Piece>
    requires ValidTx(cfg)
  {
    if input.Lan? then PiecesOf(cfg, input.packet, now) else []
  }

  lemma PiecesAre(cfg: TxConfig, p: seq<byte>, id: uint32, f: seq<Piece>, now: int)
    requires ValidTx(cfg)
    ensures var r := FragmentAll(p, id, cfg.size, MaxFrags(cfg));
      match r
      case None => PiecesOf(cfg, p, now) == []
      case Some(g) =>
        && |PiecesOf(cfg, p, now)| == |g| <= UINT16_MAX && Pieced(f + PiecesOf(cfg, p, now), g, now)
        && Arriving(f + PiecesOf(cfg, p, now), |f|, |g|, now)
  {
    var r := FragmentAll(p, id, cfg.size, MaxFrags(cfg));
    if r.Some? {
      var g, g0, f' := r.syms, FragmentAll(p, 0, cfg.size, MaxFrags(cfg)).syms, f + PiecesOf(cfg, p, now);
      forall j | 0 <= j < |g| ensures PieceOf(f'[|f'| - |g| + j], g[j], j, |g|, now) {
        assert g[j] == Fragment(p, id, cfg.size, j) && g0[j] == Fragment(p, 0, cfg.size, j);
      }
      if |g| > 0 { assert PieceOf(f'[|f'| - |g| + 0], g[0], 0, |g|, now); }
    }
  }

  /** More pieces to come change nothing yet. */
  lemma MorePieces(cfg: TxConfig, codec: FecWrapper.Codec, st: TxState, f: seq<Piece>, l: Log, more: seq<Piece>)
    requires Scheduled(cfg, codec, st, f, |f|, l)
    requires ValidTx(cfg) && AllFit(cfg, Syms(more)) && (more != [] ==> more[0].sym.index == 0)
    ensures Scheduled(cfg, codec, st, f + more, |f|, l)
  {
    hide TxOk, InWindow, OnWire, SendsWhy, Laid, CutsWhy;
    LaidMore(cfg, f, l.cuts, more);
    OnWireMore(cfg, codec, st.wire, f, l, more);
    CutsWhyGrow(cfg.k, f, l.cuts, more);
    assert (f + more)[Last(l.cuts)..|f|] == f[Last(l.cuts)..|f|];
  }

  lemma LaidMore(cfg: TxConfig, f: seq<Piece>, cuts: seq<Cut>, more: seq<Piece>)
    requires Laid(cfg, f, cuts) && AllFit(cfg, Syms(more))
    ensures Laid(cfg, f + more, cuts)
  {
    PartsWider(cuts, cfg.k, |f|, |f + more|);
    var all := Syms(f + more);
    forall i | 0 <= i < |all| ensures Fits(cfg, all[i]) {
      assert all[i] == if i < |f| then Syms(f)[i] else Syms(more)[i - |f|];
    }
  }

  lemma OnWireMore(cfg: TxConfig, codec: FecWrapper.Codec, wire: seq<Symbol>, f: seq<Piece>, l: Log, more: seq<Piece>)
    requires Laid(cfg, f, l.cuts) && OnWire(cfg, codec, wire, f, l) && Laid(cfg, f + more, l.cuts)
    ensures OnWire(cfg, codec, wire, f + more, l)
  {
    hide RowAt, Laid, WireFrom;
    forall b: nat | b < |l.blocks| ensures RowAt(cfg, codec, f + more, l.cuts, b) == RowAt(cfg, codec, f, l.cuts, b) {
      RowSame(cfg, codec, f, l.cuts, f + more, l.cuts, b);
    }
  }

  lemma CutsWhyGrow(k: nat, f: seq<Piece>, cuts: seq<Cut>, more: seq<Piece>)
    requires CutsWhy(k, f, cuts) && (more != [] ==> more[0].sym.index == 0)
    ensures CutsWhy(k, f + more, cuts)
  {
    forall b: nat | b < |cuts| ensures SealedWhy(k, f + more, Begin(cuts, b), cuts[b].upTo, cuts[b].at) {
      assert SealedWhy(k, f, Begin(cuts, b), cuts[b].upTo, cuts[b].at);
    }
  }

  /** The packet's pieces are in: room was made for them, they were added, and the timeout checked. */
  lemma TakeScheduled(cfg: TxConfig, codec: FecWrapper.Codec, st: TxState, f: seq<Piece>, n: nat, l: Log, g: seq<Symbol>, now: int)
    returns (st': TxState, l': Log)
    requires Scheduled(cfg, codec, st, f, n, l) && |st.builder.syms| < cfg.k
    requires Pieced(f, g, now) && Arriving(f, n, |g|, now) && AllFit(cfg, g) && |g| <= UINT16_MAX
    requires TxOk(cfg, st) && st.builder.id < 0x1_0000_0000
    requires TakePacket(cfg, codec, st, g, now).0.builder.id < 0x1_0000_0000
    ensures TakePacket(cfg, codec, st, g, now) == (st', true) && Scheduled(cfg, codec, st', f, |f|, l')
    ensures |st'.builder.syms| < cfg.k && Continues(l, l', now) && BuilderPrompt(f, |f|, l', now)
  {
    hide *;
    ScheduledParts(cfg, codec, st, f, n, l);
    var m1 := RoomScheduled(cfg, codec, st, f, n, l, |g|, now);
    var roomy := MakeRoom(cfg, codec, st, |g|, now).0;
    IdsTaken(cfg, codec, st, g, now);
    ArrivingCount(f, n, |g|, now);
    var added, m2 := AddScheduled(cfg, codec, roomy, f, m1, g, 0, n, now);
    l' := TimeoutScheduled(cfg, codec, added, f, m2, now);
    st' := FlushIfTimedOut(cfg, codec, added, now).0;
    TakeUnfolds(cfg, codec, st, g, now);
    ContinuesOn(l, m1, m2, now);
    ContinuesOn(l, m2, l', now);
  }

  lemma ArrivingCount(f: seq<Piece>, n: nat, frags: nat, now: int)
    requires Arriving(f, n, frags, now)
    ensures n + frags == |f|
  {
  }

  lemma TakeUnfolds(cfg: TxConfig, codec: FecWrapper.Codec, st: TxState, g: seq<Symbol>, now: int)
    requires TxOk(cfg, st) && AllFit(cfg, g) && MakeRoom(cfg, codec, st, |g|, now).1
    ensures var roomy := MakeRoom(cfg, codec, st, |g|, now).0;
      AddFrom(cfg, codec, roomy, g, 0, now).1 ==>
        TakePacket(cfg, codec, st, g, now) == FlushIfTimedOut(cfg, codec, AddFrom(cfg, codec, roomy, g, 0, now).0, now)
  {
    hide MakeRoom, AddFrom, FlushIfTimedOut, TxOk;
  }

  lemma IdsTaken(cfg: TxConfig, codec: FecWrapper.Codec, st: TxState, g: seq<Symbol>, now: int)
    requires TxOk(cfg, st) && AllFit(cfg, g) && |g| <= UINT16_MAX && 0 < st.builder.id < 0x1_0000_0000
    requires MakeRoom(cfg, codec, st, |g|, now).1 && 0 < MakeRoom(cfg, codec, st, |g|, now).0.builder.id <= st.builder.id + 1
    requires TakePacket(cfg, codec, st, g, now).0.builder.id < 0x1_0000_0000
    ensures var roomy := MakeRoom(cfg, codec, st, |g|, now).0;
      && roomy.builder.id < 0x1_0000_0000 && AddFrom(cfg, codec, roomy, g, 0, now).0.builder.id < 0x1_0000_0000
  {
    hide MakeRoom, AddFrom, FlushIfTimedOut, TxOk, TakePacket;
    TakeGrows(cfg, codec, st, g, now);
  }

  /** Calls that look at the clocks: idle ones, and those that take a packet. */
  predicate Attends(cfg: TxConfig, input: Input)
    requires ValidTx(cfg)
  {
    input.Idle? || (input.Lan? && FragmentAll(input.packet, 0, cfg.size, MaxFrags(cfg)).Some?)
  }

  lemma CounterFree(cfg: TxConfig, codec: FecWrapper.Codec, st: TxState, f: seq<Piece>, n: nat, l: Log)
    requires Scheduled(cfg, codec, st, f, n, l)
    ensures Scheduled(cfg, codec, Counted(st), f, n, l) && Counted(st).builder == st.builder
  {
    hide Logged, InWindow, InBuilder;
  }

  lemma GivenFits(cfg: TxConfig, p: seq<byte>, now: int)
    requires ValidTx(cfg)
    ensures AllFit(cfg, Syms(PiecesOf(cfg, p, now)))
    ensures PiecesOf(cfg, p, now) != [] ==> PiecesOf(cfg, p, now)[0].sym.index == 0
  {
    if FragmentAll(p, 0, cfg.size, MaxFrags(cfg)).Some? { FragmentsFit(cfg, p, 0); }
  }

  lemma IdleScheduled(cfg: TxConfig, codec: FecWrapper.Codec, st: TxState, f: seq<Piece>, l: Log, now: int)
    returns (st': TxState, l': Log)
    requires Scheduled(cfg, codec, st, f, |f|, l) && |st.builder.syms| < cfg.k && st.builder.id < 0x1_0000_0000 && TxOk(cfg, st)
    ensures RunOnce(cfg, codec, st, Idle, now) == (st', true) && Scheduled(cfg, codec, st', f, |f|, l')
    ensures |st'.builder.syms| < cfg.k && Continues(l, l', now) && BuilderPrompt(f, |f|, l', now) && WindowPrompt(l', now)
  {
    hide *;
    ScheduledParts(cfg, codec, st, f, |f|, l);
    var m := TimeoutScheduled(cfg, codec, st, f, l, now);
    l' := TickScheduled(cfg, codec, FlushIfTimedOut(cfg, codec, st, now).0, f, |f|, m, now);
    st' := TickAndDrain(cfg, FlushIfTimedOut(cfg, codec, st, now).0, now);
    IdleUnfolds(cfg, codec, st, now);
    ContinuesOn(l, m, l', now);
    SameCuts(f, m, l', now);
  }

  lemma SameCuts(f: seq<Piece>, l: Log, l': Log, now: int)
    requires BuilderPrompt(f, |f|, l, now) && l'.cuts == l.cuts
    ensures BuilderPrompt(f, |f|, l', now)
  {
  }

  lemma IdleUnfolds(cfg: TxConfig, codec: FecWrapper.Codec, st: TxState, now: int)
    requires TxOk(cfg, st) && FlushIfTimedOut(cfg, codec, st, now).1
    ensures RunOnce(cfg, codec, st, Idle, now) == (TickAndDrain(cfg, FlushIfTimedOut(cfg, codec, st, now).0, now), true)
  {
    hide FlushIfTimedOut, TickAndDrain, TxOk;
  }

  /** The state with the packet counted. */
  function Counted(st: TxState): TxState {
    st.(nextPacket := (st.nextPacket + 1) % 0x1_0000_0000)
  }

  lemma CountedOk(cfg: TxConfig, st: TxState, p: seq<byte>, g: seq<Symbol>)
    requires TxOk(cfg, st) && ValidTx(cfg) && FragmentAll(p, st.nextPacket, cfg.size, MaxFrags(cfg)) == Some(g)
    ensures TxOk(cfg, Counted(st)) && AllFit(cfg, g)
  {
    CounterOk(cfg, st, (st.nextPacket + 1) % 0x1_0000_0000);
    FragmentsFit(cfg, p, st.nextPacket);
  }

  lemma LanUnfolds(cfg: TxConfig, codec: FecWrapper.Codec, st: TxState, p: seq<byte>, g: seq<Symbol>, now: int)
    requires TxOk(cfg, st) && ValidTx(cfg) && FragmentAll(p, st.nextPacket, cfg.size, MaxFrags(cfg)) == Some(g)
    ensures TxOk(cfg, Counted(st)) && AllFit(cfg, g)
    ensures var taken := TakePacket(cfg, codec, Counted(st), g, now);
      RunOnce(cfg, codec, st, Lan(p), now) == if taken.1 then (TickAndDrain(cfg, taken.0, now), true) else taken
  {
    CountedOk(cfg, st, p, g);
    hide TakePacket, TickAndDrain, FragmentAll, AllFit, TxOk;
  }

  lemma TickKeepsBuilder(cfg: TxConfig, st: TxState, now: int)
    requires TxOk(cfg, st)
    ensures TickAndDrain(cfg, st, now).builder == st.builder
  {
  }

  lemma LanScheduled(cfg: TxConfig, codec: FecWrapper.Codec, st: TxState, f: seq<Piece>, l: Log, p: seq<byte>, g: seq<Symbol>, now: int)
    returns (st': TxState, l': Log)
    requires Scheduled(cfg, codec, st, f, |f|, l) && |st.builder.syms| < cfg.k && st.builder.id < 0x1_0000_0000 && TxOk(cfg, st)
    requires ValidTx(cfg) && FragmentAll(p, st.nextPacket, cfg.size, MaxFrags(cfg)) == Some(g)
    requires RunOnce(cfg, codec, st, Lan(p), now).0.builder.id < 0x1_0000_0000
    ensures var f' := f + PiecesOf(cfg, p, now);
      && RunOnce(cfg, codec, st, Lan(p), now) == (st', true) && Scheduled(cfg, codec, st', f', |f'|, l')
      && BuilderPrompt(f', |f'|, l', now)
    ensures |st'.builder.syms| < cfg.k && Continues(l, l', now) && WindowPrompt(l', now)
  {
    hide *;
    var f' := f + PiecesOf(cfg, p, now);
    LanUnfolds(cfg, codec, st, p, g, now);
    PiecesAre(cfg, p, st.nextPacket, f, now);
    GivenFits(cfg, p, now);
    MorePieces(cfg, codec, st, f, l, PiecesOf(cfg, p, now));
    CounterFree(cfg, codec, st, f', |f|, l);
    TickKeepsBuilder(cfg, TakePacket(cfg, codec, Counted(st), g, now).0, now);
    var taken, m := TakeScheduled(cfg, codec, Counted(st), f', |f|, l, g, now);
    l' := TickScheduled(cfg, codec, taken, f', |f'|, m, now);
    st' := TickAndDrain(cfg, taken, now);
    ContinuesOn(l, m, l', now);
    SameCuts(f', m, l', now);
  }

  // ---------------------------------------------------------------------------
  // Runs
  // ---------------------------------------------------------------------------

  /** The fragments of all packets taken, in order, with the times they were taken. */
  function Pieces(cfg: TxConfig, es: seq<TxEvent>): (f: seq<Piece>)
    requires ValidTx(cfg)
  {
    if es == [] then [] else Pieces(cfg, es[..|es| - 1]) + Given(cfg, es[|es| - 1].input, es[|es| - 1].now)
  }

  /** The time of the first call after which the builder has gone past this id. */
  ghost function SealTime(cfg: TxConfig, codec: FecWrapper.Codec, es: seq<TxEvent>, id: nat): int
    requires ValidTx(cfg)
  {
    if es == [] then 0
    else if TxRun(cfg, codec, es[..|es| - 1]).builder.id > id then SealTime(cfg, codec, es[..|es| - 1], id)
    else es[|es| - 1].now
  }

  /** The time of the first call after which more than n symbols have been sent. */
  ghost function SendTime(cfg: TxConfig, codec: FecWrapper.Codec, es: seq<TxEvent>, n: int): int
    requires ValidTx(cfg)
  {
    if es == [] then 0
    else if |TxRun(cfg, codec, es[..|es| - 1]).wire| > n then SendTime(cfg, codec, es[..|es| - 1], n)
    else es[|es| - 1].now
  }

  /** The times of the log are those of the run. */
  ghost predicate Timed(cfg: TxConfig, codec: FecWrapper.Codec, es: seq<TxEvent>, l: Log)
    requires ValidTx(cfg)
  {
    && (forall b: nat :: b < |l.cuts| ==> l.cuts[b].at == SealTime(cfg, codec, es, b + 1))
    && (forall w: nat :: w < |l.sends| ==> l.sends[w].at == SendTime(cfg, codec, es, BurstBound.Start(TxGeometry(cfg), w)))
  }

  lemma AreaPositive(g: Geometry)
    requires ValidGeometry(g)
    ensures BurstBound.Area(g) == g.n * g.depth > 0
  {
  }

  lemma StartsAtZero(g: Geometry)
    ensures BurstBound.Start(g, 0) == 0
  {
  }

  lemma {:induction false} StartsGrow(g: Geometry, v: nat, w: nat)
    requires ValidGeometry(g) && v <= w
    ensures BurstBound.Start(g, v) <= BurstBound.Start(g, w) && (v < w ==> BurstBound.Start(g, v) < BurstBound.Start(g, w))
  {
    hide BurstBound.Start;
    if v < w {
      StartsGrow(g, v, w - 1);
      BurstBound.NextStart(g, w - 1);
      AreaPositive(g);
    }
  }

  lemma {:induction false} WireLength(g: Geometry, blocks: seq<Row>, sends: seq<Cut>)
    requires ValidGeometry(g) && TxSchedule.AllFull(g, blocks) && Parts(sends, g.depth, |blocks|)
    ensures |WireFrom(g, blocks, sends)| == BurstBound.Start(g, |sends|)
    decreases |sends|
  {
    hide FullRow, Padded, Parts, BurstBound.Start;
    if sends == [] {
      StartsAtZero(g);
    } else {
      PartsPrefix(sends, g.depth, |blocks|);
      WireLength(g, blocks, sends[..|sends| - 1]);
      BurstBound.NextStart(g, |sends| - 1);
    }
  }

  lemma NothingScheduled(cfg: TxConfig, codec: FecWrapper.Codec)
    requires ValidTx(cfg)
    ensures Scheduled(cfg, codec, InitialTx, [], 0, Log([], [], []))
  {
    InitialOk(cfg);
    assert TxHistory.BareAll([]) == Syms([]);
  }

  lemma WireCount(cfg: TxConfig, codec: FecWrapper.Codec, st: TxState, f: seq<Piece>, n: nat, l: Log)
    requires Scheduled(cfg, codec, st, f, n, l)
    ensures ValidTx(cfg) && |st.wire| == BurstBound.Start(TxGeometry(cfg), |l.sends|)
  {
    hide RowAt, Laid, WireFrom, TxOk, CutsWhy, SendsWhy, Parts, BlocksAre;
    BlocksFull(cfg, codec, f, l);
    GeometryOk(cfg, f, l.cuts);
    WireLength(TxGeometry(cfg), l.blocks, l.sends);
  }

  lemma TimedMore(cfg: TxConfig, codec: FecWrapper.Codec, es: seq<TxEvent>, f: seq<Piece>, l: Log, l': Log)
    requires ValidTx(cfg) && es != [] && Timed(cfg, codec, es[..|es| - 1], l) && Continues(l, l', es[|es| - 1].now)
    requires Scheduled(cfg, codec, TxRun(cfg, codec, es[..|es| - 1]), f, |f|, l)
    ensures Timed(cfg, codec, es, l')
  {
    hide Scheduled, TxRun, BurstBound.Start;
    var before, g := es[..|es| - 1], TxGeometry(cfg);
    var st := TxRun(cfg, codec, before);
    ScheduledParts(cfg, codec, st, f, |f|, l);
    WireCount(cfg, codec, st, f, |f|, l);
    forall b: nat | b < |l'.cuts| ensures l'.cuts[b].at == SealTime(cfg, codec, es, b + 1) {
      if b < |l.cuts| { assert l'.cuts[b] == l.cuts[b]; }
    }
    forall w: nat | w < |l'.sends| ensures l'.sends[w].at == SendTime(cfg, codec, es, BurstBound.Start(g, w)) {
      if w < |l.sends| {
        assert l'.sends[w] == l.sends[w];
        StartsGrow(g, w, |l.sends|);
      } else {
        StartsGrow(g, |l.sends|, w);
      }
    }
  }

  /** One call of run_once, whatever it is given. */
  lemma StepScheduled(cfg: TxConfig, codec: FecWrapper.Codec, st: TxState, f: seq<Piece>, l: Log, input: Input, now: int)
    returns (st': TxState, l': Log)
    requires Scheduled(cfg, codec, st, f, |f|, l) && |st.builder.syms| < cfg.k && st.builder.id < 0x1_0000_0000
    requires TxOk(cfg, st) && ValidTx(cfg) && RunOnce(cfg, codec, st, input, now).0.builder.id < 0x1_0000_0000
    ensures var f' := f + Given(cfg, input, now);
      && RunOnce(cfg, codec, st, input, now) == (st', true) && Scheduled(cfg, codec, st', f', |f'|, l')
      && (Attends(cfg, input) ==> BuilderPrompt(f', |f'|, l', now))
    ensures |st'.builder.syms| < cfg.k && Continues(l, l', now) && (Attends(cfg, input) ==> WindowPrompt(l', now))
  {
    hide Scheduled, RunOnce, TxOk, BuilderPrompt, WindowPrompt, FragmentAll, Continues;
    assert f + [] == f;
    SameLog(l, now);
    match input
    case Idle => st', l' := IdleScheduled(cfg, codec, st, f, l, now);
    case NotForwarded =>
      st', l' := st, l;
      NotTaken(cfg, codec, st, now);
    case Lan(p) =>
      SameTaken(cfg, p, 0, st.nextPacket);
      var r := FragmentAll(p, st.nextPacket, cfg.size, MaxFrags(cfg));
      if r.Some? {
        st', l' := LanScheduled(cfg, codec, st, f, l, p, r.syms, now);
      } else {
        st', l' := st, l;
        LanRefused(cfg, codec, st, p, now);
      }
  }

  lemma NotTaken(cfg: TxConfig, codec: FecWrapper.Codec, st: TxState, now: int)
    requires TxOk(cfg, st)
    ensures RunOnce(cfg, codec, st, NotForwarded, now) == (st, true)
  {
  }

  lemma LanRefused(cfg: TxConfig, codec: FecWrapper.Codec, st: TxState, p: seq<byte>, now: int)
    requires TxOk(cfg, st) && ValidTx(cfg) && FragmentAll(p, st.nextPacket, cfg.size, MaxFrags(cfg)).None?
    ensures RunOnce(cfg, codec, st, Lan(p), now) == (st, true)
  {
    hide TxOk, FragmentAll;
  }

  /** Whether a packet is taken does not depend on its number. */
  lemma SameTaken(cfg: TxConfig, p: seq<byte>, a: uint32, b: uint32)
    requires ValidTx(cfg)
    ensures FragmentAll(p, a, cfg.size, MaxFrags(cfg)).Some? == FragmentAll(p, b, cfg.size, MaxFrags(cfg)).Some?
    ensures FragmentAll(p, 0, cfg.size, MaxFrags(cfg)).None? ==> PiecesOf(cfg, p, 0) == []
  {
  }

  /**
   Over every run with block ids below 2 to the 32, packets of any length included: the fragments, in the order they
   came, are cut into blocks, numbered from 1, whose rows hold them and nothing else but zero symbols; a block is sealed
   when it holds k fragments, or when its first fragment came 2 ms ago, or when the next packet has too many fragments to
   join it, and a packet is divided only if it is longer than a block; the blocks are grouped into windows of depth, or of
   fewer once the first of them was sealed 5 ms ago; what is sent is those windows; and after every call that looks at the
   clocks, what waits is younger than that.
   */
  lemma {:induction false} ScheduleTheorem(cfg: TxConfig, codec: FecWrapper.Codec, es: seq<TxEvent>) returns (l: Log)
    requires ValidTx(cfg) && IdsInBounds(cfg, codec, es)
    ensures var st, f := TxRun(cfg, codec, es), Pieces(cfg, es);
      && Scheduled(cfg, codec, st, f, |f|, l) && |st.builder.syms| < cfg.k
      && (es != [] && Attends(cfg, es[|es| - 1].input) ==>
            BuilderPrompt(f, |f|, l, es[|es| - 1].now) && WindowPrompt(l, es[|es| - 1].now))
    ensures Timed(cfg, codec, es, l)
  {
    if es == [] {
      l := Log([], [], []);
      NothingScheduled(cfg, codec);
    } else {
      hide Scheduled, RunOnce, Timed, Continues, Given, BuilderPrompt, WindowPrompt, Attends;
      var before, e := es[..|es| - 1], es[|es| - 1];
      var m := ScheduleTheorem(cfg, codec, before);
      var st', l' := StepScheduled(cfg, codec, TxRun(cfg, codec, before), Pieces(cfg, before), m, e.input, e.now);
      l := l';
      TimedMore(cfg, codec, es, Pieces(cfg, before), m, l);
    }
  }
}
