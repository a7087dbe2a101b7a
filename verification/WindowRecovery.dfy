/** The receiver undoes the interleaver: what survives of a window ends up in one slot per block, ready with k symbols. */
module WindowRecovery {
  import opened Types
  import opened Arithmetic
  import Interleaving
  import opened InterleaverWindows
  import opened DeinterleaverSpec
  import opened DeinterleaverMap
  import Invariant = DeinterleaverInvariant
  import BurstBound

  /** The state after the arrivals have been pushed in order. */
  ghost function Receive(c: Config, st: State, ps: seq<Arrival>): (st': State)
    requires ValidConfig(c) && Inv(c, st)
    ensures Inv(c, st')
  {
    if ps == [] then st
    else
      var p := ps[|ps| - 1];
      var before := Receive(c, st, ps[..|ps| - 1]);
      Invariant.PushKeeps(c, before, p.sym, p.now);
      Push(c, before, p.sym, p.now).0
  }

  /** Arrivals of one window: every symbol acceptable or padding, all within the quiet period of t0. */
  ghost predicate InTime(c: Config, ps: seq<Arrival>, t0: int) {
    forall i :: 0 <= i < |ps| ==>
      && (IsErasure(ps[i].sym) || Acceptable(c, ps[i].sym))
      && t0 <= ps[i].now && ps[i].now - t0 < c.stab && ps[i].now - t0 < AgeLimit(c)
  }

  /** The arrivals that are not padding. */
  ghost function Solid(ps: seq<Arrival>): (q: seq<Arrival>) {
    if ps == [] then []
    else Solid(ps[..|ps| - 1]) + if IsErasure(ps[|ps| - 1].sym) then [] else [ps[|ps| - 1]]
  }

  /** Each block holds exactly its first arrivals, and is ready exactly when it holds all n. */
  ghost predicate Gathered(c: Config, m: map<uint32, Received>, first: map<(uint32, uint32), Symbol>, t0: int) {
    && (forall p :: p in first ==> p.0 in m)
    && (forall id :: id in m ==>
          && m[id].symbols == CellsOf(first, id)
          && (m[id].ready <==> |m[id].symbols| == c.n)
          && t0 <= m[id].first && t0 <= m[id].last < t0 + c.stab)
  }

  lemma NoFreeze(c: Config, valid: int, first: int, last: int, now: int, t0: int)
    requires ValidConfig(c) && c.stab > 0 && 1 <= valid <= c.n && last == now
    requires t0 <= first && t0 <= now && now - t0 < AgeLimit(c)
    ensures FreezeRule(c, valid, first, last, AgeLimit(c), now) == if valid == c.n then Promote else Stay
  {
  }

  /** A new symbol within the quiet period: stored, and promoted only by completion. */
  lemma DeliverNew(c: Config, m: map<uint32, Received>, t0: int, s: Symbol, now: int)
    requires ValidConfig(c) && c.stab > 0 && t0 <= now && now - t0 < AgeLimit(c)
    requires var b := if s.packetId in m then m[s.packetId] else Received(false, map[], now, now);
             !b.ready && s.fecId !in b.symbols && t0 <= b.first && |b.symbols| < c.n
    ensures var b := if s.packetId in m then m[s.packetId] else Received(false, map[], now, now);
            var symbols := b.symbols[s.fecId := s];
            Deliver(c, m, s, now) == m[s.packetId := Received(|symbols| == c.n, symbols, b.first, now)]
  {
    var b := if s.packetId in m then m[s.packetId] else Received(false, map[], now, now);
    var stored := Received(false, b.symbols[s.fecId := s], b.first, now);
    NoFreeze(c, |stored.symbols|, b.first, now, now, t0);
    assert m[s.packetId := stored][s.packetId := stored.(ready := true)] == m[s.packetId := stored.(ready := true)];
  }

  /** Recording a first arrival in its block. */
  lemma GatherNew(c: Config, m: map<uint32, Received>, first: map<(uint32, uint32), Symbol>, t0: int, s: Symbol, b: Received)
    requires Gathered(c, m, first, t0) && b.symbols == CellsOf(first, s.packetId)[s.fecId := s]
    requires (b.ready <==> |b.symbols| == c.n) && t0 <= b.first && t0 <= b.last < t0 + c.stab
    ensures Gathered(c, m[s.packetId := b], first[(s.packetId, s.fecId) := s], t0)
  {
    hide CellsOf;
    var first' := first[(s.packetId, s.fecId) := s];
    forall k: uint32
      ensures CellsOf(first', k) == if k == s.packetId then CellsOf(first, k)[s.fecId := s] else CellsOf(first, k)
    {
      CellsAfter(first, s, k);
    }
  }

  /** Delivering one more arrival within the quiet period. */
  lemma DeliverGathers(c: Config, m: map<uint32, Received>, first: map<(uint32, uint32), Symbol>, t0: int, s: Symbol, now: int)
    requires ValidConfig(c) && c.stab > 0 && Gathered(c, m, first, t0) && Acceptable(c, s)
    requires forall p :: p in first ==> p.1 < c.n
    requires t0 <= now && now - t0 < c.stab && now - t0 < AgeLimit(c)
    ensures Gathered(c, Deliver(c, m, s, now), WithFirst(first, s), t0)
    ensures Deliver(c, m, s, now).Keys == m.Keys + {s.packetId}
  {
    hide CellsOf, Deliver, Gathered;
    if (s.packetId, s.fecId) in first {
      KnownGathers(c, m, first, t0, s, now);
    } else {
      NewGathers(c, m, first, t0, s, now);
    }
  }

  lemma KnownGathers(c: Config, m: map<uint32, Received>, first: map<(uint32, uint32), Symbol>, t0: int, s: Symbol, now: int)
    requires ValidConfig(c) && Gathered(c, m, first, t0) && Acceptable(c, s) && t0 <= now
    requires (forall p :: p in first ==> p.1 < c.n) && (s.packetId, s.fecId) in first
    ensures Deliver(c, m, s, now) == m && s.packetId in m
  {
    hide CellsOf, Deliver, Gathered;
    var b := BlockBefore(c, m, first, t0, s, now);
    DeliverKnown(c, m, s, now);
  }

  lemma NewGathers(c: Config, m: map<uint32, Received>, first: map<(uint32, uint32), Symbol>, t0: int, s: Symbol, now: int)
    requires ValidConfig(c) && c.stab > 0 && Gathered(c, m, first, t0) && Acceptable(c, s)
    requires (forall p :: p in first ==> p.1 < c.n) && (s.packetId, s.fecId) !in first
    requires t0 <= now && now - t0 < c.stab && now - t0 < AgeLimit(c)
    ensures Gathered(c, Deliver(c, m, s, now), first[(s.packetId, s.fecId) := s], t0)
    ensures Deliver(c, m, s, now).Keys == m.Keys + {s.packetId}
  {
    hide CellsOf, Deliver, Gathered;
    var b := BlockBefore(c, m, first, t0, s, now);
    var symbols := b.symbols[s.fecId := s];
    DeliverNew(c, m, t0, s, now);
    GatherNew(c, m, first, t0, s, Received(|symbols| == c.n, symbols, b.first, now));
  }

  lemma DeliverKnown(c: Config, m: map<uint32, Received>, s: Symbol, now: int)
    requires ValidConfig(c) && s.packetId in m && s.fecId in m[s.packetId].symbols
    ensures Deliver(c, m, s, now) == m
  {
  }

  /** The block a symbol is delivered to, present or fresh. */
  lemma BlockBefore(c: Config, m: map<uint32, Received>, first: map<(uint32, uint32), Symbol>, t0: int, s: Symbol, now: int)
    returns (b: Received)
    requires ValidConfig(c) && Gathered(c, m, first, t0) && Acceptable(c, s) && t0 <= now
    requires forall p :: p in first ==> p.1 < c.n
    ensures b == if s.packetId in m then m[s.packetId] else Received(false, map[], now, now)
    ensures b.symbols == CellsOf(first, s.packetId) && t0 <= b.first
    ensures s.fecId in b.symbols <==> (s.packetId, s.fecId) in first
    ensures s.fecId in b.symbols ==> s.packetId in m
    ensures s.fecId !in b.symbols ==> |b.symbols| < c.n && !b.ready
  {
    var id := s.packetId;
    b := if id in m then m[id] else Received(false, map[], now, now);
    if id !in m { NoCells(m, first, id); }
    InCells(first, id, s.fecId);
    InRange(c, first, id);
    KeysBound(b.symbols, c.n);
  }

  lemma NoCells(m: map<uint32, Received>, first: map<(uint32, uint32), Symbol>, id: uint32)
    requires id !in m && forall p :: p in first ==> p.0 in m
    ensures CellsOf(first, id) == map[]
  {
  }

  lemma InRange(c: Config, first: map<(uint32, uint32), Symbol>, id: uint32)
    requires forall p :: p in first ==> p.1 < c.n
    ensures forall f :: f in CellsOf(first, id) ==> 0 <= f < c.n
  {
  }

  // ---------------------------------------------------------------------------
  // Whole windows
  // ---------------------------------------------------------------------------

  ghost predicate NamesExactly(keys: seq<uint32>, m: map<uint32, Received>) {
    (forall id :: id in m <==> id in keys) && |m| == |keys|
  }

  lemma NameOne(keys: seq<uint32>, m: map<uint32, Received>, m': map<uint32, Received>, id: uint32)
    requires NamesExactly(keys, m) && m'.Keys == m.Keys + {id}
    ensures NamesExactly(WithKey(keys, id), m')
  {
    assert |m'.Keys| == |m.Keys| + if id in m then 0 else 1;
    assert |m'| == |m'.Keys| && |m| == |m.Keys|;
    assert id in keys + [id];
  }

  /** A push that finds its block, or room, evicts nothing. */
  lemma NoEviction(c: Config, st: State, s: Symbol, now: int)
    requires ValidConfig(c) && Inv(c, st) && !IsErasure(s) && Acceptable(c, s)
    requires s.packetId in Blocks(st.slots) || |Blocks(st.slots)| < c.slots
    ensures Blocks(Push(c, st, s, now).0.slots) == Deliver(c, Blocks(st.slots), s, now)
  {
    hide Push, Blocks, Deliver;
    var gone := PushRefines(c, st, s, now);
    assert gone == {};
    MinusNothing(Blocks(st.slots));
  }

  lemma SolidStep(ps: seq<Arrival>)
    requires ps != []
    ensures var before, s := ps[..|ps| - 1], ps[|ps| - 1].sym;
            if IsErasure(s) then Solid(ps) == Solid(before)
            else First(Solid(ps)) == WithFirst(First(Solid(before)), s)
                 && Keys(Solid(ps)) == WithKey(Keys(Solid(before)), s.packetId)
  {
    var q := Solid(ps[..|ps| - 1]);
    if !IsErasure(ps[|ps| - 1].sym) { assert Solid(ps)[..|q|] == q; }
  }

  lemma {:induction false} SolidInTime(c: Config, ps: seq<Arrival>, t0: int)
    requires InTime(c, ps, t0)
    ensures forall p :: p in First(Solid(ps)) ==> p.1 < c.n
  {
    if ps != [] {
      SolidStep(ps);
      SolidInTime(c, ps[..|ps| - 1], t0);
    }
  }

  /**
   Whatever arrives of a window within the quiet period of its first symbol, in any order and with
   duplicates and padding: no block is evicted, and every block holds exactly its first arrivals.
   */
  lemma {:induction false} ReceiveTheorem(c: Config, st: State, ps: seq<Arrival>, t0: int)
    requires ValidConfig(c) && Inv(c, st) && c.stab > 0 && Blocks(st.slots) == map[]
    requires InTime(c, ps, t0) && |Keys(Solid(ps))| <= c.slots
    ensures Gathered(c, Blocks(Receive(c, st, ps).slots), First(Solid(ps)), t0)
    ensures NamesExactly(Keys(Solid(ps)), Blocks(Receive(c, st, ps).slots))
  {
    hide CellsOf, Push, Deliver, Blocks, First, Keys;
    if ps == [] {
      NothingArrived(c, t0);
    } else {
      var before, p := ps[..|ps| - 1], ps[|ps| - 1];
      SolidStep(ps);
      ReceiveTheorem(c, st, before, t0);
      SolidInTime(c, before, t0);
      var m := Blocks(Receive(c, st, before).slots);
      if IsErasure(p.sym) {
        ErasureIgnored(c, Receive(c, st, before), p.sym, p.now);
      } else {
        NoEviction(c, Receive(c, st, before), p.sym, p.now);
        DeliverGathers(c, m, First(Solid(before)), t0, p.sym, p.now);
        NameOne(Keys(Solid(before)), m, Deliver(c, m, p.sym, p.now), p.sym.packetId);
      }
    }
  }

  lemma NothingArrived(c: Config, t0: int)
    ensures Gathered(c, map[], First(Solid([])), t0) && NamesExactly(Keys(Solid([])), map[])
  {
  }

  lemma ErasureIgnored(c: Config, st: State, s: Symbol, now: int)
    requires ValidConfig(c) && Inv(c, st) && IsErasure(s)
    ensures Push(c, st, s, now).0.slots == st.slots
  {
  }

  /** A tick once every block has been quiet for the stabilization time: enough symbols means ready. */
  lemma TickGathers(c: Config, st: State, first: map<(uint32, uint32), Symbol>, t0: int, now: int)
    requires ValidConfig(c) && Inv(c, st) && c.stab > 0 && now >= t0 + 2 * c.stab
    requires Gathered(c, Blocks(st.slots), first, t0)
    ensures var m, m' := Blocks(st.slots), Blocks(Tick(c, st, -1, now).slots);
            && (forall id :: id in m && |CellsOf(first, id)| >= c.k ==>
                  id in m' && m'[id].ready && m'[id].symbols == CellsOf(first, id))
            && (forall id :: id in m' ==> id in m)
            && (forall id :: id in m' && m'[id].ready ==> |CellsOf(first, id)| >= c.k)
  {
    hide Blocks, CellsOf, Tick;
    TickRefines(c, st, -1, now);
  }

  /** Receive a window, then tick: exactly the blocks with at least k arrivals are ready, each with exactly its first arrivals. */
  lemma RecoveryTheorem(c: Config, st: State, ps: seq<Arrival>, t0: int, now: int)
    requires ValidConfig(c) && Inv(c, st) && c.stab > 0 && Blocks(st.slots) == map[]
    requires InTime(c, ps, t0) && |Keys(Solid(ps))| <= c.slots && now >= t0 + 2 * c.stab
    ensures var m := Blocks(Tick(c, Receive(c, st, ps), -1, now).slots);
            forall id ::
              (id in m && m[id].ready <==> id in Keys(Solid(ps)) && |CellsOf(First(Solid(ps)), id)| >= c.k) &&
              (id in m && m[id].ready ==> m[id].symbols == CellsOf(First(Solid(ps)), id))
  {
    ReceiveTheorem(c, st, ps, t0);
    hide Blocks, CellsOf, Tick, Receive, First, Keys, Solid;
    TickGathers(c, Receive(c, st, ps), First(Solid(ps)), t0, now);
  }

  // ---------------------------------------------------------------------------
  // A burst on the wire
  // ---------------------------------------------------------------------------

  /** The arrivals are the symbols of d outside `lost`, each at least once, in any order. */
  ghost predicate Survived(d: seq<Symbol>, lost: set<int>, ps: seq<Arrival>) {
    && (forall j :: 0 <= j < |ps| ==> PartOf(d, lost, ps[j].sym))
    && (forall i :: 0 <= i < |d| && i !in lost ==> Reached(ps, d[i]))
  }

  ghost predicate PartOf(d: seq<Symbol>, lost: set<int>, s: Symbol) {
    exists i :: 0 <= i < |d| && i !in lost && d[i] == s
  }

  ghost predicate Reached(ps: seq<Arrival>, s: Symbol) {
    exists j :: 0 <= j < |ps| && ps[j].sym == s
  }

  /** A transmitted window: distinct non-zero block keys, and padding rows under key 0. */
  ghost predicate Transmittable(g: Interleaving.Geometry, c: Config, rows: seq<Interleaving.Row>) {
    && Interleaving.ValidGeometry(g) && Interleaving.Complete(g, rows) && BurstBound.Keyed(rows)
    && g.n == c.n && g.depth <= c.slots
    && (forall r, q :: 0 <= r < q < |rows| && rows[r].key != 0 ==> rows[r].key != rows[q].key)
    && (forall r, f :: 0 <= r < |rows| && 0 <= f < g.n ==>
          if rows[r].key == 0 then rows[r].cells[f].len == 0 else rows[r].cells[f].len <= c.size)
  }

  /** The columns of row r that are not lost. */
  ghost function Spared(g: Interleaving.Geometry, row: Interleaving.Row, r: nat, lost: set<int>): (m: map<int, Symbol>)
    requires forall f :: 0 <= f < g.n ==> f in row.cells
  {
    map f | 0 <= f < g.n && f * g.depth + r !in lost :: row.cells[f]
  }

  /** The columns of row r that are lost. */
  function Columns(g: Interleaving.Geometry, r: nat, lost: set<int>): (cols: set<int>) {
    set f | 0 <= f < g.n && f * g.depth + r in lost
  }

  /** No row loses more than m columns. */
  ghost predicate Tolerable(g: Interleaving.Geometry, lost: set<int>, m: nat) {
    forall r: nat :: r < g.depth ==> |Columns(g, r, lost)| <= m
  }

  /** A burst: len positions from a on. */
  function Span(a: nat, len: nat): (lost: set<int>)
    ensures forall i :: i in lost <==> a <= i < a + len
  {
    if len == 0 then {} else Span(a, len - 1) + {a + len - 1}
  }

  /** The symbol arrived, and is not padding. */
  ghost predicate Came(ps: seq<Arrival>, s: Symbol) {
    !IsErasure(s) && exists i :: 0 <= i < |ps| && ps[i].sym == s
  }

  lemma CameStep(ps: seq<Arrival>, s: Symbol)
    requires ps != []
    ensures Came(ps, s) <==> Came(ps[..|ps| - 1], s) || (!IsErasure(s) && ps[|ps| - 1].sym == s)
  {
    var before := ps[..|ps| - 1];
    if Came(before, s) {
      var i :| 0 <= i < |before| && before[i].sym == s;
      assert ps[i].sym == s;
    }
    if Came(ps, s) {
      var i :| 0 <= i < |ps| && ps[i].sym == s;
      if i < |before| { assert before[i].sym == s; }
    }
  }

  ghost predicate HasKey(m: map<(uint32, uint32), Symbol>, k: uint32) {
    exists p :: p in m && p.0 == k
  }

  lemma HasKeyAfter(m: map<(uint32, uint32), Symbol>, s: Symbol, k: uint32)
    ensures HasKey(WithFirst(m, s), k) <==> HasKey(m, k) || k == s.packetId
  {
    var m' := WithFirst(m, s);
    assert (s.packetId, s.fecId) in m';
    if HasKey(m, k) {
      var p :| p in m && p.0 == k;
      assert p in m';
    }
  }

  /** m records one symbol per identity, each of which came, and misses no identity that came. */
  ghost predicate Records(ps: seq<Arrival>, m: map<(uint32, uint32), Symbol>) {
    && (forall s :: Came(ps, s) ==> (s.packetId, s.fecId) in m)
    && (forall p :: p in m ==> Came(ps, m[p]) && p == (m[p].packetId, m[p].fecId))
  }

  lemma RecordsStep(ps: seq<Arrival>, m: map<(uint32, uint32), Symbol>)
    requires ps != [] && Records(ps[..|ps| - 1], m)
    ensures var s := ps[|ps| - 1].sym;
      Records(ps, if IsErasure(s) then m else WithFirst(m, s))
  {
    hide Came;
    var before, s := ps[..|ps| - 1], ps[|ps| - 1].sym;
    forall x ensures Came(ps, x) <==> Came(before, x) || (!IsErasure(x) && s == x) { CameStep(ps, x); }
  }

  /** The solid arrivals are the non-padding ones, first come first kept. */
  lemma {:induction false} SolidMembers(ps: seq<Arrival>)
    ensures Records(ps, First(Solid(ps)))
  {
    if ps != [] {
      hide Records, First;
      SolidMembers(ps[..|ps| - 1]);
      SolidStep(ps);
      RecordsStep(ps, First(Solid(ps[..|ps| - 1])));
    } else {
      assert First(Solid(ps)) == map[];
    }
  }

  /** The keys are those of the solid arrivals. */
  lemma {:induction false} SolidKeys(ps: seq<Arrival>, k: uint32)
    ensures k in Keys(Solid(ps)) <==> HasKey(First(Solid(ps)), k)
  {
    if ps != [] {
      hide HasKey, First, Keys;
      SolidKeys(ps[..|ps| - 1], k);
      SolidStep(ps);
      HasKeyAfter(First(Solid(ps[..|ps| - 1])), ps[|ps| - 1].sym, k);
    } else {
      assert First(Solid(ps)) == map[];
    }
  }

  /** The transmission order index of cell (r, f). */
  lemma CellPosition(g: Interleaving.Geometry, rows: seq<Interleaving.Row>, r: nat, f: nat)
    requires Interleaving.ValidGeometry(g) && Interleaving.Complete(g, rows) && r < g.depth && f < g.n
    ensures f * g.depth + r < g.n * g.depth
    ensures Drained(g, rows)[f * g.depth + r] == rows[r].cells[f]
  {
    var d := g.depth;
    assert (f + 1) * d == f * d + d;
    MulMono(d, f + 1, g.n);
    assert d * (f + 1) == (f + 1) * d && d * g.n == g.n * d;
    DivModOf(d, f, r);
  }

  /** Position i carries column i div depth of row i mod depth. */
  lemma PositionCell(g: Interleaving.Geometry, rows: seq<Interleaving.Row>, i: nat)
    requires Interleaving.ValidGeometry(g) && Interleaving.Complete(g, rows) && BurstBound.Keyed(rows)
    requires i < g.n * g.depth
    ensures 0 <= i % g.depth < g.depth && 0 <= i / g.depth < g.n && i == (i / g.depth) * g.depth + i % g.depth
    ensures Drained(g, rows)[i] == rows[i % g.depth].cells[i / g.depth]
    ensures Drained(g, rows)[i].packetId == rows[i % g.depth].key && Drained(g, rows)[i].fecId == i / g.depth
  {
    DivBound(g.depth, g.n, i);
  }

  /** A cell of a real row carries the row's key and its own column, and is not padding. */
  lemma CellKeyed(g: Interleaving.Geometry, c: Config, rows: seq<Interleaving.Row>, r: nat, f: nat)
    requires Transmittable(g, c, rows) && r < g.depth && rows[r].key != 0 && f < g.n
    ensures Interleaving.ValidGeometry(g) && Interleaving.Complete(g, rows)
    ensures var s := rows[r].cells[f]; s.packetId == rows[r].key && s.fecId == f && !IsErasure(s)
  {
  }

  /** A cell of a real row that is not lost was received. */
  lemma SparedArrives(g: Interleaving.Geometry, c: Config, rows: seq<Interleaving.Row>, lost: set<int>, ps: seq<Arrival>,
                      r: nat, f: nat)
    requires Transmittable(g, c, rows) && r < g.depth && rows[r].key != 0 && f < g.n
    requires Survived(Drained(g, rows), lost, ps) && f * g.depth + r !in lost
    ensures (rows[r].key, f) in First(Solid(ps))
  {
    hide First, Solid, Drained;
    CellKeyed(g, c, rows, r, f);
    hide Transmittable;
    CellPosition(g, rows, r, f);
    assert Reached(ps, Drained(g, rows)[f * g.depth + r]);
    assert Came(ps, rows[r].cells[f]);
    SolidMembers(ps);
  }

  /** A received symbol of a real row is the cell that was sent, and was not lost. */
  lemma ArrivalWasSent(g: Interleaving.Geometry, c: Config, rows: seq<Interleaving.Row>, lost: set<int>, ps: seq<Arrival>,
                       r: nat, f: nat)
    requires Transmittable(g, c, rows) && r < g.depth && rows[r].key != 0
    requires Survived(Drained(g, rows), lost, ps)
    requires f < 0x1_0000_0000 && (rows[r].key, f) in First(Solid(ps))
    ensures f < g.n && f * g.depth + r !in lost
    ensures First(Solid(ps))[(rows[r].key, f)] == rows[r].cells[f]
  {
    hide First, Solid, Drained;
    SolidMembers(ps);
    assert Came(ps, First(Solid(ps))[(rows[r].key, f)]);
    var j :| 0 <= j < |ps| && ps[j].sym == First(Solid(ps))[(rows[r].key, f)];
    assert PartOf(Drained(g, rows), lost, ps[j].sym);
    var i :| 0 <= i < |Drained(g, rows)| && i !in lost && Drained(g, rows)[i] == ps[j].sym;
    PositionCell(g, rows, i);
    assert i % g.depth == r;
  }

  /** What the receiver gathers for a block is exactly what was not lost of its row. */
  lemma GatheredIsSpared(g: Interleaving.Geometry, c: Config, rows: seq<Interleaving.Row>, lost: set<int>, ps: seq<Arrival>,
                         r: nat)
    requires Transmittable(g, c, rows) && r < g.depth && rows[r].key != 0
    requires Survived(Drained(g, rows), lost, ps)
    ensures CellsOf(First(Solid(ps)), rows[r].key) == Spared(g, rows[r], r, lost)
  {
    hide First, Solid, Drained, CellsOf;
    var x, y := CellsOf(First(Solid(ps)), rows[r].key), Spared(g, rows[r], r, lost);
    forall f: int
      ensures f in x ==> f in y && x[f] == y[f]
    {
      if f in x {
        CellColumn(First(Solid(ps)), rows[r].key, f);
        ArrivalWasSent(g, c, rows, lost, ps, r, f);
      }
    }
    forall f: int
      ensures f in y ==> f in x
    {
      if f in y {
        SparedArrives(g, c, rows, lost, ps, r, f);
        InCells(First(Solid(ps)), rows[r].key, f);
      }
    }
    SameMap(x, y);
  }

  lemma CellColumn(m: map<(uint32, uint32), Symbol>, key: uint32, f: int)
    requires f in CellsOf(m, key)
    ensures 0 <= f < 0x1_0000_0000 && (key, f) in m && CellsOf(m, key)[f] == m[(key, f)]
  {
  }

  /** What a map keeps when at most m of its n keys are taken away. */
  lemma KeptEnough(kept: map<int, Symbol>, lost: set<int>, n: nat, m: nat)
    requires |lost| <= m && (forall f :: f in kept || f in lost ==> 0 <= f < n)
    requires forall f :: 0 <= f < n ==> f in kept || f in lost
    ensures |kept| >= n - m
  {
    SetBound(kept.Keys + lost, n);
    assert |kept.Keys + lost| <= |kept.Keys| + |lost|;
    assert |kept.Keys| == |kept|;
  }

  /** A row that loses at most m columns keeps at least n - m. */
  lemma SparedEnough(g: Interleaving.Geometry, row: Interleaving.Row, r: nat, lost: set<int>, m: nat)
    requires (forall f :: 0 <= f < g.n ==> f in row.cells) && |Columns(g, r, lost)| <= m
    ensures |Spared(g, row, r, lost)| >= g.n - m
  {
    KeptEnough(Spared(g, row, r, lost), Columns(g, r, lost), g.n, m);
  }

  /** The columns a burst of at most m * d positions takes from row r: at most m. */
  lemma {:induction false} LostColumns(d: nat, n: nat, r: nat, a: nat, len: nat, m: nat)
    requires r < d && len <= m * d
    ensures |set f | 0 <= f < n && a <= f * d + r < a + len| <= m
  {
    var s := set f | 0 <= f < n && a <= f * d + r < a + len;
    if n == 0 {
      assert s == {};
    } else if a <= (n - 1) * d + r < a + len {
      // the last lost column: every other lost column is within m - 1 of it
      assert forall f :: f in s ==> n - m <= f < n by {
        forall f | f in s
          ensures n - m <= f
        {
          assert (n - 1 - f) * d == (n - 1) * d - f * d;
          LessByProduct(n - 1 - f, m, d);
        }
      }
      IntervalCard(s, n - m, m);
    } else {
      LostColumns(d, n - 1, r, a, len, m);
      assert s == set f | 0 <= f < n - 1 && a <= f * d + r < a + len;
    }
  }

  /** A burst of at most m * depth positions is tolerable, wherever it is. */
  lemma SpanTolerable(g: Interleaving.Geometry, a: nat, len: nat, m: nat)
    requires len <= m * g.depth
    ensures Tolerable(g, Span(a, len), m)
  {
    forall r: nat | r < g.depth ensures |Columns(g, r, Span(a, len))| <= m {
      LostColumns(g.depth, g.n, r, a, len, m);
      assert Columns(g, r, Span(a, len)) == set f | 0 <= f < g.n && a <= f * g.depth + r < a + len;
    }
  }

  lemma LessByProduct(x: nat, m: nat, d: nat)
    requires x * d < m * d
    ensures x < m
  {
    assert d * m == m * d && d * x == x * d;
    if x >= m { MulMono(d, m, x); }
  }

  lemma {:induction false} IntervalCard(s: set<int>, lo: int, k: nat)
    requires forall f :: f in s ==> lo <= f < lo + k
    ensures |s| <= k
  {
    if k == 0 {
      assert forall f :: f !in s;
      assert s == {};
    } else {
      IntervalCard(s - {lo + k - 1}, lo, k - 1);
    }
  }

  /** At most one solid key per row. */
  lemma SolidKeysBound(g: Interleaving.Geometry, c: Config, rows: seq<Interleaving.Row>, lost: set<int>, ps: seq<Arrival>)
    requires Transmittable(g, c, rows) && Survived(Drained(g, rows), lost, ps)
    ensures |Keys(Solid(ps))| <= g.depth
    ensures forall k :: k in Keys(Solid(ps)) ==> exists r :: 0 <= r < g.depth && rows[r].key == k
  {
    hide First, Solid, Drained;
    SolidMembers(ps);
    var keys := Keys(Solid(ps));
    forall k | k in keys
      ensures exists r :: 0 <= r < g.depth && rows[r].key == k
    {
      SolidKeys(ps, k);
      var p :| p in First(Solid(ps)) && p.0 == k;
      assert Came(ps, First(Solid(ps))[p]);
      var j :| 0 <= j < |ps| && ps[j].sym == First(Solid(ps))[p];
      assert PartOf(Drained(g, rows), lost, ps[j].sym);
      var i :| 0 <= i < |Drained(g, rows)| && i !in lost && Drained(g, rows)[i] == ps[j].sym;
      PositionCell(g, rows, i);
      assert rows[i % g.depth].key == k;
    }
    DistinctFit(keys, rows);
  }

  /** Distinct keys, each naming one of the rows, are no more than the rows. */
  lemma {:induction false} DistinctFit(keys: seq<uint32>, rows: seq<Interleaving.Row>)
    requires Distinct(keys) && forall k :: k in keys ==> exists r :: 0 <= r < |rows| && rows[r].key == k
    ensures |keys| <= |rows|
  {
    if keys != [] {
      var k, prefix := keys[|keys| - 1], keys[..|keys| - 1];
      assert k in keys;
      var r :| 0 <= r < |rows| && rows[r].key == k;
      var rest := rows[..r] + rows[r + 1..];
      forall q | q in prefix
        ensures exists i :: 0 <= i < |rest| && rest[i].key == q
      {
        assert q in keys;
        var i :| 0 <= i < |rows| && rows[i].key == q;
        assert rest[if i < r then i else i - 1] == rows[i];
      }
      DistinctFit(prefix, rest);
    }
  }

  /**
   The receiver undoes the interleaver, whatever was lost: once the window has been received in time, in any order
   and with duplicates, and a tick has followed past the quiet period, a block is ready exactly when at least k of
   its row's columns were not lost, and then holds exactly those.
   */
  lemma WindowRecovered(g: Interleaving.Geometry, c: Config, rows: seq<Interleaving.Row>, lost: set<int>,
                        st: State, ps: seq<Arrival>, t0: int, now: int)
    requires ValidConfig(c) && Transmittable(g, c, rows) && c.stab > 0
    requires Inv(c, st) && Blocks(st.slots) == map[]
    requires Survived(Drained(g, rows), lost, ps)
    requires InTime(c, ps, t0) && now >= t0 + 2 * c.stab
    ensures |rows| == g.depth && Interleaving.Complete(g, rows)
    ensures var m := Blocks(Tick(c, Receive(c, st, ps), -1, now).slots);
            forall r: nat :: r < g.depth && rows[r].key != 0 ==>
              && (rows[r].key in m && m[rows[r].key].ready <==> |Spared(g, rows[r], r, lost)| >= c.k)
              && (rows[r].key in m && m[rows[r].key].ready ==> m[rows[r].key].symbols == Spared(g, rows[r], r, lost))
  {
    SolidKeysBound(g, c, rows, lost, ps);
    TransmittableParts(g, c, rows);
    hide Blocks, Tick, Receive, Drained, First, Solid, Transmittable, InTime, Inv, Interleaving.Complete, CellsOf, Spared,
      Keys, Survived;
    RecoveryTheorem(c, st, ps, t0, now);
    forall r: nat | r < g.depth && rows[r].key != 0
      ensures CellsOf(First(Solid(ps)), rows[r].key) == Spared(g, rows[r], r, lost)
      ensures |Spared(g, rows[r], r, lost)| >= c.k ==> rows[r].key in Keys(Solid(ps))
    {
      RowSurvives(g, c, rows, lost, ps, r);
    }
  }

  /** What arrived of one row. */
  lemma RowSurvives(g: Interleaving.Geometry, c: Config, rows: seq<Interleaving.Row>, lost: set<int>, ps: seq<Arrival>, r: nat)
    requires ValidConfig(c) && Transmittable(g, c, rows) && r < g.depth && rows[r].key != 0
    requires Survived(Drained(g, rows), lost, ps)
    ensures |rows| == g.depth && Interleaving.Complete(g, rows)
    ensures CellsOf(First(Solid(ps)), rows[r].key) == Spared(g, rows[r], r, lost)
    ensures |Spared(g, rows[r], r, lost)| >= c.k ==> rows[r].key in Keys(Solid(ps))
  {
    TransmittableParts(g, c, rows);
    hide Drained, First, Solid, Transmittable, CellsOf, Spared, Keys, HasKey, Survived;
    GatheredIsSpared(g, c, rows, lost, ps, r);
    if |Spared(g, rows[r], r, lost)| >= c.k {
      SomeKey(First(Solid(ps)), rows[r].key);
      SolidKeys(ps, rows[r].key);
    }
  }

  /**
   The interleaver's purpose, end to end: a burst of at most m * depth lost symbols anywhere in a
   transmitted window leaves every block of that window ready to decode, holding exactly the symbols
   the burst spared, and those are at least k = n - m.
   */
  lemma BurstRecovered(g: Interleaving.Geometry, c: Config, rows: seq<Interleaving.Row>, a: nat, len: nat,
                       st: State, ps: seq<Arrival>, t0: int, now: int)
    requires ValidConfig(c) && Transmittable(g, c, rows) && c.stab > 0
    requires len <= (c.n - c.k) * g.depth
    requires Inv(c, st) && Blocks(st.slots) == map[]
    requires Survived(Drained(g, rows), Span(a, len), ps)
    requires InTime(c, ps, t0) && now >= t0 + 2 * c.stab
    ensures |rows| == g.depth && Interleaving.Complete(g, rows)
    ensures var m := Blocks(Tick(c, Receive(c, st, ps), -1, now).slots);
            forall r: nat :: r < g.depth && rows[r].key != 0 ==>
              && rows[r].key in m && m[rows[r].key].ready
              && m[rows[r].key].symbols == Spared(g, rows[r], r, Span(a, len))
              && |m[rows[r].key].symbols| >= c.k
  {
    TransmittableParts(g, c, rows);
    hide Blocks, Tick, Receive, Drained, Transmittable, InTime, Inv, Interleaving.Complete, Spared, Survived, Span, Columns;
    WindowRecovered(g, c, rows, Span(a, len), st, ps, t0, now);
    SpanTolerable(g, a, len, c.n - c.k);
    forall r: nat | r < g.depth && rows[r].key != 0 ensures |Spared(g, rows[r], r, Span(a, len))| >= c.k {
      SparedEnough(g, rows[r], r, Span(a, len), c.n - c.k);
    }
  }

  lemma TransmittableParts(g: Interleaving.Geometry, c: Config, rows: seq<Interleaving.Row>)
    requires Transmittable(g, c, rows)
    ensures Interleaving.ValidGeometry(g) && Interleaving.Complete(g, rows) && |rows| == g.depth <= c.slots && g.n == c.n
    ensures forall r, f :: 0 <= r < g.depth && 0 <= f < g.n ==> f in rows[r].cells
  {
  }

  /** A block with a gathered symbol is among the keys. */
  lemma SomeKey(m: map<(uint32, uint32), Symbol>, key: uint32)
    requires |CellsOf(m, key)| >= 1
    ensures HasKey(m, key)
  {
    if CellsOf(m, key).Keys == {} { assert |CellsOf(m, key)| == |CellsOf(m, key).Keys|; }
    var f :| f in CellsOf(m, key).Keys;
    CellColumn(m, key, f);
    assert (key, f) in m && (key, f).0 == key;
  }
}
