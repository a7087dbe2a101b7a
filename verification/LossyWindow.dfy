/** A window that loses symbols, cell by cell: which of its blocks the receiver has in hand and which it has decoded. */
module LossyWindow {
  import opened Types
  import opened Arithmetic
  import opened Interleaving
  import opened DeinterleaverSpec
  import opened DeinterleaverMap
  import opened WindowRecovery
  import WindowDelivery

  /** The cells of row r among the first p positions, less the lost ones. */
  ghost function Came(g: Geometry, row: Row, r: nat, lost: set<int>, p: nat): (m: map<int, Symbol>)
    requires forall f :: 0 <= f < g.n ==> f in row.cells
  {
    map f | 0 <= f < g.n && f * g.depth + r < p && f * g.depth + r !in lost :: row.cells[f]
  }

  lemma NothingCame(g: Geometry, row: Row, r: nat, lost: set<int>)
    requires forall f :: 0 <= f < g.n ==> f in row.cells
    ensures Came(g, row, r, lost, 0) == map[]
  {
    var m := Came(g, row, r, lost, 0);
    forall f | f in m ensures false { MulMono(f, 0, g.depth); }
  }

  lemma LostPosition(g: Geometry, row: Row, r: nat, lost: set<int>, p: nat)
    requires (forall f :: 0 <= f < g.n ==> f in row.cells) && p in lost
    ensures Came(g, row, r, lost, p + 1) == Came(g, row, r, lost, p)
  {
  }

  lemma OtherRow(g: Geometry, row: Row, r: nat, lost: set<int>, p: nat)
    requires (forall f :: 0 <= f < g.n ==> f in row.cells) && r < g.depth && p % g.depth != r
    ensures Came(g, row, r, lost, p + 1) == Came(g, row, r, lost, p)
  {
    forall f: nat | f * g.depth + r == p ensures false { DivModOf(g.depth, f, r); }
  }

  lemma SameColumn(d: nat, r: nat, f: nat, e: nat)
    requires 1 <= d && f * d + r == e * d + r
    ensures f == e
  {
    if f < e { MulMono(d, f + 1, e); Distribute(d, f); }
    if e < f { MulMono(d, e + 1, f); Distribute(d, e); }
  }

  lemma NextCell(g: Geometry, row: Row, r: nat, lost: set<int>, f: nat)
    requires (forall x :: 0 <= x < g.n ==> x in row.cells) && r < g.depth && f < g.n
    requires f * g.depth + r !in lost
    ensures var p := f * g.depth + r;
      && f !in Came(g, row, r, lost, p)
      && Came(g, row, r, lost, p + 1) == Came(g, row, r, lost, p)[f := row.cells[f]]
  {
    var p := f * g.depth + r;
    forall x: nat | x * g.depth + r == p ensures x == f { SameColumn(g.depth, r, x, f); }
  }

  /** At the end of the window what came is what was not lost. */
  lemma AllCame(g: Geometry, row: Row, r: nat, lost: set<int>)
    requires (forall f :: 0 <= f < g.n ==> f in row.cells) && r < g.depth
    ensures Came(g, row, r, lost, g.n * g.depth) == Spared(g, row, r, lost)
  {
    forall f: nat | f < g.n ensures f * g.depth + r < g.n * g.depth {
      MulMono(g.depth, f + 1, g.n);
      Distribute(g.depth, f);
      assert g.depth * g.n == g.n * g.depth && f * g.depth == g.depth * f;
    }
  }

  /** n cells are all of the row, so nothing more is to come. */
  lemma FullIsSpared(g: Geometry, row: Row, r: nat, lost: set<int>, p: nat)
    requires (forall f :: 0 <= f < g.n ==> f in row.cells)
    ensures |Came(g, row, r, lost, p)| <= g.n
    ensures |Came(g, row, r, lost, p)| == g.n ==> Came(g, row, r, lost, p) == Spared(g, row, r, lost)
  {
    var m := Came(g, row, r, lost, p);
    assert |m| == |m.Keys|;
    SetBound(m.Keys, g.n);
  }

  // ---------------------------------------------------------------------------
  // The blocks of the window
  // ---------------------------------------------------------------------------

  /** A transmitted window and the positions of it that are lost. */
  datatype Hit = Hit(g: Geometry, rows: seq<Row>, lost: set<int>)

  /** When the first and the last symbol of a row arrived. */
  datatype Times = Times(first: int, last: int)

  ghost predicate Sound(c: Config, h: Hit) {
    && Transmittable(h.g, c, h.rows) && Complete(h.g, h.rows) && |h.rows| == h.g.depth
    && ValidConfig(c) && 0 < c.stab && 0 < AgeLimit(c)
  }

  /** What came of row r among the first p positions. */
  ghost function CameOf(c: Config, h: Hit, r: nat, p: nat): (m: map<int, Symbol>)
    requires Sound(c, h) && r < h.g.depth
  {
    Came(h.g, h.rows[r], r, h.lost, p)
  }

  ghost function SparedOf(c: Config, h: Hit, r: nat): (m: map<int, Symbol>)
    requires Sound(c, h) && r < h.g.depth
  {
    Spared(h.g, h.rows[r], r, h.lost)
  }

  /** Everything of row r that is not lost has come. */
  ghost predicate Finished(c: Config, h: Hit, r: nat, p: nat)
    requires Sound(c, h) && r < h.g.depth
  {
    CameOf(c, h, r, p) == SparedOf(c, h, r)
  }

  /** A slot of the log had this id. */
  ghost predicate Logged(log: seq<Slot>, id: uint32) {
    exists i :: 0 <= i < |log| && log[i].id == id
  }

  /** The entry of row r's block holds what came of the row; it is ready only if nothing more is to come. */
  ghost predicate Waiting(c: Config, h: Hit, p: nat, tl: map<int, Times>, r: nat, b: Received)
    requires Sound(c, h) && r < h.g.depth
  {
    && b.symbols == CameOf(c, h, r, p) && b.symbols != map[]
    && r in tl && b.first == tl[r].first && b.last == tl[r].last
    && (b.ready ==> Finished(c, h, r, p))
  }

  /** Row r's block is decoded and everything of it has come, or it is in hand, or nothing of it has come. */
  ghost predicate RowProgress(c: Config, h: Hit, p: nat, tl: map<int, Times>, m: map<uint32, Received>, log: seq<Slot>, r: nat)
    requires Sound(c, h) && r < h.g.depth
  {
    var key := h.rows[r].key;
    if Logged(log, key) then key !in m && Finished(c, h, r, p)
    else if key in m then Waiting(c, h, p, tl, r, m[key])
    else CameOf(c, h, r, p) == map[] && r !in tl
  }

  ghost predicate HasRow(h: Hit, id: uint32) {
    exists r :: 0 <= r < |h.rows| && h.rows[r].key == id && id != 0
  }

  /** The receiver's blocks m once the first p positions have passed and the blocks in log have been decoded. */
  ghost predicate Progress(c: Config, h: Hit, p: nat, tl: map<int, Times>, m: map<uint32, Received>, log: seq<Slot>) {
    && Sound(c, h)
    && (forall id :: id in m ==> HasRow(h, id))
    && (forall r: nat :: r < h.g.depth && h.rows[r].key != 0 ==> RowProgress(c, h, p, tl, m, log, r))
  }

  lemma KeysDiffer(c: Config, h: Hit, r: nat, q: nat)
    requires Sound(c, h) && r < h.g.depth && q < h.g.depth && r != q && h.rows[r].key != 0
    ensures h.rows[r].key != h.rows[q].key
  {
  }

  lemma StartsWindow(c: Config, h: Hit)
    requires Sound(c, h)
    ensures Progress(c, h, 0, map[], map[], [])
  {
    forall r: nat | r < h.g.depth && h.rows[r].key != 0 ensures RowProgress(c, h, 0, map[], map[], [], r) {
      NothingCame(h.g, h.rows[r], r, h.lost);
    }
  }

  /** A lost position: nothing comes, nothing changes. */
  lemma SkipLost(c: Config, h: Hit, p: nat, tl: map<int, Times>, m: map<uint32, Received>, log: seq<Slot>)
    requires Progress(c, h, p, tl, m, log) && p in h.lost
    ensures Progress(c, h, p + 1, tl, m, log)
  {
    hide Transmittable, Logged;
    forall r: nat | r < h.g.depth && h.rows[r].key != 0 ensures RowProgress(c, h, p + 1, tl, m, log, r) {
      assert RowProgress(c, h, p, tl, m, log, r);
      LostPosition(h.g, h.rows[r], r, h.lost, p);
    }
  }

  /** A position of another row changes nothing in this one. */
  lemma OtherProgress(c: Config, h: Hit, p: nat, tl: map<int, Times>, m: map<uint32, Received>, log: seq<Slot>,
                      tl': map<int, Times>, m': map<uint32, Received>, r: nat)
    requires Sound(c, h) && r < h.g.depth && RowProgress(c, h, p, tl, m, log, r) && p % h.g.depth != r
    requires var key := h.rows[r].key; (key in m <==> key in m') && (key in m ==> m'[key] == m[key])
    requires (r in tl <==> r in tl') && (r in tl ==> tl'[r] == tl[r])
    ensures RowProgress(c, h, p + 1, tl', m', log, r)
  {
    hide Transmittable, Logged;
    OtherRow(h.g, h.rows[r], r, h.lost, p);
  }

  /** A padding position. */
  lemma SkipPadding(c: Config, h: Hit, p: nat, tl: map<int, Times>, m: map<uint32, Received>, log: seq<Slot>)
    requires Progress(c, h, p, tl, m, log) && h.g.depth > 0 && h.rows[p % h.g.depth].key == 0
    ensures Progress(c, h, p + 1, tl, m, log)
  {
    hide Transmittable, RowProgress;
    forall r: nat | r < h.g.depth && h.rows[r].key != 0 ensures RowProgress(c, h, p + 1, tl, m, log, r) {
      OtherProgress(c, h, p, tl, m, log, tl, m, r);
    }
  }

  // ---------------------------------------------------------------------------
  // The next cell of a block
  // ---------------------------------------------------------------------------

  /** Where cell f of row r stands in the window. */
  function Place(h: Hit, r: nat, f: nat): nat {
    f * h.g.depth + r
  }

  ghost predicate Arrives(c: Config, h: Hit, r: nat, f: nat) {
    && Sound(c, h) && r < h.g.depth && f < h.g.n && h.rows[r].key != 0 && Place(h, r, f) !in h.lost
  }

  lemma CellPlace(c: Config, h: Hit, r: nat, f: nat)
    requires Arrives(c, h, r, f)
    ensures Place(h, r, f) < h.g.n * h.g.depth && Place(h, r, f) % h.g.depth == r
  {
    DivModOf(h.g.depth, f, r);
    CellPosition(h.g, h.rows, r, f);
  }

  /** A row of which a cell is still to come is not finished. */
  lemma StillToCome(c: Config, h: Hit, r: nat, f: nat)
    requires Arrives(c, h, r, f)
    ensures !Finished(c, h, r, Place(h, r, f))
  {
    hide Transmittable;
    NextCell(h.g, h.rows[r], r, h.lost, f);
    assert f in SparedOf(c, h, r);
  }

  /** The entry a push finds or makes for row r. */
  ghost function EntryOrNew(m: map<uint32, Received>, id: uint32, now: int): Received {
    if id in m then m[id] else Received(false, map[], now, now)
  }

  /** The times of row r once a symbol of it has arrived. */
  function Arrive(tl: map<int, Times>, r: int, now: int): map<int, Times> {
    tl[r := Times(if r in tl then tl[r].first else now, now)]
  }

  lemma EntryBefore(c: Config, h: Hit, r: nat, f: nat, tl: map<int, Times>, m: map<uint32, Received>, log: seq<Slot>, now: int)
    requires Arrives(c, h, r, f) && Progress(c, h, Place(h, r, f), tl, m, log)
    ensures !Logged(log, h.rows[r].key)
    ensures var b := EntryOrNew(m, h.rows[r].key, now);
      b.symbols == CameOf(c, h, r, Place(h, r, f)) && !b.ready && b.first == Arrive(tl, r, now)[r].first
    ensures h.rows[r].key in m <==> r in tl
  {
    CellPlace(c, h, r, f);
    StillToCome(c, h, r, f);
    hide Transmittable, Logged, CameOf, Place, Finished;
    assert RowProgress(c, h, Place(h, r, f), tl, m, log, r);
  }

  lemma CameGrows(c: Config, h: Hit, r: nat, f: nat)
    requires Arrives(c, h, r, f)
    ensures var x, y, s := CameOf(c, h, r, Place(h, r, f)), CameOf(c, h, r, Place(h, r, f) + 1), h.rows[r].cells[f];
      f !in x && y == x[f := s] && |x| < |y| <= h.g.n && y != map[]
    ensures |CameOf(c, h, r, Place(h, r, f) + 1)| == h.g.n ==> Finished(c, h, r, Place(h, r, f) + 1)
  {
    hide Transmittable;
    NextCell(h.g, h.rows[r], r, h.lost, f);
    FullIsSpared(h.g, h.rows[r], r, h.lost, Place(h, r, f) + 1);
    var x, y, s := CameOf(c, h, r, Place(h, r, f)), CameOf(c, h, r, Place(h, r, f) + 1), h.rows[r].cells[f];
    assert |x[f := s]| == |x| + 1;
    assert f in y;
  }

  lemma CellNamed(c: Config, h: Hit, r: nat, f: nat)
    requires Arrives(c, h, r, f)
    ensures h.g.n == c.n && h.rows[r].cells[f].packetId == h.rows[r].key && h.rows[r].cells[f].fecId == f
    ensures !IsErasure(h.rows[r].cells[f]) && Acceptable(c, h.rows[r].cells[f])
  {
  }

  /** What is left of the rows' time: no row with symbols still to come is due at this time. */
  ghost predicate Calm(c: Config, h: Hit, p: nat, tl: map<int, Times>, now: int)
    requires Sound(c, h)
  {
    forall r: nat :: r < h.g.depth && r in tl && !Finished(c, h, r, p) ==> StillYoung(c, CameOf(c, h, r, p), tl[r], now)
  }

  /** Younger than the age limit and, once it has k symbols, within the quiet period of its last one. */
  ghost predicate StillYoung(c: Config, symbols: map<int, Symbol>, t: Times, now: int) {
    Elapsed(t.first, now) < AgeLimit(c) && (|symbols| >= c.k ==> Elapsed(t.last, now) < c.stab)
  }

  /** What a push makes of the entry of row r: one cell more, ready exactly when it is the n-th. */
  lemma DeliverCell(c: Config, h: Hit, r: nat, f: nat, tl: map<int, Times>, m: map<uint32, Received>, log: seq<Slot>, now: int)
    returns (b: Received)
    requires Arrives(c, h, r, f) && Progress(c, h, Place(h, r, f), tl, m, log) && Calm(c, h, Place(h, r, f), tl, now)
    ensures Deliver(c, m, h.rows[r].cells[f], now) == m[h.rows[r].key := b]
    ensures b.symbols == CameOf(c, h, r, Place(h, r, f) + 1) && b.symbols != map[] && |b.symbols| <= h.g.n
    ensures (b.ready <==> |b.symbols| == h.g.n)
    ensures b.first == Arrive(tl, r, now)[r].first && b.last == now
  {
    EntryBefore(c, h, r, f, tl, m, log, now);
    CameGrows(c, h, r, f);
    CellNamed(c, h, r, f);
    StillToCome(c, h, r, f);
    var was := EntryOrNew(m, h.rows[r].key, now);
    assert Elapsed(was.first, now) < AgeLimit(c);
    hide Transmittable, Deliver, CameOf, Progress, Place, Calm, Finished;
    DeliverNew(c, m, if was.first <= now then was.first else now, h.rows[r].cells[f], now);
    b := Received(|was.symbols| + 1 == c.n, CameOf(c, h, r, Place(h, r, f) + 1), was.first, now);
  }

  lemma ForRow(c: Config, h: Hit, p: nat, tl: map<int, Times>, m: map<uint32, Received>, log: seq<Slot>, r: nat, b: Received)
    requires Progress(c, h, p, tl, m, log) && r < |h.rows| && h.rows[r].key != 0
    ensures forall id :: id in m[h.rows[r].key := b] ==> HasRow(h, id)
  {
    assert HasRow(h, h.rows[r].key);
    hide HasRow, RowProgress, Transmittable;
  }

  lemma OwnStored(c: Config, h: Hit, r: nat, p: nat, tl: map<int, Times>, m: map<uint32, Received>, log: seq<Slot>, b: Received)
    requires Sound(c, h) && r < h.g.depth && !Logged(log, h.rows[r].key) && Waiting(c, h, p, tl, r, b)
    ensures RowProgress(c, h, p, tl, m[h.rows[r].key := b], log, r)
  {
    hide Transmittable, Logged, CameOf, Complete, Finished;
  }

  /** The cell is stored; the block may now be ready. */
  lemma CellStored(c: Config, h: Hit, r: nat, f: nat, tl: map<int, Times>, m: map<uint32, Received>, log: seq<Slot>, b: Received,
                   now: int)
    requires Arrives(c, h, r, f) && Progress(c, h, Place(h, r, f), tl, m, log) && !Logged(log, h.rows[r].key)
    requires Waiting(c, h, Place(h, r, f) + 1, Arrive(tl, r, now), r, b)
    ensures Progress(c, h, Place(h, r, f) + 1, Arrive(tl, r, now), m[h.rows[r].key := b], log)
  {
    hide Transmittable, Logged, HasRow, CameOf, Place, RowProgress, Complete, Waiting, Finished;
    CellPlace(c, h, r, f);
    var p, key := Place(h, r, f), h.rows[r].key;
    var tl' := Arrive(tl, r, now);
    ForRow(c, h, p, tl, m, log, r, b);
    OwnStored(c, h, r, p + 1, tl', m, log, b);
    forall q: nat | q < h.g.depth && h.rows[q].key != 0 ensures RowProgress(c, h, p + 1, tl', m[key := b], log, q) {
      assert RowProgress(c, h, p, tl, m, log, q);
      if q != r {
        KeysDiffer(c, h, r, q);
        OtherProgress(c, h, p, tl, m, log, tl', m[key := b], q);
      }
    }
  }

  /** The next surviving cell of a row, in time for it. */
  lemma CellArrives(c: Config, h: Hit, r: nat, f: nat, tl: map<int, Times>, m: map<uint32, Received>, log: seq<Slot>, now: int)
    returns (b: Received)
    requires Arrives(c, h, r, f) && Progress(c, h, Place(h, r, f), tl, m, log) && Calm(c, h, Place(h, r, f), tl, now)
    ensures Deliver(c, m, h.rows[r].cells[f], now) == m[h.rows[r].key := b]
    ensures b.ready <==> |CameOf(c, h, r, Place(h, r, f) + 1)| == h.g.n
    ensures Progress(c, h, Place(h, r, f) + 1, Arrive(tl, r, now), m[h.rows[r].key := b], log)
  {
    b := DeliverCell(c, h, r, f, tl, m, log, now);
    EntryBefore(c, h, r, f, tl, m, log, now);
    CameGrows(c, h, r, f);
    hide Transmittable, Deliver, CameOf, Progress, Place, Calm, Finished, Logged;
    CellStored(c, h, r, f, tl, m, log, b, now);
  }

  /** There is room for the next block. */
  lemma RoomLeft(c: Config, h: Hit, p: nat, tl: map<int, Times>, m: map<uint32, Received>, log: seq<Slot>, r: nat)
    requires Progress(c, h, p, tl, m, log) && r < h.g.depth && h.rows[r].key != 0
    ensures h.rows[r].key in m || |m| < c.slots
  {
    assert h.g.depth <= c.slots && |h.rows| == h.g.depth;
    var key := h.rows[r].key;
    if key !in m { RowsBound(h, m, r); }
  }

  lemma RowsBound(h: Hit, m: map<uint32, Received>, r: nat)
    requires r < |h.rows| && h.rows[r].key !in m && forall id :: id in m ==> HasRow(h, id)
    ensures |m| < |h.rows|
  {
    var key := h.rows[r].key;
    WindowDelivery.OneMoreKey(m, key);
    forall k | k in m.Keys + {key} ensures exists q :: 0 <= q < |h.rows| && h.rows[q].key == k {
      if k != key { assert HasRow(h, k); }
    }
    WindowDelivery.KeysAmong(m.Keys + {key}, h.rows, |h.rows|);
  }

  // ---------------------------------------------------------------------------
  // Ticks
  // ---------------------------------------------------------------------------

  /** A block in hand is that of some row. */
  lemma WaitingOf(c: Config, h: Hit, p: nat, tl: map<int, Times>, m: map<uint32, Received>, log: seq<Slot>, id: uint32)
    returns (r: nat)
    requires Progress(c, h, p, tl, m, log) && id in m
    ensures r < h.g.depth && h.rows[r].key == id && id != 0 && !Logged(log, id) && Waiting(c, h, p, tl, r, m[id])
    ensures h.g.n == c.n && 1 <= |m[id].symbols|
  {
    assert HasRow(h, id);
    r :| r < |h.rows| && h.rows[r].key == id && id != 0;
    assert h.g.n == c.n;
    hide Transmittable, Logged, CameOf;
    assert RowProgress(c, h, p, tl, m, log, r);
  }

  /** No row has lost so much that fewer than k symbols are left. */
  ghost predicate Restorable(c: Config, h: Hit) {
    Sound(c, h) && forall r: nat :: r < h.g.depth && h.rows[r].key != 0 ==> |SparedOf(c, h, r)| >= c.k
  }

  /** The rule on a block that is young enough, and on one that has k symbols. */
  lemma NotYet(c: Config, symbols: map<int, Symbol>, first: int, last: int, now: int)
    requires ValidConfig(c) && 1 <= |symbols| < c.n && 0 < c.stab && StillYoung(c, symbols, Times(first, last), now)
    ensures FreezeRule(c, |symbols|, first, last, AgeLimit(c), now) == Stay
  {
  }

  lemma NeverDiscarded(c: Config, valid: int, first: int, last: int, now: int)
    requires ValidConfig(c) && c.k <= valid <= c.n
    ensures FreezeRule(c, valid, first, last, AgeLimit(c), now) in {Stay, Promote}
    ensures Elapsed(last, now) >= c.stab ==> FreezeRule(c, valid, first, last, AgeLimit(c), now) == Promote
  {
  }

  lemma NotFull(c: Config, h: Hit, r: nat, p: nat)
    requires Sound(c, h) && r < h.g.depth
    ensures h.g.n == c.n && |CameOf(c, h, r, p)| <= c.n
    ensures !Finished(c, h, r, p) ==> |CameOf(c, h, r, p)| < c.n
  {
    assert h.g.n == c.n;
    hide Transmittable;
    FullIsSpared(h.g, h.rows[r], r, h.lost, p);
  }

  /** A tick that finds no unfinished row due promotes finished blocks at most, and discards none. */
  lemma SettleRow(c: Config, h: Hit, p: nat, tl: map<int, Times>, m: map<uint32, Received>, log: seq<Slot>, id: uint32, now: int)
    requires Restorable(c, h) && Progress(c, h, p, tl, m, log) && Calm(c, h, p, tl, now) && id in m
    ensures var m' := Settle(c, m, id, AgeLimit(c), now);
      id in m' && m'[id].(ready := m[id].ready) == m[id] && (m[id].ready ==> m'[id].ready)
    ensures var m' := Settle(c, m, id, AgeLimit(c), now);
      id in m' && (m'[id].ready ==> forall r: nat :: r < h.g.depth && h.rows[r].key == id ==> Finished(c, h, r, p))
    ensures forall r: nat ::
      (r < h.g.depth && h.rows[r].key == id && Finished(c, h, r, p) && r in tl && Elapsed(tl[r].last, now) >= c.stab)
      ==> Settle(c, m, id, AgeLimit(c), now)[id].ready
  {
    var r := WaitingOf(c, h, p, tl, m, log, id);
    NotFull(c, h, r, p);
    forall q: nat | q < h.g.depth && h.rows[q].key == id ensures q == r {
      if q != r { KeysDiffer(c, h, r, q); }
    }
    hide Transmittable, Logged, CameOf, SparedOf, Progress, Complete, FreezeRule;
    if !Finished(c, h, r, p) {
      NotYet(c, m[id].symbols, m[id].first, m[id].last, now);
    } else {
      NeverDiscarded(c, |m[id].symbols|, m[id].first, m[id].last, now);
    }
  }
}
