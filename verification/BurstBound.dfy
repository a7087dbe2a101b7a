/** The purpose of the interleaver: a burst of m * depth symbols costs every block at most m; a longer one costs more. */
module BurstBound {
  import opened Types
  import opened Arithmetic
  import opened Interleaving
  import opened InterleaverWindows

  // ---------------------------------------------------------------------------
  // Residues in an interval
  // ---------------------------------------------------------------------------

  /** How many of the len positions from a on are congruent to r modulo d. */
  function Hits(d: nat, r: nat, a: nat, len: nat): (h: nat)
    requires 1 <= d
    ensures h <= len
  {
    if len == 0 then 0 else Hits(d, r, a, len - 1) + if (a + len - 1) % d == r then 1 else 0
  }

  lemma {:induction false} HitsSplit(d: nat, r: nat, a: nat, x: nat, y: nat)
    requires 1 <= d
    ensures Hits(d, r, a, x + y) == Hits(d, r, a, x) + Hits(d, r, a + x, y)
  {
    if y > 0 {
      HitsSplit(d, r, a, x, y - 1);
      assert a + (x + y) - 1 == (a + x) + y - 1;
    }
  }

  /** Fewer than a whole period hits a residue at most once. */
  lemma {:induction false} HitsShort(d: nat, r: nat, a: nat, len: nat)
    requires r < d && len <= d
    ensures Hits(d, r, a, len) <= 1
    ensures Hits(d, r, a, len) == 1 <==> exists p :: a <= p < a + len && p % d == r
  {
    if len > 0 {
      HitsShort(d, r, a, len - 1);
      var q := a + len - 1;
      if q % d == r {
        forall p | a <= p < q
          ensures p % d != r
        {
          SameResidue(d, p, q);
        }
      }
    }
  }

  /** Two numbers less than d apart have different residues. */
  lemma SameResidue(d: nat, p: nat, q: nat)
    requires 1 <= d && p < q < p + d
    ensures p % d != q % d
  {
    var i, j := p / d, q / d;
    assert p == d * i + p % d && q == d * j + q % d;
    if j <= i {
      MulMono(d, j, i);
    } else {
      MulMono(d, i + 1, j);
      Distribute(d, i);
    }
  }

  /** len <= m * d positions hit each residue at most m times. */
  lemma {:induction false} HitsBound(d: nat, r: nat, a: nat, len: nat, m: nat)
    requires r < d && len <= d * m
    ensures Hits(d, r, a, len) <= m
    decreases m
  {
    hide Hits;
    if m == 0 {
      assert len <= 0;
    } else if len <= d {
      HitsShort(d, r, a, len);
    } else {
      Distribute(d, m - 1);
      HitsSplit(d, r, a, d, len - d);
      HitsShort(d, r, a, d);
      HitsBound(d, r, a + d, len - d, m - 1);
    }
  }

  /** More than m * d positions hit the first position's residue more than m times. */
  lemma {:induction false} HitsMore(d: nat, a: nat, len: nat, m: nat)
    requires 1 <= d && len > d * m
    ensures Hits(d, a % d, a, len) > m
    decreases m
  {
    hide Hits;
    if m == 0 {
      HitsSplit(d, a % d, a, 1, len - 1);
      HitsShort(d, a % d, a, 1);
      assert a <= a < a + 1;
    } else {
      Distribute(d, m - 1);
      HitsSplit(d, a % d, a, d, len - d);
      HitsShort(d, a % d, a, d);
      assert a <= a < a + d;
      DivModShift(d, a);
      HitsMore(d, a + d, len - d, m - 1);
    }
  }

  lemma DivModShift(d: nat, a: nat)
    requires 1 <= d
    ensures (a + d) % d == a % d
  {
    var q, r := a / d, a % d;
    assert a == q * d + r;
    assert a + d == (q + 1) * d + r by { assert (q + 1) * d == q * d + d; }
    DivModOf(d, q + 1, r);
  }

  // ---------------------------------------------------------------------------
  // Transmitted streams
  // ---------------------------------------------------------------------------

  /** Every cell carries its row's key and its own column. */
  ghost predicate Keyed(rows: seq<Row>) {
    forall r, c :: 0 <= r < |rows| && c in rows[r].cells ==>
      rows[r].cells[c].packetId == rows[r].key && rows[r].cells[c].fecId == c
  }

  ghost predicate Windows(g: Geometry, ws: seq<seq<Row>>) {
    ValidGeometry(g) && forall w :: 0 <= w < |ws| ==> Complete(g, ws[w]) && Keyed(ws[w])
  }

  /** Symbols per window. */
  function Area(g: Geometry): nat {
    g.n * g.depth
  }

  /** The stream position at which window k starts. */
  function Start(g: Geometry, k: nat): nat {
    k * Area(g)
  }

  lemma NextStart(g: Geometry, k: nat)
    ensures Start(g, k + 1) == Start(g, k) + Area(g)
  {
    assert (k + 1) * Area(g) == k * Area(g) + Area(g);
  }

  lemma StartMonotone(g: Geometry, i: nat, k: nat)
    requires i <= k
    ensures Start(g, i) <= Start(g, k)
  {
    MulMono(Area(g), i, k);
  }

  /** The concatenation of the drains of consecutive windows. */
  ghost function Stream(g: Geometry, ws: seq<seq<Row>>): (s: seq<Symbol>)
    requires Windows(g, ws)
  {
    if ws == [] then [] else Stream(g, ws[..|ws| - 1]) + Drained(g, ws[|ws| - 1])
  }

  lemma {:induction false} StreamLength(g: Geometry, ws: seq<seq<Row>>)
    requires Windows(g, ws)
    ensures |Stream(g, ws)| == Start(g, |ws|)
  {
    if ws != [] {
      var k := |ws| - 1;
      StreamLength(g, ws[..k]);
      NextStart(g, k);
      hide Start, Keyed, Complete;
      assert |Drained(g, ws[k])| == Area(g);
    }
  }

  /** The stream up to the last window, and the rows of the last window's items. */
  lemma StreamParts(g: Geometry, ws: seq<seq<Row>>)
    requires Windows(g, ws) && ws != []
    ensures var k := |ws| - 1;
            && |Stream(g, ws)| == Start(g, k) + Area(g)
            && Stream(g, ws)[..Start(g, k)] == Stream(g, ws[..k])
            && forall i: nat :: i < Area(g) ==> Stream(g, ws)[Start(g, k) + i].packetId == ws[k][i % g.depth].key
  {
    var k := |ws| - 1;
    StreamLength(g, ws);
    StreamLength(g, ws[..k]);
    NextStart(g, k);
    hide Start, Keyed, Complete, Area;
    var d: seq<Symbol> := Drained(g, ws[k]);
    forall i: nat | i < Area(g)
      ensures Stream(g, ws)[Start(g, k) + i].packetId == ws[k][i % g.depth].key
    {
      DrainedKey(g, ws[k], i);
      assert Stream(g, ws)[Start(g, k) + i] == d[i];
    }
  }

  lemma DrainedKey(g: Geometry, rows: seq<Row>, i: nat)
    requires ValidGeometry(g) && Complete(g, rows) && Keyed(rows) && i < Area(g)
    ensures Drained(g, rows)[i].packetId == rows[i % g.depth].key
  {
    DivBound(g.depth, g.n, i);
  }

  /** Position p of the stream, when it falls in window k, is a cell of that window's row p mod depth. */
  lemma {:induction false} StreamRow(g: Geometry, ws: seq<seq<Row>>, k: nat, p: nat)
    requires Windows(g, ws) && k < |ws| && Start(g, k) <= p < Start(g, k + 1)
    ensures p < |Stream(g, ws)|
    ensures Stream(g, ws)[p].packetId == ws[k][p % g.depth].key
    decreases |ws|
  {
    hide Start, Stream, Keyed, Complete, Area;
    var last := |ws| - 1;
    StreamParts(g, ws);
    NextStart(g, k);
    if k < last {
      StartMonotone(g, k + 1, last);
      StreamRow(g, ws[..last], k, p);
    } else {
      RowOfPosition(g, k, p - Start(g, k));
    }
  }

  /** Every position of the stream falls in some window. */
  lemma {:induction false} Locate(g: Geometry, ws: seq<seq<Row>>, p: nat) returns (k: nat)
    requires Windows(g, ws) && p < |Stream(g, ws)|
    ensures k < |ws| && Start(g, k) <= p < Start(g, k + 1)
    decreases |ws|
  {
    hide Start, Keyed, Complete, Area;
    var last := |ws| - 1;
    StreamParts(g, ws);
    NextStart(g, last);
    if p < Start(g, last) {
      k := Locate(g, ws[..last], p);
    } else {
      k := last;
    }
  }

  /** The area is a multiple of depth, so a window offset does not change the row. */
  lemma RowOfPosition(g: Geometry, k: nat, i: nat)
    requires ValidGeometry(g) && i < Area(g)
    ensures (Start(g, k) + i) % g.depth == i % g.depth
  {
    DivBound(g.depth, g.n, i);
    var q := k * g.n + i / g.depth;
    assert k * Area(g) == k * (g.n * g.depth) == (k * g.n) * g.depth;
    assert q * g.depth == (k * g.n) * g.depth + (i / g.depth) * g.depth;
    DivModOf(g.depth, q, i % g.depth);
  }

  // ---------------------------------------------------------------------------
  // Losses
  // ---------------------------------------------------------------------------

  /** Symbols of the block among the len stream positions from a on. */
  ghost function LostOf(s: seq<Symbol>, key: uint32, a: nat, len: nat): (lost: nat)
    requires a + len <= |s|
  {
    if len == 0 then 0 else LostOf(s, key, a, len - 1) + if s[a + len - 1].packetId == key then 1 else 0
  }

  /** In every window the key names row r and no other. */
  ghost predicate KeyedRow(ws: seq<seq<Row>>, key: uint32, r: nat) {
    forall w, i :: 0 <= w < |ws| && 0 <= i < |ws[w]| && ws[w][i].key == key ==> i == r
  }

  lemma CompleteRows(g: Geometry, ws: seq<seq<Row>>, k: nat)
    requires Windows(g, ws) && k < |ws|
    ensures |ws[k]| == g.depth
  {
  }

  /** A stream position that carries the key is a position of the key's row. */
  lemma StreamKey(g: Geometry, ws: seq<seq<Row>>, key: uint32, r: nat, p: nat)
    requires Windows(g, ws) && KeyedRow(ws, key, r) && p < |Stream(g, ws)|
    ensures Stream(g, ws)[p].packetId == key ==> p % g.depth == r
  {
    hide Stream, Keyed, Complete, Start;
    var k := Locate(g, ws, p);
    StreamRow(g, ws, k, p);
    assert 0 <= p % g.depth < |ws[k]| by { CompleteRows(g, ws, k); }
  }

  lemma {:induction false} LossesAreHits(g: Geometry, ws: seq<seq<Row>>, key: uint32, r: nat, a: nat, len: nat)
    requires Windows(g, ws) && KeyedRow(ws, key, r) && a + len <= |Stream(g, ws)|
    ensures LostOf(Stream(g, ws), key, a, len) <= Hits(g.depth, r, a, len)
  {
    hide Stream, Drained, Area, Keyed, Complete;
    if len > 0 {
      LossesAreHits(g, ws, key, r, a, len - 1);
      StreamKey(g, ws, key, r, a + len - 1);
    }
  }

  /**
   A burst of at most m * depth consecutive symbols, anywhere in the concatenation of any number of
   drained windows, removes at most m symbols of any block.
   */
  lemma BurstTheorem(g: Geometry, ws: seq<seq<Row>>, key: uint32, r: nat, a: nat, len: nat, m: nat)
    requires Windows(g, ws) && r < g.depth && KeyedRow(ws, key, r)
    requires a + len <= |Stream(g, ws)| && len <= m * g.depth
    ensures LostOf(Stream(g, ws), key, a, len) <= m
  {
    LossesAreHits(g, ws, key, r, a, len);
    assert m * g.depth == g.depth * m;
    HitsBound(g.depth, r, a, len, m);
  }

  /** Inside window w every hit of row r is a symbol of row r's block. */
  lemma {:induction false} HitsAreLosses(g: Geometry, ws: seq<seq<Row>>, w: nat, r: nat, a: nat, len: nat)
    requires Windows(g, ws) && w < |ws| && r < g.depth
    requires Start(g, w) <= a && a + len <= Start(g, w + 1) <= |Stream(g, ws)|
    ensures Hits(g.depth, r, a, len) <= LostOf(Stream(g, ws), ws[w][r].key, a, len)
  {
    if len > 0 {
      HitsAreLosses(g, ws, w, r, a, len - 1);
      hide Stream, Drained;
      StreamRow(g, ws, w, a + len - 1);
    }
  }

  /** Inside one window a burst takes from a block exactly the positions of its row. */
  lemma BurstIsHits(g: Geometry, ws: seq<seq<Row>>, w: nat, r: nat, a: nat, len: nat)
    requires Windows(g, ws) && w < |ws| && r < g.depth
    requires Start(g, w) <= a && a + len <= Start(g, w + 1)
    requires |ws[w]| == g.depth && KeyedRow(ws, ws[w][r].key, r)
    ensures a + len <= |Stream(g, ws)|
    ensures LostOf(Stream(g, ws), ws[w][r].key, a, len) == Hits(g.depth, r, a, len)
  {
    hide Stream, Hits, LostOf, Start, Complete, Keyed;
    StreamLength(g, ws);
    StartMonotone(g, w + 1, |ws|);
    LossesAreHits(g, ws, ws[w][r].key, r, a, len);
    HitsAreLosses(g, ws, w, r, a, len);
  }

  /**
   Inside one window, whose padding rows may share key 0: a burst of at most m * depth symbols takes at most m
   symbols of every block; a longer one takes more than m from the row it starts in. So, when that row holds a
   block, the burst is harmless to every block exactly when it is at most m * depth long.
   */
  lemma BurstLimitIsExact(g: Geometry, ws: seq<seq<Row>>, w: nat, a: nat, len: nat, m: nat)
    requires Windows(g, ws) && w < |ws| && |ws[w]| == g.depth
    requires Start(g, w) <= a && a + len <= Start(g, w + 1)
    requires forall r :: 0 <= r < g.depth && ws[w][r].key != 0 ==> KeyedRow(ws, ws[w][r].key, r)
    ensures a + len <= |Stream(g, ws)| && 0 <= a % g.depth < g.depth
    ensures len <= m * g.depth ==>
      forall r :: 0 <= r < g.depth && ws[w][r].key != 0 ==> LostOf(Stream(g, ws), ws[w][r].key, a, len) <= m
    ensures ws[w][a % g.depth].key != 0 ==>
      ((forall r :: 0 <= r < g.depth && ws[w][r].key != 0 ==> LostOf(Stream(g, ws), ws[w][r].key, a, len) <= m)
       <==> len <= m * g.depth)
  {
    hide Stream, Hits, LostOf, Start, Complete, Keyed;
    StreamLength(g, ws);
    StartMonotone(g, w + 1, |ws|);
    assert m * g.depth == g.depth * m;
    if len <= m * g.depth {
      forall r | 0 <= r < g.depth && ws[w][r].key != 0
        ensures LostOf(Stream(g, ws), ws[w][r].key, a, len) <= m
      {
        BurstTheorem(g, ws, ws[w][r].key, r, a, len, m);
      }
    } else {
      var r := a % g.depth;
      HitsMore(g.depth, a, len, m);
      if ws[w][r].key != 0 {
        BurstIsHits(g, ws, w, r, a, len);
        assert LostOf(Stream(g, ws), ws[w][r].key, a, len) > m;
      }
    }
  }

  // ---------------------------------------------------------------------------
  // The windows the interleaver produces
  // ---------------------------------------------------------------------------

  lemma PushKeyed(g: Geometry, w: Window, sym: Symbol, now: int)
    requires Keyed(w.rows)
    ensures Keyed(Push(g, w, sym, now).0.rows)
  {
    assert Keyed(RowsFor(w.rows, sym.packetId));
  }

  lemma TickKeyed(g: Geometry, w: Window, now: int)
    requires ValidGeometry(g) && Keyed(w.rows)
    ensures Keyed(Tick(g, w, now).0.rows)
  {
    var rows := FillAll(g, w.rows);
    forall r, c | 0 <= r < |rows| && c in rows[r].cells
      ensures rows[r].cells[c].packetId == rows[r].key && rows[r].cells[c].fecId == c
    {
      var row := if r < |w.rows| then w.rows[r] else Row(0, map[]);
      assert rows[r] == row || rows[r] == FillRow(g, row);
    }
  }

  /** No two rows have the same key. */
  ghost predicate DistinctKeys(rows: seq<Row>) {
    forall r, q :: 0 <= r < q < |rows| ==> rows[r].key != rows[q].key
  }

  /** A key takes at most one row, however its symbols arrive. */
  lemma PushDistinct(g: Geometry, w: Window, sym: Symbol, now: int)
    requires DistinctKeys(w.rows)
    ensures DistinctKeys(Push(g, w, sym, now).0.rows)
  {
    assert DistinctKeys(RowsFor(w.rows, sym.packetId));
  }
}
