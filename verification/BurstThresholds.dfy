/** How long a burst may be for each row: m * depth symbols, and as many more as pass before it reaches the row. */
module BurstThresholds {
  import opened Arithmetic
  import opened Interleaving
  import opened BurstBound

  /** How many positions pass from a on before one with residue r. */
  function Gap(d: nat, a: nat, r: nat): (gap: nat)
    requires r < d
    ensures gap < d
  {
    if a % d <= r then r - a % d else d - a % d + r
  }

  lemma GapReaches(d: nat, a: nat, r: nat)
    requires r < d
    ensures (a + Gap(d, a, r)) % d == r
    ensures forall p :: a <= p < a + Gap(d, a, r) ==> p % d != r
  {
    var q, x, gap := a / d, a % d, Gap(d, a, r);
    assert a == q * d + x;
    if x <= r {
      DivModOf(d, q, r);
    } else {
      assert (q + 1) * d == q * d + d;
      DivModOf(d, q + 1, r);
    }
    forall p | a <= p < a + gap ensures p % d != r { SameResidue(d, p, a + gap); }
  }

  lemma {:induction false} HitsNone(d: nat, r: nat, a: nat, len: nat)
    requires 1 <= d && forall p :: a <= p < a + len ==> p % d != r
    ensures Hits(d, r, a, len) == 0
  {
    if len > 0 { HitsNone(d, r, a, len - 1); }
  }

  /** A residue is met at most m times exactly up to m periods after the first position that has it. */
  lemma HitsThreshold(d: nat, r: nat, a: nat, len: nat, m: nat)
    requires r < d
    ensures Hits(d, r, a, len) <= m <==> len <= d * m + Gap(d, a, r)
  {
    var gap := Gap(d, a, r);
    GapReaches(d, a, r);
    hide Hits, Gap;
    if len <= gap {
      HitsNone(d, r, a, len);
    } else {
      HitsSplit(d, r, a, gap, len - gap);
      HitsNone(d, r, a, gap);
      if len - gap <= d * m {
        HitsBound(d, r, a + gap, len - gap, m);
      } else {
        HitsMore(d, a + gap, len - gap, m);
      }
    }
  }

  /**
   Inside one window, wherever the burst starts: a block keeps within m losses exactly when the burst is at most
   m * depth symbols longer than the stretch before it reaches the block's row.
   */
  lemma RowThreshold(g: Geometry, ws: seq<seq<Row>>, w: nat, r: nat, a: nat, len: nat, m: nat)
    requires Windows(g, ws) && w < |ws| && |ws[w]| == g.depth && r < g.depth && KeyedRow(ws, ws[w][r].key, r)
    requires Start(g, w) <= a && a + len <= Start(g, w + 1)
    ensures a + len <= |Stream(g, ws)|
    ensures LostOf(Stream(g, ws), ws[w][r].key, a, len) <= m <==> len <= g.depth * m + Gap(g.depth, a, r)
  {
    hide Stream, Hits, LostOf, Start, Complete, Keyed, Gap;
    BurstIsHits(g, ws, w, r, a, len);
    HitsThreshold(g.depth, r, a, len, m);
  }
}
