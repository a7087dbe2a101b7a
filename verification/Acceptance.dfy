/** Which symbol sets reassemble_packet accepts (src/packet_reassembler.c), and when an accepted set is complete. */
module Acceptance {
  import opened Types
  import opened Arithmetic
  import opened Fragmentation

  // ---------------------------------------------------------------------------
  // The condition
  // ---------------------------------------------------------------------------

  ghost predicate Sized(syms: seq<Symbol>) {
    forall j :: 0 <= j < |syms| ==> syms[j].len <= |syms[j].data|
  }

  /** Symbol i passes the three checks against the first symbol. */
  predicate Consistent(syms: seq<Symbol>, i: nat)
    requires i < |syms|
  {
    syms[i].index < syms[0].total && syms[i].packetId == syms[0].packetId && syms[i].total == syms[0].total
  }

  predicate Last(syms: seq<Symbol>, i: nat)
    requires i < |syms|
  {
    syms[i].index + 1 == syms[0].total
  }

  /** Every symbol claims to be the last one, and the first one fits. */
  ghost predicate OnlyLastSymbols(syms: seq<Symbol>, max: nat)
    requires |syms| > 0
  {
    (forall i :: 0 <= i < |syms| ==> Consistent(syms, i) && Last(syms, i)) && syms[0].len <= max
  }

  /** Symbol f is the first that is not the last one: checked so far, of positive length, and everything fits at its stride. */
  ghost predicate StrideAt(syms: seq<Symbol>, f: nat, max: nat) {
    && f < |syms|
    && (forall i :: 0 <= i <= f ==> Consistent(syms, i))
    && (forall i :: 0 <= i < f ==> Last(syms, i)) && !Last(syms, f)
    && syms[f].len > 0
    && Fit(syms, syms[f].len, 0, max)
  }

  /** From symbol i on, every symbol ends within the output buffer. */
  ghost predicate Fit(syms: seq<Symbol>, stride: nat, i: nat, max: nat) {
    forall j :: i <= j < |syms| ==> Offset(syms[j].index, stride) + syms[j].len <= max
  }

  ghost predicate AcceptedSet(syms: seq<Symbol>, max: nat) {
    && |syms| > 0 && |syms| == syms[0].total
    && (OnlyLastSymbols(syms, max) || exists f: nat :: StrideAt(syms, f, max))
  }

  // ---------------------------------------------------------------------------
  // Accepted exactly under the condition
  // ---------------------------------------------------------------------------

  /** The first loop: where it stops, and what it has checked by then. */
  lemma {:induction false} StrideFound(syms: seq<Symbol>, i: nat)
    requires 0 < |syms| && i <= |syms|
    requires forall j :: 0 <= j < i ==> Consistent(syms, j) && Last(syms, j)
    ensures match InferStride(syms, syms[0].packetId, syms[0].total, i)
      case Malformed => exists f: nat :: Stops(syms, f) && !Consistent(syms, f)
      case OnlyLast => forall j :: 0 <= j < |syms| ==> Consistent(syms, j) && Last(syms, j)
      case Found(stride) => exists f: nat :: Stops(syms, f) && Consistent(syms, f) && stride == syms[f].len
    decreases |syms| - i
  {
    if i < |syms| {
      if Consistent(syms, i) && Last(syms, i) {
        StrideFound(syms, i + 1);
      } else {
        assert Stops(syms, i);
      }
    }
  }

  /** The first loop does not go on past symbol f, and reaches it. */
  ghost predicate Stops(syms: seq<Symbol>, f: nat) {
    && f < |syms| && !(Consistent(syms, f) && Last(syms, f))
    && forall j :: 0 <= j < f ==> Consistent(syms, j) && Last(syms, j)
  }

  lemma StopsOnce(syms: seq<Symbol>, f: nat, g: nat)
    requires Stops(syms, f) && Stops(syms, g)
    ensures f == g
  {
  }

  /** The second loop accepts exactly when everything that is left fits. */
  lemma {:induction false} PlacedIff(syms: seq<Symbol>, stride: nat, i: nat, buf: seq<byte>, len: nat)
    requires i <= |syms| && len <= |buf| && Sized(syms)
    ensures PlaceFrom(syms, stride, i, buf, len).Packet? <==> Fit(syms, stride, i, |buf|)
    decreases |syms| - i
  {
    if i < |syms| {
      var end := Offset(syms[i].index, stride) + syms[i].len;
      if end <= |buf| {
        var buf' := Overwrite(buf, Offset(syms[i].index, stride), syms[i].data[..syms[i].len]);
        PlacedIff(syms, stride, i + 1, buf', if end > len then end else len);
      }
    }
  }

  lemma StrideStops(syms: seq<Symbol>, f: nat, max: nat)
    requires StrideAt(syms, f, max)
    ensures Stops(syms, f) && Consistent(syms, f)
  {
  }

  /** A set is accepted exactly when it has the announced size and either holds last symbols only or fits at its stride. */
  lemma AcceptedIff(syms: seq<Symbol>, max: nat)
    requires Sized(syms)
    ensures Reassemble(syms, max).Packet? <==> AcceptedSet(syms, max)
  {
    hide Fit, PlaceFrom, InferStride;
    if |syms| > 0 && |syms| == syms[0].total {
      StrideFound(syms, 0);
      match InferStride(syms, syms[0].packetId, syms[0].total, 0)
      case Malformed =>
        var f: nat :| Stops(syms, f) && !Consistent(syms, f);
        forall g: nat ensures !StrideAt(syms, g, max) {
          if StrideAt(syms, g, max) { StrideStops(syms, g, max); StopsOnce(syms, f, g); }
        }
      case OnlyLast =>
        forall g: nat ensures !StrideAt(syms, g, max) {
        }
      case Found(stride) =>
        var f: nat :| Stops(syms, f) && Consistent(syms, f) && stride == syms[f].len;
        PlacedIff(syms, stride, 0, Zeros(max), 0);
        forall g: nat ensures StrideAt(syms, g, max) ==> g == f {
          if StrideAt(syms, g, max) { StrideStops(syms, g, max); StopsOnce(syms, f, g); }
        }
        assert StrideAt(syms, f, max) <==> stride > 0 && Fit(syms, stride, 0, max);
    }
  }

  // ---------------------------------------------------------------------------
  // Completeness
  // ---------------------------------------------------------------------------

  ghost predicate Occurs(syms: seq<Symbol>, q: nat) {
    exists j :: 0 <= j < |syms| && syms[j].index == q
  }

  /** Every index of the packet occurs. */
  ghost predicate Covers(syms: seq<Symbol>) {
    forall q: nat :: q < |syms| ==> Occurs(syms, q)
  }

  /** What a caller can check first. */
  ghost predicate DistinctBelow(syms: seq<Symbol>) {
    && (forall i :: 0 <= i < |syms| ==> syms[i].index < |syms|)
    && (forall i, j {:trigger syms[i].index, syms[j].index} ::
          0 <= i < j < |syms| ==> syms[i].index != syms[j].index)
  }

  ghost function Indices(syms: seq<Symbol>, n: nat): set<int>
    requires n <= |syms|
  {
    set i | 0 <= i < n :: syms[i].index as int
  }

  lemma {:induction false} FewIndices(syms: seq<Symbol>, n: nat)
    requires n <= |syms|
    ensures |Indices(syms, n)| <= n
  {
    if n > 0 {
      FewIndices(syms, n - 1);
      assert Indices(syms, n) == Indices(syms, n - 1) + {syms[n - 1].index as int};
    } else {
      assert Indices(syms, 0) == {};
    }
  }

  /** A repeated index leaves fewer indices than symbols. */
  lemma {:induction false} RepeatCosts(syms: seq<Symbol>, n: nat, i: nat, j: nat)
    requires i < j < n <= |syms| && syms[i].index == syms[j].index
    ensures |Indices(syms, n)| < n
  {
    if j == n - 1 {
      FewIndices(syms, n - 1);
      assert Indices(syms, n) == Indices(syms, n - 1);
    } else {
      RepeatCosts(syms, n - 1, i, j);
      assert Indices(syms, n) == Indices(syms, n - 1) + {syms[n - 1].index as int};
    }
  }

  /** The indices of a packet of n fragments. */
  ghost function Below(n: nat): (s: set<int>)
    ensures |s| == n && forall q :: q in s <==> 0 <= q < n
  {
    if n == 0 then {} else Below(n - 1) + {n - 1}
  }

  lemma SubsetFull(a: set<int>, b: set<int>)
    requires a <= b && |b| <= |a|
    ensures a == b
  {
    var rest := b - a;
    assert b == a + rest;
    assert |b| == |a| + |rest|;
  }

  /** A set of symbols is complete exactly when its indices are distinct and below their number. */
  lemma CoversIff(syms: seq<Symbol>)
    ensures Covers(syms) <==> DistinctBelow(syms)
  {
    var n := |syms|;
    var s := Indices(syms, n);
    if DistinctBelow(syms) {
      DistinctIndices(syms, n);
      SetBound(s, n);
      forall q: nat | q < n ensures Occurs(syms, q) {
        assert q in s;
      }
    }
    if Covers(syms) {
      FewIndices(syms, n);
      forall q | q in Below(n) ensures q in s {
        assert Occurs(syms, q);
      }
      SubsetFull(Below(n), s);
      forall i | 0 <= i < n ensures syms[i].index < n {
        assert syms[i].index as int in s;
      }
      forall i, j {:trigger syms[i].index, syms[j].index} | 0 <= i < j < n ensures syms[i].index != syms[j].index {
        if syms[i].index == syms[j].index { RepeatCosts(syms, n, i, j); }
      }
    }
  }

  /**
   An accepted set covers every index of its packet exactly when its indices are distinct and below the
   announced total. Acceptance alone does not say so: see RepeatedIndexAccepted.
   */
  lemma AcceptedComplete(syms: seq<Symbol>, max: nat)
    requires Sized(syms) && Reassemble(syms, max).Packet?
    ensures |syms| == syms[0].total
    ensures (forall q: nat :: q < syms[0].total ==> Occurs(syms, q))
            <==> (forall i :: 0 <= i < |syms| ==> syms[i].index < syms[0].total)
                 && (forall i, j {:trigger syms[i].index, syms[j].index} ::
                       0 <= i < j < |syms| ==> syms[i].index != syms[j].index)
  {
    CoversIff(syms);
  }
}
