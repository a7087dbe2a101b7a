/** When the packets that arrived whole are all that is sent: conditions on the losses. */
module RxConditions {
  import opened Types
  import opened Fragmentation
  import opened TxSpec
  import opened TxHistory
  import opened RxGrouping
  import opened RxSurvivors
  import opened RxIntegrity
  import RxLosses

  // ---------------------------------------------------------------------------
  // Groups closed by a position
  // ---------------------------------------------------------------------------

  /** No accepted group but genuine ones has been closed by position i. */
  ghost predicate UnmixedTo(k: nat, symbols: seq<Symbol>, i: nat)
    requires i <= k <= |symbols| && k < MAX_SYMBOLS_PER_BLOCK
  {
    TraceSource(k, symbols, i);
    NoneSpurious(k, symbols, TraceTo(k, symbols, i).closed)
  }

  lemma SpuriousMore(k: nat, symbols: seq<Symbol>, gs: seq<seq<nat>>, g: seq<nat>)
    requires k <= |symbols| && AllSource(k, symbols, gs) && SourceGroup(k, symbols, g)
    ensures AllSource(k, symbols, gs + [g]) && Within(g, symbols)
    ensures NoneSpurious(k, symbols, gs + [g]) <==> NoneSpurious(k, symbols, gs) && (Accepted(symbols, g) ==> Genuine(symbols, g))
  {
    hide SourceGroup, Accepted, Genuine, NoneSpurious;
    assert (gs + [g])[..|gs|] == gs;
    SpuriousSplit(k, symbols, gs + [g]);
  }

  lemma GivenUnmixed(k: nat, symbols: seq<Symbol>, tr: Trace, i: nat)
    requires k <= |symbols| && i < k && Tidy(k, symbols, tr, i)
    ensures AllSource(k, symbols, tr.closed) && AllSource(k, symbols, Given(symbols, tr, i))
    ensures NoneSpurious(k, symbols, Given(symbols, tr, i)) <==> NoneSpurious(k, symbols, tr.closed)
  {
    hide SourceGroup, Accepted, FullAt, NoneSpurious;
    if tr.open != [] && symbols[i].index == 0 {
      SpuriousMore(k, symbols, tr.closed, tr.open);
      IncompleteRefused(symbols, tr.open);
    }
  }

  /** Position i keeps the condition unless the group it ends is accepted and not genuine. */
  lemma StepUnmixed(k: nat, symbols: seq<Symbol>, i: nat)
    requires i < k <= |symbols| && k < MAX_SYMBOLS_PER_BLOCK && UnmixedTo(k, symbols, i)
    requires HasPayload(symbols[i], k) ==>
      var g := Ended(symbols, TraceTo(k, symbols, i), i); Accepted(symbols, g) ==> Genuine(symbols, g)
    ensures UnmixedTo(k, symbols, i + 1)
  {
    if HasPayload(symbols[i], k) {
      var tr := TraceTo(k, symbols, i);
      TraceTidy(k, symbols, i);
      EndedTidy(k, symbols, tr, i);
      TidyOpen(k, symbols, tr, i);
      JoinIs(symbols, tr, i);
      assert TraceTo(k, symbols, i + 1) == JoinAt(symbols, tr, i);
      hide Tidy, SourceGroup, Accepted, Genuine, FullAt, JoinAt, TraceTo, Ended, Given, HasPayload, NoneSpurious;
      GivenUnmixed(k, symbols, tr, i);
      SpuriousMore(k, symbols, Given(symbols, tr, i), Ended(symbols, tr, i));
    } else {
      hide SourceGroup, Accepted, Genuine, JoinAt, NoneSpurious;
    }
  }

  lemma EndUnmixed(k: nat, symbols: seq<Symbol>)
    requires k <= |symbols| && k < MAX_SYMBOLS_PER_BLOCK
    ensures Unmixed(k, symbols) <==> UnmixedTo(k, symbols, k)
  {
    ClosedSource(k, symbols);
    TraceTidy(k, symbols, k);
    var tr := TraceTo(k, symbols, k);
    TidyOpen(k, symbols, tr, k);
    if tr.open != [] {
      hide SourceGroup, Accepted, FullAt, TraceTo, NoneSpurious;
      SpuriousMore(k, symbols, tr.closed, tr.open);
      IncompleteRefused(symbols, tr.open);
    }
  }

  // ---------------------------------------------------------------------------
  // Blank losses
  // ---------------------------------------------------------------------------

  /** Lost source positions hold no payload length. */
  ghost predicate BlankLost(k: nat, symbols: seq<Symbol>)
    requires k <= |symbols|
  {
    forall i :: 0 <= i < k && symbols[i].packetId == 0 ==> symbols[i].len == 0
  }

  /** The received positions among the j from a on. */
  function Received(symbols: seq<Symbol>, a: nat, j: nat): (g: seq<nat>)
    requires a + j <= |symbols|
    ensures |g| <= j && forall x :: 0 <= x < |g| ==> a <= g[x] < a + j && symbols[g[x]].packetId != 0
  {
    if j == 0 then []
    else Received(symbols, a, j - 1) + if symbols[a + j - 1].packetId != 0 then [a + j - 1] else []
  }

  /** As many as there are positions only when all of them were received. */
  lemma {:induction false} AllReceived(symbols: seq<Symbol>, a: nat, j: nat)
    requires a + j <= |symbols| && |Received(symbols, a, j)| == j
    ensures Received(symbols, a, j) == Stretch(a, j)
  {
    if j > 0 { AllReceived(symbols, a, j - 1); }
  }

  lemma BlankSkipped(k: nat, symbols: seq<Symbol>, p: nat)
    requires p < k <= |symbols| && BlankLost(k, symbols) && symbols[p].packetId == 0
    ensures !HasPayload(symbols[p], k) && TraceTo(k, symbols, p + 1) == TraceTo(k, symbols, p)
  {
    hide JoinAt;
  }

  lemma ReceivedGenuine(symbols: seq<Symbol>, a: nat, j: nat)
    requires a + j <= |symbols| && |Received(symbols, a, j)| == j
    ensures Genuine(symbols, Received(symbols, a, j))
  {
    AllReceived(symbols, a, j);
  }

  /** Positions without payload close nothing. */
  lemma {:induction false} SkipAll(k: nat, symbols: seq<Symbol>, l: nat, i: nat)
    requires l <= i <= k <= |symbols| && k < MAX_SYMBOLS_PER_BLOCK && UnmixedTo(k, symbols, l)
    requires forall p :: l <= p < k ==> !HasPayload(symbols[p], k)
    ensures UnmixedTo(k, symbols, i)
  {
    hide UnmixedTo, HasPayload, Ended, TraceTo, Accepted, Genuine;
    if i > l {
      SkipAll(k, symbols, l, i - 1);
      StepUnmixed(k, symbols, i - 1);
    }
  }

  // ---------------------------------------------------------------------------
  // Every fragment received, stale padding positions
  // ---------------------------------------------------------------------------

  ghost predicate AllArrived(cfg: TxConfig, ps: seq<PacketBytes>, symbols: seq<Symbol>)
    requires Packed(cfg, ps)
  {
    forall q :: 0 <= q < |ps| ==> Arrived(cfg, ps, symbols, q)
  }

  lemma {:induction false} AllSurvive(cfg: TxConfig, ps: seq<PacketBytes>, symbols: seq<Symbol>, q: nat)
    requires Packed(cfg, ps) && q <= |ps| && AllArrived(cfg, ps, symbols)
    ensures Survivors(cfg, ps, symbols, q) == ps[..q]
  {
    hide Packed, Arrived;
    if q > 0 { AllSurvive(cfg, ps, symbols, q - 1); }
  }

  /** The group is made of lost positions from l on: what an earlier block left there. */
  ghost predicate Stale(symbols: seq<Symbol>, l: nat, g: seq<nat>)
    requires Within(g, symbols)
  {
    forall x :: 0 <= x < |g| ==> l <= g[x] && symbols[g[x]].packetId == 0
  }

  /** Every group so far is genuine or stale, and what is buffered is stale. */
  ghost predicate Sorted(symbols: seq<Symbol>, l: nat, tr: Trace) {
    && Within(tr.open, symbols) && Stale(symbols, l, tr.open)
    && forall c :: 0 <= c < |tr.closed| ==>
         Within(tr.closed[c], symbols) && (Genuine(symbols, tr.closed[c]) || Stale(symbols, l, tr.closed[c]))
  }

  /** A packet received whole, from an empty buffer on. */
  lemma {:induction false} PacketTrace(cfg: TxConfig, ps: seq<PacketBytes>, symbols: seq<Symbol>, recon: seq<byte>, id: uint32,
                                       q: nat, j: nat)
    requires Damaged(cfg, ps, symbols, recon, id) && q < |ps| && j <= Count(|ps[q]|, cfg.size)
    requires cfg.k <= |symbols| && StartOf(cfg, ps, q) + j <= cfg.k && Arrived(cfg, ps, symbols, q)
    requires TraceTo(cfg.k, symbols, StartOf(cfg, ps, q)).open == []
    ensures var a := StartOf(cfg, ps, q);
      var before := TraceTo(cfg.k, symbols, a).closed;
      TraceTo(cfg.k, symbols, a + j) ==
        if j == Count(|ps[q]|, cfg.size) then Trace([], before + [Stretch(a, j)]) else Trace(Stretch(a, j), before)
  {
    hide Layout, StartOf, SourcePlan, SourceBytes, Count, Damaged, HasPayload, JoinAt, Ended;
    DamagedParts(cfg, ps, symbols, recon, id);
    PacketSizes(cfg, ps, q);
    var a := StartOf(cfg, ps, q);
    if j == 0 {
      assert Stretch(a, 0) == [];
    } else {
      PacketTrace(cfg, ps, symbols, recon, id, q, j - 1);
      var p := FragmentAt(cfg, ps, symbols, recon, id, q, j - 1);
      var h := FragmentAt(cfg, ps, symbols, recon, id, q, 0);
      Tracking(cfg, ps, symbols, recon, id, q, j - 1);
      TraceTidy(cfg.k, symbols, p);
      TidyOpen(cfg.k, symbols, TraceTo(cfg.k, symbols, p), p);
      JoinIs(symbols, TraceTo(cfg.k, symbols, p), p);
      assert Stretch(a, 0) == [];
      assert Given(symbols, TraceTo(cfg.k, symbols, p), p) == TraceTo(cfg.k, symbols, a).closed;
    }
  }

  lemma PacketGenuine(cfg: TxConfig, ps: seq<PacketBytes>, symbols: seq<Symbol>, recon: seq<byte>, id: uint32, q: nat)
    requires Damaged(cfg, ps, symbols, recon, id) && q < |ps| && Arrived(cfg, ps, symbols, q)
    ensures var g := Stretch(StartOf(cfg, ps, q), Count(|ps[q]|, cfg.size)); Within(g, symbols) && Genuine(symbols, g)
  {
    hide Accepted, Genuine, BytesOf, Damaged, StartOf, Count, Arrived;
    PacketGroup(cfg, ps, symbols, recon, id, q);
  }

  lemma SortedMore(symbols: seq<Symbol>, l: nat, closed: seq<seq<nat>>, g: seq<nat>)
    requires Sorted(symbols, l, Trace([], closed)) && Within(g, symbols) && Genuine(symbols, g)
    ensures Sorted(symbols, l, Trace([], closed + [g]))
  {
    hide Genuine, Stale;
    assert Stale(symbols, l, []) by { EmptyStale(symbols, l); }
  }

  lemma EmptyStale(symbols: seq<Symbol>, l: nat)
    ensures Within([], symbols) && Stale(symbols, l, []) && Sorted(symbols, l, Trace([], []))
  {
  }

  lemma PacketSorted(cfg: TxConfig, ps: seq<PacketBytes>, symbols: seq<Symbol>, recon: seq<byte>, id: uint32, l: nat, q: nat)
    requires Damaged(cfg, ps, symbols, recon, id) && q < |ps| && Arrived(cfg, ps, symbols, q) && cfg.k <= |symbols|
    requires StartOf(cfg, ps, q) + Count(|ps[q]|, cfg.size) <= cfg.k
    requires var tr := TraceTo(cfg.k, symbols, StartOf(cfg, ps, q)); tr.open == [] && Sorted(symbols, l, tr)
    ensures var tr := TraceTo(cfg.k, symbols, StartOf(cfg, ps, q) + Count(|ps[q]|, cfg.size));
      tr.open == [] && Sorted(symbols, l, tr)
  {
    hide Count, Damaged, Arrived, StartOf, Genuine, TraceTo, Sorted;
    DamagedParts(cfg, ps, symbols, recon, id);
    var tr := TraceTo(cfg.k, symbols, StartOf(cfg, ps, q));
    assert tr == Trace([], tr.closed);
    PacketTrace(cfg, ps, symbols, recon, id, q, Count(|ps[q]|, cfg.size));
    PacketGenuine(cfg, ps, symbols, recon, id, q);
    SortedMore(symbols, l, tr.closed, Stretch(StartOf(cfg, ps, q), Count(|ps[q]|, cfg.size)));
  }

  lemma NothingSorted(cfg: TxConfig, ps: seq<PacketBytes>, symbols: seq<Symbol>, recon: seq<byte>, l: nat)
    requires Packed(cfg, ps) && Scannable(cfg.k, cfg.size, symbols, recon)
    ensures StartOf(cfg, ps, 0) == 0 && TraceTo(cfg.k, symbols, 0).open == [] && Sorted(symbols, l, TraceTo(cfg.k, symbols, 0))
  {
    NothingScanned(cfg, ps, symbols, recon);
    EmptyStale(symbols, l);
  }

  lemma {:induction false} PacketsSorted(cfg: TxConfig, ps: seq<PacketBytes>, symbols: seq<Symbol>, recon: seq<byte>, id: uint32,
                                         l: nat, q: nat)
    requires Damaged(cfg, ps, symbols, recon, id) && q <= |ps| && AllArrived(cfg, ps, symbols) && cfg.k <= |symbols|
    ensures StartOf(cfg, ps, q) <= cfg.k
    ensures var tr := TraceTo(cfg.k, symbols, StartOf(cfg, ps, q)); tr.open == [] && Sorted(symbols, l, tr)
  {
    hide Count, Damaged, Layout, Arrived, StartOf, TraceTo, Sorted;
    DamagedParts(cfg, ps, symbols, recon, id);
    if q == 0 {
      NothingSorted(cfg, ps, symbols, recon, l);
    } else {
      NextStart(cfg, ps, q - 1);
      RxLosses.LayoutBound(cfg, ps);
      PacketsSorted(cfg, ps, symbols, recon, id, l, q - 1);
      PacketSorted(cfg, ps, symbols, recon, id, l, q - 1);
    }
  }

  lemma StaleStep(k: nat, symbols: seq<Symbol>, l: nat, i: nat)
    requires l <= i < k <= |symbols| && k < MAX_SYMBOLS_PER_BLOCK && Sorted(symbols, l, TraceTo(k, symbols, i))
    requires symbols[i].packetId != 0 ==> !HasPayload(symbols[i], k)
    ensures Sorted(symbols, l, TraceTo(k, symbols, i + 1))
  {
    hide HasPayload, JoinAt, Genuine, FullAt;
    if HasPayload(symbols[i], k) {
      var tr := TraceTo(k, symbols, i);
      TraceTidy(k, symbols, i);
      TidyOpen(k, symbols, tr, i);
      JoinIs(symbols, tr, i);
    }
  }

  lemma {:induction false} StaleSteps(k: nat, symbols: seq<Symbol>, l: nat, i: nat)
    requires l <= i <= k <= |symbols| && k < MAX_SYMBOLS_PER_BLOCK && Sorted(symbols, l, TraceTo(k, symbols, l))
    requires forall p :: l <= p < k && symbols[p].packetId != 0 ==> !HasPayload(symbols[p], k)
    ensures Sorted(symbols, l, TraceTo(k, symbols, i))
  {
    hide HasPayload, Sorted, TraceTo;
    if i > l {
      StaleSteps(k, symbols, l, i - 1);
      StaleStep(k, symbols, l, i - 1);
    }
  }

  /** Every group of the block is a received packet or made of lost padding positions. */
  lemma GroupKinds(cfg: TxConfig, ps: seq<PacketBytes>, symbols: seq<Symbol>, recon: seq<byte>, id: uint32)
    requires Damaged(cfg, ps, symbols, recon, id) && AllArrived(cfg, ps, symbols) && cfg.k <= |symbols|
    ensures cfg.k < MAX_SYMBOLS_PER_BLOCK
    ensures forall c :: 0 <= c < |ClosedGroups(cfg.k, symbols)| ==>
      var g := ClosedGroups(cfg.k, symbols)[c];
      Within(g, symbols) && (Genuine(symbols, g) || Stale(symbols, |Layout(cfg, ps)|, g))
  {
    DamagedParts(cfg, ps, symbols, recon, id);
    EndsAtLayout(cfg, ps);
    hide Layout, Damaged, TraceTo, Genuine, StartOf, AllArrived;
    PacketsSorted(cfg, ps, symbols, recon, id, |Layout(cfg, ps)|, |ps|);
    forall p | |Layout(cfg, ps)| <= p < cfg.k && symbols[p].packetId != 0 ensures !HasPayload(symbols[p], cfg.k) {
      PaddingAt(cfg, ps, symbols, recon, id, p);
    }
    StaleSteps(cfg.k, symbols, |Layout(cfg, ps)|, cfg.k);
  }

  /** No group of stale padding positions is one that reassembly accepts. */
  ghost predicate StaleRefused(k: nat, symbols: seq<Symbol>, l: nat)
    requires k <= |symbols| && k < MAX_SYMBOLS_PER_BLOCK
  {
    ClosedSource(k, symbols);
    forall c :: 0 <= c < |ClosedGroups(k, symbols)| ==>
      (SourceWithin(k, symbols, ClosedGroups(k, symbols)[c]);
       Stale(symbols, l, ClosedGroups(k, symbols)[c]) ==> !Accepted(symbols, ClosedGroups(k, symbols)[c]))
  }

  /** A group is not both. */
  lemma StaleNotGenuine(k: nat, symbols: seq<Symbol>, l: nat, g: seq<nat>)
    requires k <= |symbols| && SourceGroup(k, symbols, g) && Within(g, symbols) && Stale(symbols, l, g)
    ensures !Genuine(symbols, g)
  {
    assert symbols[g[0]].packetId == 0;
  }

  /**
   For a block all of whose fragments were received: the packets sent are exactly the packets packed if and
   only if what earlier blocks left at its lost padding positions makes no group that reassembly accepts.
   */
  lemma StalePadding(cfg: TxConfig, ps: seq<PacketBytes>, symbols: seq<Symbol>, recon: seq<byte>, id: uint32)
    requires Damaged(cfg, ps, symbols, recon, id) && AllArrived(cfg, ps, symbols) && cfg.k <= |symbols|
    ensures cfg.k < MAX_SYMBOLS_PER_BLOCK
    ensures Sent(Groups(cfg.k, cfg.size, symbols, recon)) == ps <==> StaleRefused(cfg.k, symbols, |Layout(cfg, ps)|)
  {
    DamagedParts(cfg, ps, symbols, recon, id);
    hide Layout, Damaged, Survivors, Groups, Sent, ClosedGroups, Genuine, Stale, Accepted, SourceGroup, AllArrived;
    AllSurvive(cfg, ps, symbols, |ps|);
    assert ps[..|ps|] == ps;
    SurvivorsIff(cfg, ps, symbols, recon, id);
    GroupKinds(cfg, ps, symbols, recon, id);
    ClosedSource(cfg.k, symbols);
    var gs := ClosedGroups(cfg.k, symbols);
    forall c | 0 <= c < |gs|
      ensures Within(gs[c], symbols) && (Stale(symbols, |Layout(cfg, ps)|, gs[c]) <==> !Genuine(symbols, gs[c]))
    {
      SourceWithin(cfg.k, symbols, gs[c]);
      if Stale(symbols, |Layout(cfg, ps)|, gs[c]) { StaleNotGenuine(cfg.k, symbols, |Layout(cfg, ps)|, gs[c]); }
    }
  }
}
