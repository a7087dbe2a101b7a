/** The packets sent from a decoded block, under any losses: those that arrived whole, exactly when no other group is accepted. */
module RxIntegrity {
  import opened Types
  import opened Fragmentation
  import opened TxSpec
  import opened TxHistory
  import opened RxGrouping
  import opened RxSurvivors
  import RxLosses

  /**
   The block decoded; each source position was either received, under the block's id, or lost. A lost
   position has packet_id 0 and otherwise whatever metadata an earlier block left there.
   */
  ghost predicate Damaged(cfg: TxConfig, ps: seq<PacketBytes>, symbols: seq<Symbol>, recon: seq<byte>, id: uint32) {
    && Packed(cfg, ps) && Scannable(cfg.k, cfg.size, symbols, recon) && id != 0
    && recon == SourceBytes(SourcePlan(cfg, ps), cfg.k)
    && (forall i :: 0 <= i < cfg.k && symbols[i].packetId != 0 ==>
          symbols[i].packetId == id && Matches(symbols[i], SourcePlan(cfg, ps)[i], cfg.k))
    && (forall q :: 0 <= q < |ps| ==> |ps[q]| <= 9200)
  }

  lemma DamagedParts(cfg: TxConfig, ps: seq<PacketBytes>, symbols: seq<Symbol>, recon: seq<byte>, id: uint32)
    requires Damaged(cfg, ps, symbols, recon, id)
    ensures Packed(cfg, ps) && Scannable(cfg.k, cfg.size, symbols, recon) && 0 < cfg.size
    ensures cfg.k <= |symbols| && cfg.k < MAX_SYMBOLS_PER_BLOCK
  {
  }

  /** Every fragment of packet q was received. */
  ghost predicate Arrived(cfg: TxConfig, ps: seq<PacketBytes>, symbols: seq<Symbol>, q: nat)
    requires Packed(cfg, ps) && q < |ps|
  {
    forall p :: StartOf(cfg, ps, q) <= p < StartOf(cfg, ps, q) + Count(|ps[q]|, cfg.size) && p < |symbols| ==>
      symbols[p].packetId != 0
  }

  /** The first q packets less those that lost a fragment. */
  ghost function Survivors(cfg: TxConfig, ps: seq<PacketBytes>, symbols: seq<Symbol>, q: nat): seq<PacketBytes>
    requires Packed(cfg, ps) && q <= |ps|
  {
    if q == 0 then []
    else Survivors(cfg, ps, symbols, q - 1) + if Arrived(cfg, ps, symbols, q - 1) then [ps[q - 1]] else []
  }

  /** t consecutive positions. */
  function Stretch(a: nat, t: nat): (g: seq<nat>)
    ensures |g| == t && forall x :: 0 <= x < t ==> g[x] == a + x
  {
    seq(t, x requires 0 <= x => a + x)
  }

  // ---------------------------------------------------------------------------
  // One position
  // ---------------------------------------------------------------------------

  /** A received position of packet q holds its fragment's metadata. */
  lemma FragmentAt(cfg: TxConfig, ps: seq<PacketBytes>, symbols: seq<Symbol>, recon: seq<byte>, id: uint32, q: nat, j: nat)
    returns (i: nat)
    requires Damaged(cfg, ps, symbols, recon, id) && q < |ps| && j < Count(|ps[q]|, cfg.size)
    ensures i == StartOf(cfg, ps, q) + j < cfg.k <= |symbols|
    ensures symbols[i].packetId != 0 ==>
      HasPayload(symbols[i], cfg.k) && symbols[i].index == j && symbols[i].total == Count(|ps[q]|, cfg.size)
      && symbols[i].packetId == id
  {
    hide Layout, StartOf, SourcePlan, SourceBytes, Count;
    i := StartOf(cfg, ps, q) + j;
    RxLosses.PlanLength(cfg, ps, q, j);
    assert symbols[i].packetId != 0 ==> Matches(symbols[i], SourcePlan(cfg, ps)[i], cfg.k);
  }

  /** A received padding position is passed over. */
  lemma PaddingAt(cfg: TxConfig, ps: seq<PacketBytes>, symbols: seq<Symbol>, recon: seq<byte>, id: uint32, i: nat)
    requires Damaged(cfg, ps, symbols, recon, id) && |Layout(cfg, ps)| <= i < cfg.k
    ensures i < |symbols| && (symbols[i].packetId != 0 ==> !HasPayload(symbols[i], cfg.k))
  {
    hide Layout, SourceBytes;
    assert SourcePlan(cfg, ps)[i].len == 0;
    assert symbols[i].packetId != 0 ==> Matches(symbols[i], SourcePlan(cfg, ps)[i], cfg.k);
  }

  /** A genuine group that ends inside packet q and is accepted is packet q, received whole. */
  lemma GenuineIsPacket(cfg: TxConfig, ps: seq<PacketBytes>, symbols: seq<Symbol>, recon: seq<byte>, id: uint32,
                        q: nat, j: nat, g: seq<nat>)
    requires Damaged(cfg, ps, symbols, recon, id) && q < |ps| && j < Count(|ps[q]|, cfg.size)
    requires g != [] && Within(g, symbols) && Genuine(symbols, g) && Accepted(symbols, g)
    requires g[|g| - 1] == StartOf(cfg, ps, q) + j
    requires forall x :: 1 <= x < |g| ==> symbols[g[x]].index != 0
    ensures j + 1 == Count(|ps[q]|, cfg.size) && Arrived(cfg, ps, symbols, q)
    ensures g == Stretch(StartOf(cfg, ps, q), Count(|ps[q]|, cfg.size))
  {
    hide Layout, StartOf, SourcePlan, SourceBytes, Count, Damaged, HasPayload;
    DamagedParts(cfg, ps, symbols, recon, id);
    var a, t, n := StartOf(cfg, ps, q), Count(|ps[q]|, cfg.size), |g|;
    assert g[n - 1] == g[0] + (n - 1);
    if n - 1 > j {
      var x := n - 1 - j;
      assert g[x] == g[0] + x == a;
      var i := FragmentAt(cfg, ps, symbols, recon, id, q, 0);
      assert false;
    }
    var i := FragmentAt(cfg, ps, symbols, recon, id, q, j - (n - 1));
    assert g[0] == i;
    assert n == symbols[g[0]].total by { AcceptedSize(symbols, g); }
    forall p | a <= p < a + t && p < |symbols| ensures symbols[p].packetId != 0 {
      assert g[p - a] == p;
    }
  }

  lemma AcceptedSize(symbols: seq<Symbol>, g: seq<nat>)
    requires Within(g, symbols) && Accepted(symbols, g)
    ensures g != [] && |g| == symbols[g[0]].total
  {
  }

  /** A reconstructed fragment. */
  lemma FragmentRebuilt(cfg: TxConfig, ps: seq<PacketBytes>, symbols: seq<Symbol>, recon: seq<byte>, id: uint32, q: nat, j: nat)
    requires Damaged(cfg, ps, symbols, recon, id) && q < |ps| && j < Count(|ps[q]|, cfg.size)
    requires StartOf(cfg, ps, q) + j < |symbols| && symbols[StartOf(cfg, ps, q) + j].packetId != 0
    ensures var i := StartOf(cfg, ps, q) + j;
      && i < cfg.k && 0 < cfg.size <= MAX_SYMBOL_DATA_SIZE && Count(|ps[q]|, cfg.size) <= UINT16_MAX
      && IsFragment(RebuiltAt(cfg.k, cfg.size, symbols, recon, i), ps[q], cfg.size)
  {
    hide Layout, StartOf, SourcePlan, SourceBytes, Count, IsFragment, Fragment;
    var i := StartOf(cfg, ps, q) + j;
    Placement(cfg, ps, q, j);
    PlanFits(cfg, ps);
    PacketSizes(cfg, ps, q);
    var plan := SourcePlan(cfg, ps);
    SourceSlice(cfg, plan, cfg.k, i);
    FragmentMeta(ps[q], cfg.size, j);
    assert Matches(symbols[i], plan[i], cfg.k);
    RebuiltIs(cfg.k, cfg.size, symbols, recon, i);
    RebuiltFrom(plan[i], symbols[i], ps[q], recon, i, cfg.size);
  }

  /** A packet received whole: its group is accepted, genuine, and comes to the packet. */
  lemma PacketGroup(cfg: TxConfig, ps: seq<PacketBytes>, symbols: seq<Symbol>, recon: seq<byte>, id: uint32, q: nat)
    requires Damaged(cfg, ps, symbols, recon, id) && q < |ps| && Arrived(cfg, ps, symbols, q)
    ensures var g := Stretch(StartOf(cfg, ps, q), Count(|ps[q]|, cfg.size));
      && SourceGroup(cfg.k, symbols, g) && Within(g, symbols) && Genuine(symbols, g) && Accepted(symbols, g)
      && BytesOf(cfg.k, cfg.size, symbols, recon, g) == ps[q]
  {
    hide Layout, StartOf, SourcePlan, SourceBytes, Count, IsFragment, HasPayload, Damaged, RebuiltAt, Reassemble, Accepted;
    DamagedParts(cfg, ps, symbols, recon, id);
    PacketSizes(cfg, ps, q);
    var a, t := StartOf(cfg, ps, q), Count(|ps[q]|, cfg.size);
    var g := Stretch(a, t);
    forall x | 0 <= x < t
      ensures g[x] < cfg.k && g[x] < |symbols| && HasPayload(symbols[g[x]], cfg.k) && symbols[g[x]].packetId == id != 0
      ensures symbols[g[x]].index == x
      ensures IsFragment(RebuiltAt(cfg.k, cfg.size, symbols, recon, g[x]), ps[q], cfg.size)
    {
      var i := FragmentAt(cfg, ps, symbols, recon, id, q, x);
      DamagedId(cfg, ps, symbols, recon, id);
      FragmentRebuilt(cfg, ps, symbols, recon, id, q, x);
    }
    var b := RebuiltAll(cfg.k, cfg.size, symbols, recon, g);
    assert Carries(b, ps[q], cfg.size);
    DamagedShort(cfg, ps, symbols, recon, id, q);
    RoundTrip(b, ps[q], cfg.size, REASSEM_BUF_SIZE);
    GroupAccepted(cfg.k, cfg.size, symbols, recon, g);
  }

  lemma DamagedId(cfg: TxConfig, ps: seq<PacketBytes>, symbols: seq<Symbol>, recon: seq<byte>, id: uint32)
    requires Damaged(cfg, ps, symbols, recon, id)
    ensures id != 0
  {
  }

  lemma DamagedShort(cfg: TxConfig, ps: seq<PacketBytes>, symbols: seq<Symbol>, recon: seq<byte>, id: uint32, q: nat)
    requires Damaged(cfg, ps, symbols, recon, id) && q < |ps|
    ensures |ps[q]| <= REASSEM_BUF_SIZE
  {
  }

  // ---------------------------------------------------------------------------
  // The loop, position by position
  // ---------------------------------------------------------------------------

  lemma TraceSource(k: nat, symbols: seq<Symbol>, i: nat)
    requires i <= k <= |symbols| && k < MAX_SYMBOLS_PER_BLOCK
    ensures AllSource(k, symbols, TraceTo(k, symbols, i).closed)
  {
    TraceTidy(k, symbols, i);
  }

  /** The genuine packets among the groups closed by position i. */
  ghost function GenuineTo(k: nat, size: nat, symbols: seq<Symbol>, recon: seq<byte>, i: nat): seq<PacketBytes>
    requires Scannable(k, size, symbols, recon) && i <= k < MAX_SYMBOLS_PER_BLOCK
  {
    TraceSource(k, symbols, i);
    BytesBy(k, size, symbols, recon, TraceTo(k, symbols, i).closed, true)
  }

  lemma BytesMore(k: nat, size: nat, symbols: seq<Symbol>, recon: seq<byte>, gs: seq<seq<nat>>, g: seq<nat>)
    requires Scannable(k, size, symbols, recon) && AllSource(k, symbols, gs) && SourceGroup(k, symbols, g)
    ensures AllSource(k, symbols, gs + [g]) && Within(g, symbols)
    ensures BytesBy(k, size, symbols, recon, gs + [g], true) == BytesBy(k, size, symbols, recon, gs, true)
      + if Accepted(symbols, g) && Genuine(symbols, g) then [BytesOf(k, size, symbols, recon, g)] else []
  {
    hide SourceGroup, Accepted, Genuine, BytesOf;
    SourceWithin(k, symbols, g);
    assert (gs + [g])[..|gs|] == gs;
  }

  /** An incomplete group is refused. */
  lemma IncompleteRefused(symbols: seq<Symbol>, g: seq<nat>)
    requires Within(g, symbols) && !FullAt(symbols, g)
    ensures !Accepted(symbols, g)
  {
    if Accepted(symbols, g) { AcceptedSize(symbols, g); }
  }

  /** Giving up what is buffered adds nothing. */
  lemma GivenSame(k: nat, size: nat, symbols: seq<Symbol>, recon: seq<byte>, tr: Trace, i: nat)
    requires Scannable(k, size, symbols, recon) && i < k && Tidy(k, symbols, tr, i)
    ensures AllSource(k, symbols, tr.closed) && AllSource(k, symbols, Given(symbols, tr, i))
    ensures BytesBy(k, size, symbols, recon, Given(symbols, tr, i), true) == BytesBy(k, size, symbols, recon, tr.closed, true)
  {
    hide SourceGroup, BytesBy, Accepted, FullAt;
    if tr.open != [] && symbols[i].index == 0 {
      BytesMore(k, size, symbols, recon, tr.closed, tr.open);
      IncompleteRefused(symbols, tr.open);
    }
  }

  /** Position i adds the group it ends, if that is accepted and genuine. */
  lemma StepGenuine(k: nat, size: nat, symbols: seq<Symbol>, recon: seq<byte>, i: nat)
    requires Scannable(k, size, symbols, recon) && i < k < MAX_SYMBOLS_PER_BLOCK && HasPayload(symbols[i], k)
    ensures var g := Ended(symbols, TraceTo(k, symbols, i), i);
      && SourceGroup(k, symbols, g)
      && (forall x :: 1 <= x < |g| ==> symbols[g[x]].index != 0)
      && GenuineTo(k, size, symbols, recon, i + 1) == GenuineTo(k, size, symbols, recon, i)
           + if Accepted(symbols, g) && Genuine(symbols, g) then [BytesOf(k, size, symbols, recon, g)] else []
  {
    var tr := TraceTo(k, symbols, i);
    TraceTidy(k, symbols, i);
    EndedTidy(k, symbols, tr, i);
    TidyOpen(k, symbols, tr, i);
    JoinIs(symbols, tr, i);
    assert TraceTo(k, symbols, i + 1) == JoinAt(symbols, tr, i);
    hide Tidy, SourceGroup, BytesBy, Accepted, Genuine, FullAt, JoinAt, TraceTo, Ended, Given, HasPayload, BytesOf;
    GivenSame(k, size, symbols, recon, tr, i);
    var g := Ended(symbols, tr, i);
    BytesMore(k, size, symbols, recon, Given(symbols, tr, i), g);
    if !FullAt(symbols, g) { IncompleteRefused(symbols, g); }
  }

  lemma TidyOpen(k: nat, symbols: seq<Symbol>, tr: Trace, i: nat)
    requires k <= |symbols| && Tidy(k, symbols, tr, i) && i < MAX_SYMBOLS_PER_BLOCK
    ensures Within(tr.open, symbols) && |tr.open| < MAX_SYMBOLS_PER_BLOCK && !FullAt(symbols, tr.open)
  {
  }

  lemma SkipGenuine(k: nat, size: nat, symbols: seq<Symbol>, recon: seq<byte>, i: nat)
    requires Scannable(k, size, symbols, recon) && i < k < MAX_SYMBOLS_PER_BLOCK && !HasPayload(symbols[i], k)
    ensures GenuineTo(k, size, symbols, recon, i + 1) == GenuineTo(k, size, symbols, recon, i)
  {
    hide BytesBy, JoinAt;
  }

  /** While packet q has arrived so far, its positions end one group. */
  lemma {:induction false} Tracking(cfg: TxConfig, ps: seq<PacketBytes>, symbols: seq<Symbol>, recon: seq<byte>, id: uint32,
                                    q: nat, j: nat)
    requires Damaged(cfg, ps, symbols, recon, id) && q < |ps| && j < Count(|ps[q]|, cfg.size)
    requires Arrived(cfg, ps, symbols, q)
    ensures var a := StartOf(cfg, ps, q);
      && a + j < cfg.k <= |symbols|
      && Ended(symbols, TraceTo(cfg.k, symbols, a + j), a + j) == Stretch(a, j + 1)
  {
    hide Layout, StartOf, SourcePlan, SourceBytes, Count, Damaged, HasPayload, JoinAt, Given;
    DamagedParts(cfg, ps, symbols, recon, id);
    var a := StartOf(cfg, ps, q);
    var i := FragmentAt(cfg, ps, symbols, recon, id, q, j);
    if j == 0 {
      assert Ended(symbols, TraceTo(cfg.k, symbols, a), a) == Stretch(a, 1);
    } else {
      Tracking(cfg, ps, symbols, recon, id, q, j - 1);
      var p := FragmentAt(cfg, ps, symbols, recon, id, q, j - 1);
      var h := FragmentAt(cfg, ps, symbols, recon, id, q, 0);
      TraceTidy(cfg.k, symbols, p);
      TidyOpen(cfg.k, symbols, TraceTo(cfg.k, symbols, p), p);
      JoinIs(symbols, TraceTo(cfg.k, symbols, p), p);
      assert Stretch(a, j)[0] == a;
      assert TraceTo(cfg.k, symbols, i).open == Stretch(a, j);
      assert Stretch(a, j) + [i] == Stretch(a, j + 1);
    }
  }

  /** Fragment j of packet q: the packet is added at its last fragment, if it arrived. */
  lemma FragmentStep(cfg: TxConfig, ps: seq<PacketBytes>, symbols: seq<Symbol>, recon: seq<byte>, id: uint32, q: nat, j: nat)
    requires Damaged(cfg, ps, symbols, recon, id) && q < |ps| && j < Count(|ps[q]|, cfg.size)
    ensures var i := StartOf(cfg, ps, q) + j;
      && i < cfg.k < MAX_SYMBOLS_PER_BLOCK
      && GenuineTo(cfg.k, cfg.size, symbols, recon, i + 1) == GenuineTo(cfg.k, cfg.size, symbols, recon, i)
           + if j + 1 == Count(|ps[q]|, cfg.size) && Arrived(cfg, ps, symbols, q) then [ps[q]] else []
  {
    hide Layout, StartOf, SourcePlan, SourceBytes, Count, Damaged, HasPayload, JoinAt, Given, Ended, GenuineTo, Accepted,
      Genuine, BytesOf, TraceTo;
    DamagedParts(cfg, ps, symbols, recon, id);
    var a, t := StartOf(cfg, ps, q), Count(|ps[q]|, cfg.size);
    var i := FragmentAt(cfg, ps, symbols, recon, id, q, j);
    if HasPayload(symbols[i], cfg.k) {
      StepGenuine(cfg.k, cfg.size, symbols, recon, i);
      var g := Ended(symbols, TraceTo(cfg.k, symbols, i), i);
      if Accepted(symbols, g) && Genuine(symbols, g) {
        GenuineIsPacket(cfg, ps, symbols, recon, id, q, j, g);
      }
      if j + 1 == t && Arrived(cfg, ps, symbols, q) {
        Tracking(cfg, ps, symbols, recon, id, q, j);
        PacketGroup(cfg, ps, symbols, recon, id, q);
      }
    } else {
      SkipGenuine(cfg.k, cfg.size, symbols, recon, i);
      assert !Arrived(cfg, ps, symbols, q);
    }
  }

  lemma {:induction false} PacketStep(cfg: TxConfig, ps: seq<PacketBytes>, symbols: seq<Symbol>, recon: seq<byte>, id: uint32,
                                      q: nat, j: nat)
    requires Damaged(cfg, ps, symbols, recon, id) && q < |ps| && j <= Count(|ps[q]|, cfg.size)
    requires cfg.k < MAX_SYMBOLS_PER_BLOCK && StartOf(cfg, ps, q) + j <= cfg.k
    ensures GenuineTo(cfg.k, cfg.size, symbols, recon, StartOf(cfg, ps, q) + j)
         == GenuineTo(cfg.k, cfg.size, symbols, recon, StartOf(cfg, ps, q))
           + if j == Count(|ps[q]|, cfg.size) && Arrived(cfg, ps, symbols, q) then [ps[q]] else []
  {
    hide Layout, StartOf, Count, Damaged, GenuineTo, Arrived;
    DamagedParts(cfg, ps, symbols, recon, id);
    PacketSizes(cfg, ps, q);
    if j > 0 {
      PacketStep(cfg, ps, symbols, recon, id, q, j - 1);
      FragmentStep(cfg, ps, symbols, recon, id, q, j - 1);
    }
  }

  lemma {:induction false} PacketSteps(cfg: TxConfig, ps: seq<PacketBytes>, symbols: seq<Symbol>, recon: seq<byte>, id: uint32,
                                       q: nat)
    requires Damaged(cfg, ps, symbols, recon, id) && q <= |ps|
    ensures StartOf(cfg, ps, q) <= cfg.k < MAX_SYMBOLS_PER_BLOCK
    ensures GenuineTo(cfg.k, cfg.size, symbols, recon, StartOf(cfg, ps, q)) == Survivors(cfg, ps, symbols, q)
  {
    hide Count, Damaged, Arrived, Layout;
    DamagedParts(cfg, ps, symbols, recon, id);
    if q == 0 {
      NothingScanned(cfg, ps, symbols, recon);
    } else {
      hide GenuineTo, StartOf;
      NextStart(cfg, ps, q - 1);
      RxLosses.LayoutBound(cfg, ps);
      PacketSteps(cfg, ps, symbols, recon, id, q - 1);
      PacketStep(cfg, ps, symbols, recon, id, q - 1, Count(|ps[q - 1]|, cfg.size));
    }
  }

  /** No genuine group ends at a padding position. */
  lemma PaddingStep(cfg: TxConfig, ps: seq<PacketBytes>, symbols: seq<Symbol>, recon: seq<byte>, id: uint32, i: nat)
    requires Damaged(cfg, ps, symbols, recon, id) && |Layout(cfg, ps)| <= i < cfg.k
    ensures cfg.k < MAX_SYMBOLS_PER_BLOCK
    ensures GenuineTo(cfg.k, cfg.size, symbols, recon, i + 1) == GenuineTo(cfg.k, cfg.size, symbols, recon, i)
  {
    hide Layout, SourcePlan, SourceBytes, Damaged, HasPayload, JoinAt, Given, GenuineTo, Accepted, BytesOf, TraceTo;
    DamagedParts(cfg, ps, symbols, recon, id);
    PaddingAt(cfg, ps, symbols, recon, id, i);
    if HasPayload(symbols[i], cfg.k) {
      StepGenuine(cfg.k, cfg.size, symbols, recon, i);
      var g := Ended(symbols, TraceTo(cfg.k, symbols, i), i);
      assert g[|g| - 1] == i;
    } else {
      SkipGenuine(cfg.k, cfg.size, symbols, recon, i);
    }
  }

  lemma {:induction false} PaddingSteps(cfg: TxConfig, ps: seq<PacketBytes>, symbols: seq<Symbol>, recon: seq<byte>, id: uint32,
                                        i: nat)
    requires Damaged(cfg, ps, symbols, recon, id) && |Layout(cfg, ps)| <= i <= cfg.k
    ensures cfg.k < MAX_SYMBOLS_PER_BLOCK
    ensures GenuineTo(cfg.k, cfg.size, symbols, recon, i) == Survivors(cfg, ps, symbols, |ps|)
  {
    DamagedParts(cfg, ps, symbols, recon, id);
    hide Layout, Damaged, GenuineTo, Survivors, StartOf;
    if i == |Layout(cfg, ps)| {
      EndsAtLayout(cfg, ps);
      PacketSteps(cfg, ps, symbols, recon, id, |ps|);
    } else {
      PaddingSteps(cfg, ps, symbols, recon, id, i - 1);
      PaddingStep(cfg, ps, symbols, recon, id, i - 1);
    }
  }

  // ---------------------------------------------------------------------------
  // The theorem
  // ---------------------------------------------------------------------------

  lemma ClosedSource(k: nat, symbols: seq<Symbol>)
    requires k <= |symbols| && k < MAX_SYMBOLS_PER_BLOCK
    ensures AllSource(k, symbols, ClosedGroups(k, symbols))
  {
    TraceTidy(k, symbols, k);
    hide SourceGroup;
  }

  /** The group left over at the end is refused. */
  lemma EndGenuine(k: nat, size: nat, symbols: seq<Symbol>, recon: seq<byte>)
    requires Scannable(k, size, symbols, recon) && k < MAX_SYMBOLS_PER_BLOCK
    ensures AllSource(k, symbols, ClosedGroups(k, symbols))
    ensures BytesBy(k, size, symbols, recon, ClosedGroups(k, symbols), true) == GenuineTo(k, size, symbols, recon, k)
  {
    ClosedSource(k, symbols);
    TraceTidy(k, symbols, k);
    var tr := TraceTo(k, symbols, k);
    TidyOpen(k, symbols, tr, k);
    if tr.open != [] {
      hide SourceGroup, BytesBy, Accepted, FullAt, TraceTo;
      BytesMore(k, size, symbols, recon, tr.closed, tr.open);
      IncompleteRefused(symbols, tr.open);
    }
  }

  /** a is what is left of b when some of its elements are taken out. */
  ghost predicate Subsequence(a: seq<PacketBytes>, b: seq<PacketBytes>)
    decreases |b|
  {
    a == [] ||
    (b != [] &&
     (Subsequence(a, b[..|b| - 1])
      || (a[|a| - 1] == b[|b| - 1] && Subsequence(a[..|a| - 1], b[..|b| - 1]))))
  }

  lemma SubsequenceMore(a: seq<PacketBytes>, b: seq<PacketBytes>, p: PacketBytes)
    requires Subsequence(a, b)
    ensures Subsequence(a, b + [p]) && Subsequence(a + [p], b + [p])
  {
    assert (b + [p])[..|b|] == b && (a + [p])[..|a|] == a;
  }

  /** What is genuine is sent, in order. */
  lemma {:induction false} GenuineSent(k: nat, size: nat, symbols: seq<Symbol>, recon: seq<byte>, gs: seq<seq<nat>>)
    requires Scannable(k, size, symbols, recon) && AllSource(k, symbols, gs)
    ensures Subsequence(BytesBy(k, size, symbols, recon, gs, true), BytesBy(k, size, symbols, recon, gs, false))
  {
    hide Accepted, SourceGroup, Genuine, BytesOf;
    if gs == [] {
      assert BytesBy(k, size, symbols, recon, gs, true) == [];
    } else {
      var before, g := gs[..|gs| - 1], gs[|gs| - 1];
      GenuineSent(k, size, symbols, recon, before);
      SourceWithin(k, symbols, g);
      hide Subsequence;
      var a, b := BytesBy(k, size, symbols, recon, before, true), BytesBy(k, size, symbols, recon, before, false);
      assert a + [] == a && b + [] == b;
      if Accepted(symbols, g) {
        SubsequenceMore(a, b, BytesOf(k, size, symbols, recon, g));
      }
    }
  }

  /** No group of stored metadata is accepted but those made of one stretch of received positions. */
  ghost predicate Unmixed(k: nat, symbols: seq<Symbol>)
    requires k <= |symbols| && k < MAX_SYMBOLS_PER_BLOCK
  {
    ClosedSource(k, symbols);
    NoneSpurious(k, symbols, ClosedGroups(k, symbols))
  }

  /**
   Whatever was lost and whatever lost positions still hold: every packet whose fragments were all received is
   sent, in order; and nothing else is sent exactly when the stored metadata makes no other group that
   reassembly accepts. Otherwise more packets are sent than arrived.
   */
  lemma SurvivorsIff(cfg: TxConfig, ps: seq<PacketBytes>, symbols: seq<Symbol>, recon: seq<byte>, id: uint32)
    requires Damaged(cfg, ps, symbols, recon, id)
    ensures cfg.k <= |symbols| && cfg.k < MAX_SYMBOLS_PER_BLOCK
    ensures Subsequence(Survivors(cfg, ps, symbols, |ps|), Sent(Groups(cfg.k, cfg.size, symbols, recon)))
    ensures Sent(Groups(cfg.k, cfg.size, symbols, recon)) == Survivors(cfg, ps, symbols, |ps|) <==> Unmixed(cfg.k, symbols)
    ensures !Unmixed(cfg.k, symbols) ==>
      |Sent(Groups(cfg.k, cfg.size, symbols, recon))| > |Survivors(cfg, ps, symbols, |ps|)|
  {
    DamagedParts(cfg, ps, symbols, recon, id);
    EndsAtLayout(cfg, ps);
    hide Layout, Damaged, GenuineTo, Survivors, ClosedGroups, BytesBy, Results, Groups, NoneSpurious, Sent, Subsequence;
    PaddingSteps(cfg, ps, symbols, recon, id, cfg.k);
    var gs := ClosedGroups(cfg.k, symbols);
    EndGenuine(cfg.k, cfg.size, symbols, recon);
    GroupsMatch(cfg.k, cfg.size, symbols, recon);
    SentIs(cfg.k, cfg.size, symbols, recon, gs);
    GenuineOnly(cfg.k, cfg.size, symbols, recon, gs);
    GenuineSent(cfg.k, cfg.size, symbols, recon, gs);
  }
}
