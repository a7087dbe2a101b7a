/** Where lost positions hold nothing: exactly which losses make a decoded block yield more than the packets received whole. */
module RxJoined {
  import opened Types
  import opened Fragmentation
  import Acceptance
  import opened TxSpec
  import opened TxHistory
  import opened RxGrouping
  import opened RxSurvivors
  import opened RxIntegrity
  import opened RxConditions
  import opened RxMixing

  // ---------------------------------------------------------------------------
  // Nothing joined
  // ---------------------------------------------------------------------------

  /** No packets are joined. */
  ghost predicate NoneJoined(cfg: TxConfig, ps: seq<PacketBytes>, symbols: seq<Symbol>)
    requires Packed(cfg, ps)
  {
    forall s, q {:trigger Joined(cfg, ps, symbols, s, q)} :: 0 <= s < q < |ps| ==> !Joined(cfg, ps, symbols, s, q)
  }

  lemma NothingHeld(cfg: TxConfig, ps: seq<PacketBytes>, symbols: seq<Symbol>, recon: seq<byte>)
    requires Packed(cfg, ps) && Scannable(cfg.k, cfg.size, symbols, recon) && cfg.k <= |symbols|
    ensures StartOf(cfg, ps, 0) <= cfg.k < MAX_SYMBOLS_PER_BLOCK && Holds(cfg, ps, symbols, 0, 0)
    ensures UnmixedTo(cfg.k, symbols, StartOf(cfg, ps, 0))
  {
    NothingScanned(cfg, ps, symbols, recon);
    GatherNone(cfg, ps, symbols, 0);
  }

  /** A group that is complete after packet q, which lost its first fragment, is joined. */
  lemma JoinedIs(cfg: TxConfig, ps: seq<PacketBytes>, symbols: seq<Symbol>, q: nat, s: nat)
    requires Packed(cfg, ps) && s < q < |ps| && StartOf(cfg, ps, q) <= cfg.k <= |symbols|
    requires Holds(cfg, ps, symbols, q, s) && !Head(cfg, ps, symbols, q)
    requires |Gather(cfg, ps, symbols, s, q + 1)| >= Count(|ps[s]|, cfg.size)
    ensures Joined(cfg, ps, symbols, s, q)
  {
    hide Packed, StartOf, Count, Gather, TraceTo, StartsGroup, Head;
  }

  lemma {:induction false} QuietTo(cfg: TxConfig, ps: seq<PacketBytes>, symbols: seq<Symbol>, recon: seq<byte>, id: uint32, q: nat)
    returns (s: nat)
    requires Damaged(cfg, ps, symbols, recon, id) && q <= |ps| && cfg.k <= |symbols| && BlankLost(cfg.k, symbols)
    requires NoneJoined(cfg, ps, symbols)
    ensures StartOf(cfg, ps, q) <= cfg.k < MAX_SYMBOLS_PER_BLOCK && UnmixedTo(cfg.k, symbols, StartOf(cfg, ps, q))
    ensures s <= q && Holds(cfg, ps, symbols, q, s)
  {
    hide Damaged, StartOf, Count, BlankLost, UnmixedTo, Holds, Gather, Whole, Head, Joined, Recv;
    DamagedParts(cfg, ps, symbols, recon, id);
    if q == 0 {
      NothingHeld(cfg, ps, symbols, recon);
      s := 0;
    } else {
      s := QuietTo(cfg, ps, symbols, recon, id, q - 1);
      if Whole(cfg, ps, symbols, q - 1) {
        AfterWhole(cfg, ps, symbols, recon, id, q - 1);
        s := q;
      } else if Head(cfg, ps, symbols, q - 1) {
        AfterHead(cfg, ps, symbols, recon, id, q - 1);
        s := q - 1;
      } else if s == q - 1 {
        s := AfterFresh(cfg, ps, symbols, recon, id, q - 1);
      } else {
        if |Gather(cfg, ps, symbols, s, q)| >= Count(|ps[s]|, cfg.size) { JoinedIs(cfg, ps, symbols, q - 1, s); }
        AfterLate(cfg, ps, symbols, recon, id, q - 1, s);
      }
    }
  }

  /** Without joined packets exactly the packets received whole are sent, in order. */
  lemma NoneJoinedSuffices(cfg: TxConfig, ps: seq<PacketBytes>, symbols: seq<Symbol>, recon: seq<byte>, id: uint32)
    requires Damaged(cfg, ps, symbols, recon, id) && cfg.k <= |symbols| && BlankLost(cfg.k, symbols)
    requires NoneJoined(cfg, ps, symbols)
    ensures Sent(Groups(cfg.k, cfg.size, symbols, recon)) == Survivors(cfg, ps, symbols, |ps|)
  {
    DamagedParts(cfg, ps, symbols, recon, id);
    EndsAtLayout(cfg, ps);
    hide Layout, Damaged, UnmixedTo, Unmixed, BlankLost, Groups, Survivors, Sent, Holds, Joined, StartOf;
    var s := QuietTo(cfg, ps, symbols, recon, id, |ps|);
    forall p | |Layout(cfg, ps)| <= p < cfg.k ensures !HasPayload(symbols[p], cfg.k) {
      PaddingAt(cfg, ps, symbols, recon, id, p);
      if symbols[p].packetId == 0 { BlankSkipped(cfg.k, symbols, p); }
    }
    SkipAll(cfg.k, symbols, |Layout(cfg, ps)|, cfg.k);
    EndUnmixed(cfg.k, symbols);
    SurvivorsIff(cfg, ps, symbols, recon, id);
  }

  // ---------------------------------------------------------------------------
  // What a joined group holds
  // ---------------------------------------------------------------------------

  /** Nothing is buffered before a packet that comes right after a whole one. */
  lemma {:induction false} FreshHolds(cfg: TxConfig, ps: seq<PacketBytes>, symbols: seq<Symbol>, recon: seq<byte>, id: uint32, q: nat)
    requires Damaged(cfg, ps, symbols, recon, id) && q <= |ps| && cfg.k <= |symbols| && BlankLost(cfg.k, symbols)
    requires StartsAfresh(cfg, ps, symbols, q)
    ensures StartOf(cfg, ps, q) <= cfg.k && Holds(cfg, ps, symbols, q, q)
  {
    hide Damaged, StartOf, Count, BlankLost, UnmixedTo, Holds, Gather, Whole, Head, Recv;
    DamagedParts(cfg, ps, symbols, recon, id);
    if q == 0 {
      NothingHeld(cfg, ps, symbols, recon);
    } else if Whole(cfg, ps, symbols, q - 1) {
      AfterWhole(cfg, ps, symbols, recon, id, q - 1);
    } else {
      FreshHolds(cfg, ps, symbols, recon, id, q - 1);
      NoHead(cfg, ps, symbols, recon, id, q - 1);
      var s := AfterFresh(cfg, ps, symbols, recon, id, q - 1);
    }
  }

  lemma NoHead(cfg: TxConfig, ps: seq<PacketBytes>, symbols: seq<Symbol>, recon: seq<byte>, id: uint32, q: nat)
    requires Damaged(cfg, ps, symbols, recon, id) && q < |ps| && cfg.k <= |symbols| && BlankLost(cfg.k, symbols)
    requires Recv(cfg, ps, symbols, q) == []
    ensures !Head(cfg, ps, symbols, q)
  {
    hide Damaged, StartOf, Count, BlankLost, Received, Layout, Recv;
    DamagedParts(cfg, ps, symbols, recon, id);
    PacketFragments(cfg, ps, symbols, recon, id, q);
    if Head(cfg, ps, symbols, q) { HeadReceived(symbols, StartOf(cfg, ps, q), Count(|ps[q]|, cfg.size)); }
  }

  /** A packet that starts a group is what is buffered after it. */
  lemma StartHolds(cfg: TxConfig, ps: seq<PacketBytes>, symbols: seq<Symbol>, recon: seq<byte>, id: uint32, s: nat)
    requires Damaged(cfg, ps, symbols, recon, id) && s < |ps| && cfg.k <= |symbols| && BlankLost(cfg.k, symbols)
    requires StartsGroup(cfg, ps, symbols, s)
    ensures StartOf(cfg, ps, s + 1) <= cfg.k && Holds(cfg, ps, symbols, s + 1, s)
  {
    hide Damaged, StartOf, Count, BlankLost, UnmixedTo, Holds, Gather, Whole, Head, Recv, StartsAfresh;
    DamagedParts(cfg, ps, symbols, recon, id);
    if Head(cfg, ps, symbols, s) {
      AfterHead(cfg, ps, symbols, recon, id, s);
    } else {
      FreshHolds(cfg, ps, symbols, recon, id, s);
      var s' := AfterFresh(cfg, ps, symbols, recon, id, s);
    }
  }

  lemma {:induction false} GroupHolds(cfg: TxConfig, ps: seq<PacketBytes>, symbols: seq<Symbol>, recon: seq<byte>, id: uint32,
                                      s: nat, q: nat)
    requires Damaged(cfg, ps, symbols, recon, id) && s < q <= |ps| && cfg.k <= |symbols| && BlankLost(cfg.k, symbols)
    requires StartsGroup(cfg, ps, symbols, s) && Headless(cfg, ps, symbols, s, q - 1)
    requires |Gather(cfg, ps, symbols, s, q)| < Count(|ps[s]|, cfg.size)
    ensures StartOf(cfg, ps, q) <= cfg.k && Holds(cfg, ps, symbols, q, s)
  {
    hide Damaged, StartOf, Count, BlankLost, UnmixedTo, Holds, Gather, StartsGroup, Head, Recv;
    DamagedParts(cfg, ps, symbols, recon, id);
    if q == s + 1 {
      StartHolds(cfg, ps, symbols, recon, id, s);
    } else {
      GatherStep(cfg, ps, symbols, s, q - 1);
      GroupHolds(cfg, ps, symbols, recon, id, s, q - 1);
      AfterLate(cfg, ps, symbols, recon, id, q - 1, s);
    }
  }

  /** The first packet with which the group is complete. */
  lemma {:induction false} FirstJoined(cfg: TxConfig, ps: seq<PacketBytes>, symbols: seq<Symbol>, recon: seq<byte>, id: uint32,
                                       s: nat, q: nat)
    returns (x: nat)
    requires Damaged(cfg, ps, symbols, recon, id) && s < q < |ps| && cfg.k <= |symbols| && BlankLost(cfg.k, symbols)
    requires Joined(cfg, ps, symbols, s, q)
    ensures s < x <= q && Joined(cfg, ps, symbols, s, x)
    ensures StartOf(cfg, ps, x) <= cfg.k && Holds(cfg, ps, symbols, x, s)
  {
    hide Damaged, StartOf, Count, BlankLost, Holds, Gather, StartsGroup, Head, Recv, Layout;
    DamagedParts(cfg, ps, symbols, recon, id);
    if |Gather(cfg, ps, symbols, s, q)| < Count(|ps[s]|, cfg.size) {
      GroupHolds(cfg, ps, symbols, recon, id, s, q);
      x := q;
    } else {
      if q == s + 1 { NotWhole(cfg, ps, symbols, recon, id, s); }
      x := FirstJoined(cfg, ps, symbols, recon, id, s, q - 1);
    }
  }

  /** One packet alone does not complete the group it starts. */
  lemma NotWhole(cfg: TxConfig, ps: seq<PacketBytes>, symbols: seq<Symbol>, recon: seq<byte>, id: uint32, s: nat)
    requires Damaged(cfg, ps, symbols, recon, id) && s < |ps| && cfg.k <= |symbols| && BlankLost(cfg.k, symbols)
    requires StartsGroup(cfg, ps, symbols, s)
    ensures |Gather(cfg, ps, symbols, s, s + 1)| < Count(|ps[s]|, cfg.size)
  {
    hide Damaged, StartOf, Count, BlankLost, Gather, Head, Recv, StartsAfresh;
    DamagedParts(cfg, ps, symbols, recon, id);
    GatherNone(cfg, ps, symbols, s);
    GatherStep(cfg, ps, symbols, s, s);
    RecvFew(cfg, ps, symbols, recon, id, s);
  }

  // ---------------------------------------------------------------------------
  // A joined group is accepted
  // ---------------------------------------------------------------------------

  /** Where the w-th received fragment is. */
  lemma {:induction false} Nth(symbols: seq<Symbol>, a: nat, t: nat, w: nat) returns (j: nat)
    requires a + t <= |symbols| && 0 < w <= |Received(symbols, a, t)|
    ensures j < t && symbols[a + j].packetId != 0 && |Received(symbols, a, j + 1)| == w == |Received(symbols, a, j)| + 1
  {
    if |Received(symbols, a, t - 1)| >= w {
      j := Nth(symbols, a, t - 1, w);
    } else {
      j := t - 1;
    }
  }

  /** The position that completes a joined group. */
  lemma JoinedEnds(cfg: TxConfig, ps: seq<PacketBytes>, symbols: seq<Symbol>, recon: seq<byte>, id: uint32, s: nat, q: nat)
    returns (j: nat)
    requires Damaged(cfg, ps, symbols, recon, id) && s < q < |ps| && cfg.k <= |symbols| && BlankLost(cfg.k, symbols)
    requires Joined(cfg, ps, symbols, s, q) && StartOf(cfg, ps, q) <= cfg.k && Holds(cfg, ps, symbols, q, s)
    ensures var i := StartOf(cfg, ps, q) + j;
      && i < cfg.k < MAX_SYMBOLS_PER_BLOCK && j < Count(|ps[q]|, cfg.size) && HasPayload(symbols[i], cfg.k)
      && Ended(symbols, TraceTo(cfg.k, symbols, i), i)
         == Gather(cfg, ps, symbols, s, q) + Received(symbols, StartOf(cfg, ps, q), j + 1)
      && |Gather(cfg, ps, symbols, s, q)| + |Received(symbols, StartOf(cfg, ps, q), j + 1)| == Count(|ps[s]|, cfg.size)
    ensures Recv(cfg, ps, symbols, s) != [] && symbols[StartOf(cfg, ps, q)].packetId == 0
  {
    hide Damaged, StartOf, Count, BlankLost, Gather, Recv, Layout, Received, TraceTo, Base, Limit, Ended;
    DamagedParts(cfg, ps, symbols, recon, id);
    assert !Head(cfg, ps, symbols, q);
    PacketFragments(cfg, ps, symbols, recon, id, q);
    HeldBase(cfg, ps, symbols, recon, id, q, s);
    GatherStep(cfg, ps, symbols, s, q);
    var a, t := StartOf(cfg, ps, q), Count(|ps[q]|, cfg.size);
    j := Nth(symbols, a, t, Count(|ps[s]|, cfg.size) - |Gather(cfg, ps, symbols, s, q)|);
    assert FragmentOf(cfg.k, symbols[a + j], j, t, id);
    Appended(cfg.k, symbols, a, t, id, j);
    EndedIs(cfg.k, symbols, a, t, id, j);
  }

  /** A received fragment ends within the packet buffer. */
  predicate Fits(size: nat, symbols: seq<Symbol>, p: nat) {
    && p < |symbols| && symbols[p].packetId != 0 && symbols[p].len > 0 && symbols[p].index < symbols[p].total
    && Offset(symbols[p].index, size) + symbols[p].len <= REASSEM_BUF_SIZE
  }

  ghost predicate AllFits(size: nat, symbols: seq<Symbol>, g: seq<nat>) {
    forall x :: 0 <= x < |g| ==> Fits(size, symbols, g[x])
  }

  lemma FragmentLength(cfg: TxConfig, ps: seq<PacketBytes>, symbols: seq<Symbol>, recon: seq<byte>, id: uint32, q: nat, j: nat)
    requires Damaged(cfg, ps, symbols, recon, id) && q < |ps| && j < Count(|ps[q]|, cfg.size)
    requires StartOf(cfg, ps, q) + j < |symbols| && symbols[StartOf(cfg, ps, q) + j].packetId != 0
    ensures symbols[StartOf(cfg, ps, q) + j].len == Share(|ps[q]|, cfg.size, j)
  {
    hide Layout, StartOf, SourcePlan, SourceBytes, Count, Share;
    Placement(cfg, ps, q, j);
    assert Matches(symbols[StartOf(cfg, ps, q) + j], SourcePlan(cfg, ps)[StartOf(cfg, ps, q) + j], cfg.k);
  }

  lemma FragmentFits(cfg: TxConfig, ps: seq<PacketBytes>, symbols: seq<Symbol>, recon: seq<byte>, id: uint32, q: nat, j: nat)
    requires Damaged(cfg, ps, symbols, recon, id) && q < |ps| && j < Count(|ps[q]|, cfg.size)
    requires StartOf(cfg, ps, q) + j < |symbols| && symbols[StartOf(cfg, ps, q) + j].packetId != 0
    ensures Fits(cfg.size, symbols, StartOf(cfg, ps, q) + j)
    ensures symbols[StartOf(cfg, ps, q) + j].index == j
    ensures j + 1 < Count(|ps[q]|, cfg.size) ==> symbols[StartOf(cfg, ps, q) + j].len == cfg.size
  {
    hide Layout, StartOf, SourcePlan, SourceBytes, Count, Damaged, Share, HasPayload;
    DamagedParts(cfg, ps, symbols, recon, id);
    DamagedShort(cfg, ps, symbols, recon, id, q);
    FragmentLength(cfg, ps, symbols, recon, id, q, j);
    CountBounds(|ps[q]|, cfg.size, j);
    var i := FragmentAt(cfg, ps, symbols, recon, id, q, j);
    assert symbols[i].len > 0 && Offset(j, cfg.size) == j * cfg.size;
    assert j + 1 < Count(|ps[q]|, cfg.size) ==> (j + 1) * cfg.size == j * cfg.size + cfg.size;
  }

  lemma {:induction false} ReceivedFits(cfg: TxConfig, ps: seq<PacketBytes>, symbols: seq<Symbol>, recon: seq<byte>, id: uint32,
                                        q: nat, j: nat)
    requires Damaged(cfg, ps, symbols, recon, id) && q < |ps| && j <= Count(|ps[q]|, cfg.size)
    requires StartOf(cfg, ps, q) + j <= |symbols|
    ensures AllFits(cfg.size, symbols, Received(symbols, StartOf(cfg, ps, q), j))
  {
    hide Damaged, StartOf, Count, Fits;
    DamagedParts(cfg, ps, symbols, recon, id);
    if j > 0 {
      ReceivedFits(cfg, ps, symbols, recon, id, q, j - 1);
      if symbols[StartOf(cfg, ps, q) + (j - 1)].packetId != 0 { FragmentFits(cfg, ps, symbols, recon, id, q, j - 1); }
    }
  }

  lemma {:induction false} GatherFits(cfg: TxConfig, ps: seq<PacketBytes>, symbols: seq<Symbol>, recon: seq<byte>, id: uint32,
                                      s: nat, q: nat)
    requires Damaged(cfg, ps, symbols, recon, id) && q <= |ps| && cfg.k <= |symbols| && BlankLost(cfg.k, symbols)
    ensures AllFits(cfg.size, symbols, Gather(cfg, ps, symbols, s, q))
  {
    hide Damaged, StartOf, Count, Fits, Recv, BlankLost, Layout, Received;
    DamagedParts(cfg, ps, symbols, recon, id);
    if s < q {
      GatherFits(cfg, ps, symbols, recon, id, s, q - 1);
      PacketFragments(cfg, ps, symbols, recon, id, q - 1);
      ReceivedFits(cfg, ps, symbols, recon, id, q - 1, Count(|ps[q - 1]|, cfg.size));
    }
  }

  /** A set that starts with a fragment other than its packet's last is accepted whatever packets the others are from. */
  lemma LedAccepted(size: nat, symbols: seq<Symbol>, g: seq<nat>)
    requires AllFits(size, symbols, g) && g != [] && |g| == symbols[g[0]].total
    requires symbols[g[0]].index + 1 < symbols[g[0]].total && symbols[g[0]].len == size
    ensures Within(g, symbols) && Accepted(symbols, g)
  {
    var m := Metas(symbols, g);
    forall x | 0 <= x < |m| ensures Offset(m[x].index, size) + m[x].len <= REASSEM_BUF_SIZE {
      assert Fits(size, symbols, g[x]);
    }
    assert Fits(size, symbols, g[0]);
    assert Acceptance.StrideAt(m, 0, REASSEM_BUF_SIZE);
  }

  lemma {:induction false} LastAlone(symbols: seq<Symbol>, a: nat, t: nat)
    requires 0 < t && a + t <= |symbols| && Received(symbols, a, t) != []
    ensures a <= Received(symbols, a, t)[0] < a + t
    ensures Received(symbols, a, t)[0] == a + t - 1 ==> Received(symbols, a, t) == [a + t - 1]
  {
    var before := Received(symbols, a, t - 1);
    if before != [] { assert Received(symbols, a, t)[0] == before[0]; }
  }

  /** The first received fragment of a packet. */
  lemma FirstOf(cfg: TxConfig, ps: seq<PacketBytes>, symbols: seq<Symbol>, recon: seq<byte>, id: uint32, s: nat)
    requires Damaged(cfg, ps, symbols, recon, id) && s < |ps| && cfg.k <= |symbols| && BlankLost(cfg.k, symbols)
    requires Recv(cfg, ps, symbols, s) != []
    ensures var p := Recv(cfg, ps, symbols, s)[0];
      && p < StartOf(cfg, ps, s + 1) && Fits(cfg.size, symbols, p) && symbols[p].total == Count(|ps[s]|, cfg.size)
      && (!Stub(cfg, ps, symbols, s) ==> symbols[p].index + 1 < symbols[p].total && symbols[p].len == cfg.size)
  {
    hide Damaged, StartOf, Count, Layout, Received, Recv, BlankLost, Fits;
    DamagedParts(cfg, ps, symbols, recon, id);
    PacketFragments(cfg, ps, symbols, recon, id, s);
    RecvTotal(cfg, ps, symbols, recon, id, s);
    var a, t := StartOf(cfg, ps, s), Count(|ps[s]|, cfg.size);
    LastAlone(symbols, a, t);
    var p := Recv(cfg, ps, symbols, s)[0];
    assert p in Received(symbols, a, t);
    FragmentFits(cfg, ps, symbols, recon, id, s, p - a);
  }

  lemma {:induction false} StartsGrow(cfg: TxConfig, ps: seq<PacketBytes>, s: nat, q: nat)
    requires Packed(cfg, ps) && s <= q <= |ps|
    ensures StartOf(cfg, ps, s) <= StartOf(cfg, ps, q)
  {
    hide StartOf, Count, Layout, Packed;
    if s < q {
      StartsGrow(cfg, ps, s, q - 1);
      NextStart(cfg, ps, q - 1);
    }
  }

  /** A stretch that runs over a lost position is not genuine. */
  lemma OverLost(symbols: seq<Symbol>, g: seq<nat>, a: nat)
    requires Within(g, symbols) && g != [] && g[0] <= a <= g[|g| - 1] && a < |symbols| && symbols[a].packetId == 0
    ensures !Genuine(symbols, g)
  {
    var x := a - g[0];
    if x < |g| {
      assert g[x] != g[0] + x || symbols[g[x]].packetId == 0;
    } else {
      assert g[|g| - 1] != g[0] + (|g| - 1);
    }
  }

  // ---------------------------------------------------------------------------
  // A spurious group stays
  // ---------------------------------------------------------------------------

  /** The condition is kept by position i exactly when the group it ends is not accepted or is genuine. */
  lemma StepIff(k: nat, symbols: seq<Symbol>, i: nat)
    requires i < k <= |symbols| && k < MAX_SYMBOLS_PER_BLOCK && UnmixedTo(k, symbols, i + 1)
    ensures UnmixedTo(k, symbols, i)
    ensures HasPayload(symbols[i], k) ==>
      var g := Ended(symbols, TraceTo(k, symbols, i), i); Accepted(symbols, g) ==> Genuine(symbols, g)
  {
    if HasPayload(symbols[i], k) {
      var tr := TraceTo(k, symbols, i);
      TraceTidy(k, symbols, i);
      EndedTidy(k, symbols, tr, i);
      TidyOpen(k, symbols, tr, i);
      JoinIs(symbols, tr, i);
      assert TraceTo(k, symbols, i + 1) == JoinAt(symbols, tr, i);
      hide Tidy, SourceGroup, Accepted, Genuine, FullAt, JoinAt, TraceTo, Ended, Given, HasPayload, NoneSpurious;
      GivenUnmixed(k, symbols, tr, i);
      var g := Ended(symbols, tr, i);
      SpuriousMore(k, symbols, Given(symbols, tr, i), g);
      if !FullAt(symbols, g) { IncompleteRefused(symbols, g); }
    } else {
      hide SourceGroup, Accepted, Genuine, JoinAt, NoneSpurious;
    }
  }

  lemma {:induction false} UnmixedBefore(k: nat, symbols: seq<Symbol>, i: nat, j: nat)
    requires i <= j <= k <= |symbols| && k < MAX_SYMBOLS_PER_BLOCK && UnmixedTo(k, symbols, j)
    ensures UnmixedTo(k, symbols, i)
    decreases j - i
  {
    hide UnmixedTo, HasPayload, Ended, TraceTo, Accepted, Genuine;
    if i < j {
      UnmixedBefore(k, symbols, i + 1, j);
      StepIff(k, symbols, i);
    }
  }

  // ---------------------------------------------------------------------------
  // The condition
  // ---------------------------------------------------------------------------

  /** What packets s to q gather by fragment j of packet q is accepted when it has packet s's number of fragments. */
  lemma GatherAccepted(cfg: TxConfig, ps: seq<PacketBytes>, symbols: seq<Symbol>, recon: seq<byte>, id: uint32,
                       s: nat, q: nat, j: nat)
    requires Damaged(cfg, ps, symbols, recon, id) && s < q < |ps| && cfg.k <= |symbols| && BlankLost(cfg.k, symbols)
    requires Recv(cfg, ps, symbols, s) != [] && !Stub(cfg, ps, symbols, s)
    requires j < Count(|ps[q]|, cfg.size) && StartOf(cfg, ps, q) + j < |symbols|
    requires |Gather(cfg, ps, symbols, s, q)| + |Received(symbols, StartOf(cfg, ps, q), j + 1)| == Count(|ps[s]|, cfg.size)
    ensures var g := Gather(cfg, ps, symbols, s, q) + Received(symbols, StartOf(cfg, ps, q), j + 1);
      && g != [] && g[0] < StartOf(cfg, ps, q) && Within(g, symbols) && Accepted(symbols, g)
  {
    hide Damaged, StartOf, Count, BlankLost, Gather, Recv, Layout, Received, Stub, Accepted, Fits;
    DamagedParts(cfg, ps, symbols, recon, id);
    GatherFirst(cfg, ps, symbols, s, q);
    FirstOf(cfg, ps, symbols, recon, id, s);
    GatherFits(cfg, ps, symbols, recon, id, s, q);
    ReceivedFits(cfg, ps, symbols, recon, id, q, j + 1);
    StartsGrow(cfg, ps, s + 1, q);
    LedAccepted(cfg.size, symbols, Gather(cfg, ps, symbols, s, q) + Received(symbols, StartOf(cfg, ps, q), j + 1));
  }

  /** A joined group that does not start with the last fragment of its packet is accepted. */
  lemma JoinedAccepted(cfg: TxConfig, ps: seq<PacketBytes>, symbols: seq<Symbol>, recon: seq<byte>, id: uint32, s: nat, q: nat)
    returns (i: nat)
    requires Damaged(cfg, ps, symbols, recon, id) && s < q < |ps| && cfg.k <= |symbols| && BlankLost(cfg.k, symbols)
    requires Joined(cfg, ps, symbols, s, q) && StartOf(cfg, ps, q) <= cfg.k && Holds(cfg, ps, symbols, q, s)
    requires !Stub(cfg, ps, symbols, s)
    ensures i < cfg.k && HasPayload(symbols[i], cfg.k)
    ensures var g := Ended(symbols, TraceTo(cfg.k, symbols, i), i); Accepted(symbols, g) && !Genuine(symbols, g)
  {
    hide Damaged, StartOf, Count, BlankLost, Gather, Recv, Layout, Received, TraceTo, Ended, Stub, Accepted, Genuine,
      HasPayload, Holds, Joined;
    DamagedParts(cfg, ps, symbols, recon, id);
    var j := JoinedEnds(cfg, ps, symbols, recon, id, s, q);
    i := StartOf(cfg, ps, q) + j;
    GatherAccepted(cfg, ps, symbols, recon, id, s, q, j);
    OverLost(symbols, Ended(symbols, TraceTo(cfg.k, symbols, i), i), StartOf(cfg, ps, q));
  }

  /**
   Some packets are joined, the first of them not with its last fragment alone: more is sent than the packets
   received whole.
   */
  lemma JoinedSpoils(cfg: TxConfig, ps: seq<PacketBytes>, symbols: seq<Symbol>, recon: seq<byte>, id: uint32, s: nat, q: nat)
    requires Damaged(cfg, ps, symbols, recon, id) && s < q < |ps| && cfg.k <= |symbols| && BlankLost(cfg.k, symbols)
    requires Joined(cfg, ps, symbols, s, q) && !Stub(cfg, ps, symbols, s)
    ensures |Sent(Groups(cfg.k, cfg.size, symbols, recon))| > |Survivors(cfg, ps, symbols, |ps|)|
  {
    hide Damaged, StartOf, Count, BlankLost, Gather, Recv, Layout, TraceTo, Ended, Stub, Accepted, Genuine, Holds, Joined,
      HasPayload, Unmixed, UnmixedTo, Sent, Groups, Survivors;
    DamagedParts(cfg, ps, symbols, recon, id);
    var x := FirstJoined(cfg, ps, symbols, recon, id, s, q);
    var i := JoinedAccepted(cfg, ps, symbols, recon, id, s, x);
    SurvivorsIff(cfg, ps, symbols, recon, id);
    if Unmixed(cfg.k, symbols) {
      EndUnmixed(cfg.k, symbols);
      UnmixedBefore(cfg.k, symbols, i + 1, cfg.k);
      StepIff(cfg.k, symbols, i);
    }
  }

  /** No joined group starts with the last fragment of its packet. */
  ghost predicate NoStubJoined(cfg: TxConfig, ps: seq<PacketBytes>, symbols: seq<Symbol>)
    requires Packed(cfg, ps)
  {
    forall s, q {:trigger Joined(cfg, ps, symbols, s, q)} ::
      0 <= s < q < |ps| && Joined(cfg, ps, symbols, s, q) ==> !Stub(cfg, ps, symbols, s)
  }

  /**
   Where lost positions hold no length, exactly the packets received whole are sent if and only if no packet of
   which a part was received is followed by packets that lost their first fragments and that make up for what it
   lost in number.
   */
  lemma JoinedIff(cfg: TxConfig, ps: seq<PacketBytes>, symbols: seq<Symbol>, recon: seq<byte>, id: uint32)
    requires Damaged(cfg, ps, symbols, recon, id) && cfg.k <= |symbols| && BlankLost(cfg.k, symbols)
    requires NoStubJoined(cfg, ps, symbols)
    ensures Sent(Groups(cfg.k, cfg.size, symbols, recon)) == Survivors(cfg, ps, symbols, |ps|) <==> NoneJoined(cfg, ps, symbols)
  {
    hide Damaged, BlankLost, Stub, Joined, Sent, Groups, Survivors;
    DamagedParts(cfg, ps, symbols, recon, id);
    if NoneJoined(cfg, ps, symbols) {
      NoneJoinedSuffices(cfg, ps, symbols, recon, id);
    } else {
      var s, q :| 0 <= s < q < |ps| && Joined(cfg, ps, symbols, s, q);
      JoinedSpoils(cfg, ps, symbols, recon, id, s, q);
    }
  }

  // ---------------------------------------------------------------------------
  // Conditions that are easier to check
  // ---------------------------------------------------------------------------

  /** A packet that lost its first fragment lost all of them. */
  ghost predicate HeadsDecide(cfg: TxConfig, ps: seq<PacketBytes>, symbols: seq<Symbol>)
    requires Packed(cfg, ps) && cfg.k <= |symbols|
  {
    forall q :: 0 <= q < |ps| ==> HeadDecides(cfg, ps, symbols, q)
  }

  ghost predicate HeadDecides(cfg: TxConfig, ps: seq<PacketBytes>, symbols: seq<Symbol>, q: nat)
    requires Packed(cfg, ps) && cfg.k <= |symbols| && q < |ps|
  {
    var a := StartOf(cfg, ps, q);
    a < |symbols| && symbols[a].packetId == 0 ==>
      forall p :: a <= p < a + Count(|ps[q]|, cfg.size) && p < |symbols| ==> symbols[p].packetId == 0
  }

  lemma LostWhole(cfg: TxConfig, ps: seq<PacketBytes>, symbols: seq<Symbol>, q: nat)
    requires Packed(cfg, ps) && q < |ps| && cfg.k <= |symbols| && HeadDecides(cfg, ps, symbols, q)
    requires !Head(cfg, ps, symbols, q)
    ensures Recv(cfg, ps, symbols, q) == []
  {
    hide StartOf, Count, Received;
    PacketSizes(cfg, ps, q);
    var a, t := StartOf(cfg, ps, q), Count(|ps[q]|, cfg.size);
    if a + t <= |symbols| { NoneReceived(symbols, a, t); }
  }

  lemma {:induction false} NoneReceived(symbols: seq<Symbol>, a: nat, t: nat)
    requires a + t <= |symbols| && (a < |symbols| ==> forall p :: a <= p < a + t ==> symbols[p].packetId == 0)
    ensures Received(symbols, a, t) == []
  {
    if t > 0 { NoneReceived(symbols, a, t - 1); }
  }

  lemma {:induction false} GatherAlone(cfg: TxConfig, ps: seq<PacketBytes>, symbols: seq<Symbol>, s: nat, q: nat)
    requires Packed(cfg, ps) && s <= q < |ps| && cfg.k <= |symbols| && HeadsDecide(cfg, ps, symbols)
    requires Headless(cfg, ps, symbols, s, q)
    ensures Gather(cfg, ps, symbols, s, q + 1) == Gather(cfg, ps, symbols, s, s + 1)
  {
    hide Packed, StartOf, Count, Recv, Head, HeadDecides;
    if s < q {
      GatherAlone(cfg, ps, symbols, s, q - 1);
      assert HeadDecides(cfg, ps, symbols, q);
      LostWhole(cfg, ps, symbols, q);
    }
  }

  /**
   Where lost positions hold no length: if every packet that lost its first fragment lost all of them, the
   packets sent are exactly those received whole, in order.
   */
  lemma HeadsSuffice(cfg: TxConfig, ps: seq<PacketBytes>, symbols: seq<Symbol>, recon: seq<byte>, id: uint32)
    requires Damaged(cfg, ps, symbols, recon, id) && cfg.k <= |symbols|
    requires BlankLost(cfg.k, symbols) && HeadsDecide(cfg, ps, symbols)
    ensures Sent(Groups(cfg.k, cfg.size, symbols, recon)) == Survivors(cfg, ps, symbols, |ps|)
  {
    hide Damaged, BlankLost, Sent, Groups, Survivors, StartsGroup, Headless, Gather, HeadsDecide;
    DamagedParts(cfg, ps, symbols, recon, id);
    forall s, q {:trigger Joined(cfg, ps, symbols, s, q)} | 0 <= s < q < |ps| ensures !Joined(cfg, ps, symbols, s, q) {
      if Joined(cfg, ps, symbols, s, q) {
        GatherAlone(cfg, ps, symbols, s, q);
        NotWhole(cfg, ps, symbols, recon, id, s);
      }
    }
    NoneJoinedSuffices(cfg, ps, symbols, recon, id);
  }

  lemma HeadsArrive(cfg: TxConfig, ps: seq<PacketBytes>, symbols: seq<Symbol>, recon: seq<byte>, id: uint32)
    requires Damaged(cfg, ps, symbols, recon, id) && AllArrived(cfg, ps, symbols) && cfg.k <= |symbols|
    ensures HeadsDecide(cfg, ps, symbols)
  {
    hide Damaged, StartOf, Count;
    DamagedParts(cfg, ps, symbols, recon, id);
    forall q | 0 <= q < |ps| ensures HeadDecides(cfg, ps, symbols, q) {
      assert Arrived(cfg, ps, symbols, q);
      PacketSizes(cfg, ps, q);
    }
  }

  /** In particular when the lost padding positions hold no length. */
  lemma BlankPadding(cfg: TxConfig, ps: seq<PacketBytes>, symbols: seq<Symbol>, recon: seq<byte>, id: uint32)
    requires Damaged(cfg, ps, symbols, recon, id) && AllArrived(cfg, ps, symbols) && cfg.k <= |symbols|
    requires BlankLost(cfg.k, symbols)
    ensures Sent(Groups(cfg.k, cfg.size, symbols, recon)) == ps
  {
    hide Damaged, Survivors, Groups, Sent, BlankLost, HeadsDecide, AllArrived, Packed;
    DamagedParts(cfg, ps, symbols, recon, id);
    HeadsArrive(cfg, ps, symbols, recon, id);
    HeadsSuffice(cfg, ps, symbols, recon, id);
    AllSurvive(cfg, ps, symbols, |ps|);
    assert ps[..|ps|] == ps;
  }
}
