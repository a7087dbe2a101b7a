/** Exactly which losses make the grouping loop join fragments of different packets, where lost positions hold nothing. */
module RxMixing {
  import opened Types
  import opened Fragmentation
  import opened TxSpec
  import opened TxHistory
  import opened RxGrouping
  import RxLosses
  import opened RxSurvivors
  import opened RxIntegrity
  import opened RxConditions

  // ---------------------------------------------------------------------------
  // The condition
  // ---------------------------------------------------------------------------

  /** The received positions of packet q. */
  function Recv(cfg: TxConfig, ps: seq<PacketBytes>, symbols: seq<Symbol>, q: nat): (g: seq<nat>)
    requires Packed(cfg, ps) && q < |ps|
  {
    var a, t := StartOf(cfg, ps, q), Count(|ps[q]|, cfg.size);
    if a + t <= |symbols| then Received(symbols, a, t) else []
  }

  /** The received positions of packets s to q - 1. */
  function Gather(cfg: TxConfig, ps: seq<PacketBytes>, symbols: seq<Symbol>, s: nat, q: nat): (g: seq<nat>)
    requires Packed(cfg, ps) && q <= |ps|
  {
    if q <= s then [] else Gather(cfg, ps, symbols, s, q - 1) + Recv(cfg, ps, symbols, q - 1)
  }

  /** Packet q's first fragment was received. */
  predicate Head(cfg: TxConfig, ps: seq<PacketBytes>, symbols: seq<Symbol>, q: nat)
    requires Packed(cfg, ps) && q < |ps|
  {
    StartOf(cfg, ps, q) < |symbols| && symbols[StartOf(cfg, ps, q)].packetId != 0
  }

  predicate Whole(cfg: TxConfig, ps: seq<PacketBytes>, symbols: seq<Symbol>, q: nat)
    requires Packed(cfg, ps) && q < |ps|
  {
    |Recv(cfg, ps, symbols, q)| == Count(|ps[q]|, cfg.size)
  }

  /** What was received last before packet q is a whole packet, or nothing was. */
  predicate StartsAfresh(cfg: TxConfig, ps: seq<PacketBytes>, symbols: seq<Symbol>, q: nat)
    requires Packed(cfg, ps) && q <= |ps|
  {
    q == 0 || Whole(cfg, ps, symbols, q - 1)
    || (Recv(cfg, ps, symbols, q - 1) == [] && StartsAfresh(cfg, ps, symbols, q - 1))
  }

  /** A group starts with packet s and does not end with it. */
  predicate StartsGroup(cfg: TxConfig, ps: seq<PacketBytes>, symbols: seq<Symbol>, s: nat)
    requires Packed(cfg, ps) && s < |ps|
  {
    && Recv(cfg, ps, symbols, s) != [] && !Whole(cfg, ps, symbols, s)
    && (Head(cfg, ps, symbols, s) || StartsAfresh(cfg, ps, symbols, s))
  }

  /** Packets s + 1 to q lost their first fragments. */
  predicate Headless(cfg: TxConfig, ps: seq<PacketBytes>, symbols: seq<Symbol>, s: nat, q: nat)
    requires Packed(cfg, ps) && q < |ps|
  {
    forall x :: s < x <= q ==> !Head(cfg, ps, symbols, x)
  }

  /**
   Packet s, part of which was received, and the packets after it up to q, which lost their first fragments, have
   as many fragments left between them as packet s has in all.
   */
  predicate Joined(cfg: TxConfig, ps: seq<PacketBytes>, symbols: seq<Symbol>, s: nat, q: nat)
    requires Packed(cfg, ps) && s < q < |ps|
  {
    && StartsGroup(cfg, ps, symbols, s) && Headless(cfg, ps, symbols, s, q)
    && |Gather(cfg, ps, symbols, s, q + 1)| >= Count(|ps[s]|, cfg.size)
  }

  /** Only the last fragment of packet s was received. */
  predicate Stub(cfg: TxConfig, ps: seq<PacketBytes>, symbols: seq<Symbol>, s: nat)
    requires Packed(cfg, ps) && s < |ps|
  {
    Recv(cfg, ps, symbols, s) == [StartOf(cfg, ps, s) + Count(|ps[s]|, cfg.size) - 1]
  }

  // ---------------------------------------------------------------------------
  // What is buffered inside a packet
  // ---------------------------------------------------------------------------

  /** Positions a to a + t - 1 are those of one packet: received ones hold its fragments' metadata, lost ones no length. */
  ghost predicate Fragments(k: nat, symbols: seq<Symbol>, a: nat, t: nat, id: uint32) {
    && 0 < t && a + t <= k <= |symbols| && k < MAX_SYMBOLS_PER_BLOCK && BlankLost(k, symbols)
    && forall p :: a <= p < a + t && symbols[p].packetId != 0 ==> FragmentOf(k, symbols[p], p - a, t, id)
  }

  ghost predicate FragmentOf(k: nat, s: Symbol, j: int, t: nat, id: uint32) {
    HasPayload(s, k) && s.index == j && s.total == t && s.packetId == id
  }

  /** What the fragments of a packet that starts at a are added to. */
  ghost function Base(k: nat, symbols: seq<Symbol>, a: nat): (g: seq<nat>)
    requires a < k <= |symbols|
    ensures Within(g, symbols)
  {
    if symbols[a].packetId != 0 then [] else TraceTo(k, symbols, a).open
  }

  /** The size at which the group they join is complete. */
  ghost function Limit(k: nat, symbols: seq<Symbol>, a: nat, t: nat): nat
    requires a < k <= |symbols|
  {
    if Base(k, symbols, a) == [] then t else symbols[Base(k, symbols, a)[0]].total
  }

  /** The group that a received position ends, and whether it is complete. */
  lemma StepOpens(k: nat, symbols: seq<Symbol>, i: nat)
    requires i < k <= |symbols| && k < MAX_SYMBOLS_PER_BLOCK && HasPayload(symbols[i], k)
    ensures var g := Ended(symbols, TraceTo(k, symbols, i), i);
      if FullAt(symbols, g) then TraceTo(k, symbols, i + 1) == Trace([], Given(symbols, TraceTo(k, symbols, i), i) + [g])
      else TraceTo(k, symbols, i + 1) == Trace(g, Given(symbols, TraceTo(k, symbols, i), i))
  {
    var tr := TraceTo(k, symbols, i);
    TraceTidy(k, symbols, i);
    TidyOpen(k, symbols, tr, i);
    JoinIs(symbols, tr, i);
    hide HasPayload, FullAt, Tidy;
  }

  lemma ReceivedStep(symbols: seq<Symbol>, a: nat, j: nat)
    requires a + j < |symbols| && symbols[a + j].packetId != 0
    ensures Received(symbols, a, j + 1) == Received(symbols, a, j) + [a + j]
    ensures Received(symbols, a, 0) == []
  {
  }

  lemma EndsWith(k: nat, symbols: seq<Symbol>, a: nat, j: nat)
    requires a + j < k <= |symbols| && symbols[a + j].packetId != 0 && symbols[a + j].index == j
    requires j > 0 ==> TraceTo(k, symbols, a + j).open == Base(k, symbols, a) + Received(symbols, a, j)
    ensures Ended(symbols, TraceTo(k, symbols, a + j), a + j) == Base(k, symbols, a) + Received(symbols, a, j + 1)
  {
    hide TraceTo, Received;
    ReceivedStep(symbols, a, j);
    if j > 0 {
      assert Base(k, symbols, a) + Received(symbols, a, j) + [a + j] == Base(k, symbols, a) + (Received(symbols, a, j) + [a + j]);
    }
  }

  /** The group that fragment j ends, after the earlier ones have been appended. */
  lemma EndedIs(k: nat, symbols: seq<Symbol>, a: nat, t: nat, id: uint32, j: nat)
    requires Fragments(k, symbols, a, t, id) && j < t && symbols[a + j].packetId != 0
    requires j > 0 ==> TraceTo(k, symbols, a + j).open == Base(k, symbols, a) + Received(symbols, a, j)
    ensures var g := Ended(symbols, TraceTo(k, symbols, a + j), a + j);
      && g == Base(k, symbols, a) + Received(symbols, a, j + 1) && Within(g, symbols)
      && symbols[g[0]].total == Limit(k, symbols, a, t)
  {
    hide HasPayload, TraceTo, Received, Ended, BlankLost;
    assert FragmentOf(k, symbols[a + j], j, t, id);
    EndsWith(k, symbols, a, j);
    ReceivedStep(symbols, a, j);
    FirstTotal(k, symbols, a, t, id, j + 1);
  }

  lemma FirstTotal(k: nat, symbols: seq<Symbol>, a: nat, t: nat, id: uint32, j: nat)
    requires Fragments(k, symbols, a, t, id) && j <= t && Received(symbols, a, j) != []
    ensures symbols[Received(symbols, a, j)[0]].total == t
  {
    hide HasPayload;
    var r := Received(symbols, a, j);
    assert a <= r[0] < a + j && symbols[r[0]].packetId != 0;
    assert FragmentOf(k, symbols[r[0]], r[0] - a, t, id);
  }

  /** A received fragment that does not complete the group is appended to it. */
  lemma AppendStep(k: nat, symbols: seq<Symbol>, a: nat, t: nat, id: uint32, j: nat)
    requires Fragments(k, symbols, a, t, id) && j < t && symbols[a + j].packetId != 0
    requires j > 0 ==> TraceTo(k, symbols, a + j).open == Base(k, symbols, a) + Received(symbols, a, j)
    requires |Base(k, symbols, a)| + |Received(symbols, a, j + 1)| < Limit(k, symbols, a, t)
    ensures TraceTo(k, symbols, a + j + 1).open == Base(k, symbols, a) + Received(symbols, a, j + 1)
  {
    hide HasPayload, JoinAt, Given, TraceTo, Limit, BlankLost, Ended, Base, Received;
    assert FragmentOf(k, symbols[a + j], j, t, id);
    EndedIs(k, symbols, a, t, id, j);
    StepOpens(k, symbols, a + j);
  }

  /** While the group is incomplete, the packet's received fragments are appended to it. */
  lemma {:induction false} Appended(k: nat, symbols: seq<Symbol>, a: nat, t: nat, id: uint32, j: nat)
    requires Fragments(k, symbols, a, t, id) && j <= t && (j > 0 || symbols[a].packetId == 0)
    requires |Base(k, symbols, a)| + |Received(symbols, a, j)| < Limit(k, symbols, a, t)
    ensures TraceTo(k, symbols, a + j).open == Base(k, symbols, a) + Received(symbols, a, j)
  {
    hide HasPayload, TraceTo, Limit, BlankLost, FragmentOf;
    if j > 0 {
      if j > 1 || symbols[a].packetId == 0 { Appended(k, symbols, a, t, id, j - 1); }
      hide Base;
      if symbols[a + j - 1].packetId != 0 {
        AppendStep(k, symbols, a, t, id, j - 1);
      } else {
        BlankSkipped(k, symbols, a + j - 1);
      }
    }
  }

  lemma {:induction false} ReceivedGrows(symbols: seq<Symbol>, a: nat, j: nat, t: nat)
    requires j <= t && a + t <= |symbols|
    ensures |Received(symbols, a, j)| <= |Received(symbols, a, t)|
    decreases t - j
  {
    if j < t { ReceivedGrows(symbols, a, j + 1, t); }
  }

  /** Once the packet is through, unless it is whole: its received fragments have been appended. */
  lemma PacketAppended(k: nat, symbols: seq<Symbol>, a: nat, t: nat, id: uint32)
    requires Fragments(k, symbols, a, t, id)
    requires |Base(k, symbols, a)| + |Received(symbols, a, t)| < Limit(k, symbols, a, t)
    ensures TraceTo(k, symbols, a + t).open == Base(k, symbols, a) + Received(symbols, a, t)
  {
    Appended(k, symbols, a, t, id, t);
  }

  /** A packet received whole is closed with its last fragment. */
  lemma PacketCloses(k: nat, symbols: seq<Symbol>, a: nat, t: nat, id: uint32)
    requires Fragments(k, symbols, a, t, id) && |Received(symbols, a, t)| == t
    ensures TraceTo(k, symbols, a + t).open == [] && symbols[a].packetId != 0
  {
    hide HasPayload, TraceTo, Ended, BlankLost;
    AllReceived(symbols, a, t);
    var r := Received(symbols, a, t);
    assert r[0] == a && r[t - 1] == a + (t - 1);
    assert FragmentOf(k, symbols[a + t - 1], t - 1, t, id);
    if t > 1 { Appended(k, symbols, a, t, id, t - 1); }
    EndedIs(k, symbols, a, t, id, t - 1);
    StepOpens(k, symbols, a + t - 1);
  }

  /** A fragment of a packet that completes no group of another one closes nothing spurious. */
  lemma FragmentQuiet(k: nat, symbols: seq<Symbol>, a: nat, t: nat, id: uint32, j: nat)
    requires Fragments(k, symbols, a, t, id) && j < t && symbols[a + j].packetId != 0
    requires Base(k, symbols, a) == [] || |Base(k, symbols, a)| + |Received(symbols, a, t)| < Limit(k, symbols, a, t)
    ensures HasPayload(symbols[a + j], k)
    ensures var g := Ended(symbols, TraceTo(k, symbols, a + j), a + j); Accepted(symbols, g) ==> Genuine(symbols, g)
  {
    assert FragmentOf(k, symbols[a + j], j, t, id);
    ReceivedGrows(symbols, a, j, t);
    ReceivedGrows(symbols, a, j + 1, t);
    hide HasPayload, TraceTo, Ended, BlankLost, Accepted, Genuine, Received;
    if j > 0 { Appended(k, symbols, a, t, id, j); }
    EndedIs(k, symbols, a, t, id, j);
    var g := Ended(symbols, TraceTo(k, symbols, a + j), a + j);
    if Accepted(symbols, g) {
      AcceptedSize(symbols, g);
      assert g == [] + Received(symbols, a, j + 1);
      ReceivedGenuine(symbols, a, j + 1);
    }
  }

  lemma {:induction false} PacketQuiet(k: nat, symbols: seq<Symbol>, a: nat, t: nat, id: uint32, j: nat)
    requires Fragments(k, symbols, a, t, id) && j <= t && UnmixedTo(k, symbols, a)
    requires Base(k, symbols, a) == [] || |Base(k, symbols, a)| + |Received(symbols, a, t)| < Limit(k, symbols, a, t)
    ensures UnmixedTo(k, symbols, a + j)
  {
    hide HasPayload, TraceTo, Ended, Accepted, Genuine, Received, UnmixedTo, Limit, Base;
    if j > 0 {
      PacketQuiet(k, symbols, a, t, id, j - 1);
      if symbols[a + j - 1].packetId != 0 { FragmentQuiet(k, symbols, a, t, id, j - 1); }
      LostQuiet(k, symbols, a + j - 1);
      StepUnmixed(k, symbols, a + j - 1);
    }
  }

  lemma LostQuiet(k: nat, symbols: seq<Symbol>, p: nat)
    requires p < k <= |symbols| && BlankLost(k, symbols)
    ensures symbols[p].packetId == 0 ==> !HasPayload(symbols[p], k)
  {
  }

  // ---------------------------------------------------------------------------
  // From packet to packet
  // ---------------------------------------------------------------------------

  /** Packet q's positions. */
  lemma PacketFragments(cfg: TxConfig, ps: seq<PacketBytes>, symbols: seq<Symbol>, recon: seq<byte>, id: uint32, q: nat)
    requires Damaged(cfg, ps, symbols, recon, id) && q < |ps| && cfg.k <= |symbols| && BlankLost(cfg.k, symbols)
    ensures var a, t := StartOf(cfg, ps, q), Count(|ps[q]|, cfg.size);
      && Fragments(cfg.k, symbols, a, t, id) && StartOf(cfg, ps, q + 1) == a + t <= |Layout(cfg, ps)| <= cfg.k
      && Recv(cfg, ps, symbols, q) == Received(symbols, a, t)
  {
    hide Layout, StartOf, SourcePlan, SourceBytes, Count, Damaged, HasPayload, Received, BlankLost;
    DamagedParts(cfg, ps, symbols, recon, id);
    PacketSizes(cfg, ps, q);
    NextStart(cfg, ps, q);
    RxLosses.LayoutBound(cfg, ps);
    var a, t := StartOf(cfg, ps, q), Count(|ps[q]|, cfg.size);
    forall p | a <= p < a + t && symbols[p].packetId != 0 ensures FragmentOf(cfg.k, symbols[p], p - a, t, id) {
      var i := FragmentAt(cfg, ps, symbols, recon, id, q, p - a);
    }
  }

  /** What is buffered before packet q: nothing, or what was received of packets s to q - 1. */
  ghost predicate Holds(cfg: TxConfig, ps: seq<PacketBytes>, symbols: seq<Symbol>, q: nat, s: nat)
    requires Packed(cfg, ps) && s <= q <= |ps| && StartOf(cfg, ps, q) <= cfg.k <= |symbols|
  {
    var open := TraceTo(cfg.k, symbols, StartOf(cfg, ps, q)).open;
    && open == Gather(cfg, ps, symbols, s, q)
    && (s == q ==> StartsAfresh(cfg, ps, symbols, q))
    && (s < q ==> StartsGroup(cfg, ps, symbols, s) && Headless(cfg, ps, symbols, s, q - 1)
                  && |Gather(cfg, ps, symbols, s, q)| < Count(|ps[s]|, cfg.size))
  }

  /** The first position gathered is one of packet s. */
  lemma {:induction false} GatherFirst(cfg: TxConfig, ps: seq<PacketBytes>, symbols: seq<Symbol>, s: nat, q: nat)
    requires Packed(cfg, ps) && s < q <= |ps| && Recv(cfg, ps, symbols, s) != []
    ensures Gather(cfg, ps, symbols, s, q) != []
    ensures Gather(cfg, ps, symbols, s, q)[0] == Recv(cfg, ps, symbols, s)[0]
  {
    hide Packed, Recv;
    if q == s + 1 {
      assert Gather(cfg, ps, symbols, s, s) == [];
    } else {
      GatherFirst(cfg, ps, symbols, s, q - 1);
    }
  }

  lemma RecvTotal(cfg: TxConfig, ps: seq<PacketBytes>, symbols: seq<Symbol>, recon: seq<byte>, id: uint32, s: nat)
    requires Damaged(cfg, ps, symbols, recon, id) && s < |ps| && cfg.k <= |symbols| && BlankLost(cfg.k, symbols)
    requires Recv(cfg, ps, symbols, s) != []
    ensures var p := Recv(cfg, ps, symbols, s)[0]; p < |symbols| && symbols[p].total == Count(|ps[s]|, cfg.size)
  {
    hide Damaged, StartOf, Count, Layout, Received, Recv, BlankLost;
    DamagedParts(cfg, ps, symbols, recon, id);
    PacketFragments(cfg, ps, symbols, recon, id, s);
    FirstTotal(cfg.k, symbols, StartOf(cfg, ps, s), Count(|ps[s]|, cfg.size), id, Count(|ps[s]|, cfg.size));
  }

  /** The base and the limit of packet q's fragments, where packets s to q - 1 are buffered and packet q lost its first. */
  lemma HeldBase(cfg: TxConfig, ps: seq<PacketBytes>, symbols: seq<Symbol>, recon: seq<byte>, id: uint32, q: nat, s: nat)
    requires Damaged(cfg, ps, symbols, recon, id) && s <= q < |ps| && cfg.k <= |symbols| && BlankLost(cfg.k, symbols)
    requires StartOf(cfg, ps, q) < cfg.k && Holds(cfg, ps, symbols, q, s) && !Head(cfg, ps, symbols, q)
    ensures Base(cfg.k, symbols, StartOf(cfg, ps, q)) == Gather(cfg, ps, symbols, s, q)
    ensures Limit(cfg.k, symbols, StartOf(cfg, ps, q), Count(|ps[q]|, cfg.size)) == Count(|ps[s]|, cfg.size)
  {
    hide Damaged, StartOf, Count, Layout, BlankLost, Recv, TraceTo, Gather;
    DamagedParts(cfg, ps, symbols, recon, id);
    if s < q {
      GatherFirst(cfg, ps, symbols, s, q);
      RecvTotal(cfg, ps, symbols, recon, id, s);
    } else {
      GatherNone(cfg, ps, symbols, q);
    }
  }

  lemma GatherNone(cfg: TxConfig, ps: seq<PacketBytes>, symbols: seq<Symbol>, q: nat)
    requires Packed(cfg, ps) && q <= |ps|
    ensures Gather(cfg, ps, symbols, q, q) == []
  {
  }

  /** Past packet q when no group closes in it. */
  lemma Passed(cfg: TxConfig, ps: seq<PacketBytes>, symbols: seq<Symbol>, recon: seq<byte>, id: uint32, q: nat)
    requires Damaged(cfg, ps, symbols, recon, id) && q < |ps| && cfg.k <= |symbols| && BlankLost(cfg.k, symbols)
    requires StartOf(cfg, ps, q) < cfg.k
    requires |Base(cfg.k, symbols, StartOf(cfg, ps, q))| + |Recv(cfg, ps, symbols, q)|
             < Limit(cfg.k, symbols, StartOf(cfg, ps, q), Count(|ps[q]|, cfg.size))
    ensures StartOf(cfg, ps, q + 1) <= cfg.k < MAX_SYMBOLS_PER_BLOCK
    ensures TraceTo(cfg.k, symbols, StartOf(cfg, ps, q + 1)).open
            == Base(cfg.k, symbols, StartOf(cfg, ps, q)) + Recv(cfg, ps, symbols, q)
    ensures UnmixedTo(cfg.k, symbols, StartOf(cfg, ps, q)) ==> UnmixedTo(cfg.k, symbols, StartOf(cfg, ps, q + 1))
  {
    hide Damaged, StartOf, Count, Layout, BlankLost, Recv, Received, TraceTo, Base, Limit, UnmixedTo;
    DamagedParts(cfg, ps, symbols, recon, id);
    PacketFragments(cfg, ps, symbols, recon, id, q);
    var a, t := StartOf(cfg, ps, q), Count(|ps[q]|, cfg.size);
    PacketAppended(cfg.k, symbols, a, t, id);
    if UnmixedTo(cfg.k, symbols, a) { PacketQuiet(cfg.k, symbols, a, t, id, t); }
  }

  lemma GatherStep(cfg: TxConfig, ps: seq<PacketBytes>, symbols: seq<Symbol>, s: nat, q: nat)
    requires Packed(cfg, ps) && s <= q < |ps|
    ensures Gather(cfg, ps, symbols, s, q + 1) == Gather(cfg, ps, symbols, s, q) + Recv(cfg, ps, symbols, q)
  {
  }

  lemma WholeHead(cfg: TxConfig, ps: seq<PacketBytes>, symbols: seq<Symbol>, recon: seq<byte>, id: uint32, q: nat)
    requires Damaged(cfg, ps, symbols, recon, id) && q < |ps| && cfg.k <= |symbols| && BlankLost(cfg.k, symbols)
    requires Whole(cfg, ps, symbols, q)
    ensures Head(cfg, ps, symbols, q)
  {
    hide Damaged, StartOf, Count, Layout, BlankLost, Received, TraceTo;
    DamagedParts(cfg, ps, symbols, recon, id);
    PacketFragments(cfg, ps, symbols, recon, id, q);
    PacketCloses(cfg.k, symbols, StartOf(cfg, ps, q), Count(|ps[q]|, cfg.size), id);
  }

  /** After a packet received whole nothing is buffered. */
  lemma AfterWhole(cfg: TxConfig, ps: seq<PacketBytes>, symbols: seq<Symbol>, recon: seq<byte>, id: uint32, q: nat)
    requires Damaged(cfg, ps, symbols, recon, id) && q < |ps| && cfg.k <= |symbols| && BlankLost(cfg.k, symbols)
    requires Whole(cfg, ps, symbols, q)
    ensures StartOf(cfg, ps, q) <= StartOf(cfg, ps, q + 1) <= cfg.k < MAX_SYMBOLS_PER_BLOCK
    ensures Holds(cfg, ps, symbols, q + 1, q + 1)
    ensures UnmixedTo(cfg.k, symbols, StartOf(cfg, ps, q)) ==> UnmixedTo(cfg.k, symbols, StartOf(cfg, ps, q + 1))
  {
    hide Damaged, StartOf, Count, Layout, BlankLost, Received, TraceTo, UnmixedTo, Gather, Limit;
    DamagedParts(cfg, ps, symbols, recon, id);
    PacketFragments(cfg, ps, symbols, recon, id, q);
    var a, t := StartOf(cfg, ps, q), Count(|ps[q]|, cfg.size);
    PacketCloses(cfg.k, symbols, a, t, id);
    GatherNone(cfg, ps, symbols, q + 1);
    if UnmixedTo(cfg.k, symbols, a) { PacketQuiet(cfg.k, symbols, a, t, id, t); }
  }

  /** After a packet that kept its first fragment but not all: what was received of it is buffered. */
  lemma AfterHead(cfg: TxConfig, ps: seq<PacketBytes>, symbols: seq<Symbol>, recon: seq<byte>, id: uint32, q: nat)
    requires Damaged(cfg, ps, symbols, recon, id) && q < |ps| && cfg.k <= |symbols| && BlankLost(cfg.k, symbols)
    requires Head(cfg, ps, symbols, q) && !Whole(cfg, ps, symbols, q)
    ensures StartOf(cfg, ps, q) <= StartOf(cfg, ps, q + 1) <= cfg.k < MAX_SYMBOLS_PER_BLOCK
    ensures Holds(cfg, ps, symbols, q + 1, q)
    ensures UnmixedTo(cfg.k, symbols, StartOf(cfg, ps, q)) ==> UnmixedTo(cfg.k, symbols, StartOf(cfg, ps, q + 1))
  {
    hide Damaged, StartOf, Count, Layout, BlankLost, Received, TraceTo, UnmixedTo, Gather;
    DamagedParts(cfg, ps, symbols, recon, id);
    PacketFragments(cfg, ps, symbols, recon, id, q);
    var a, t := StartOf(cfg, ps, q), Count(|ps[q]|, cfg.size);
    assert Base(cfg.k, symbols, a) == [];
    Passed(cfg, ps, symbols, recon, id, q);
    GatherNone(cfg, ps, symbols, q);
    GatherStep(cfg, ps, symbols, q, q);
    HeadReceived(symbols, a, t);
    assert [] + Recv(cfg, ps, symbols, q) == Recv(cfg, ps, symbols, q);
  }

  lemma {:induction false} HeadReceived(symbols: seq<Symbol>, a: nat, t: nat)
    requires 0 < t && a + t <= |symbols| && symbols[a].packetId != 0
    ensures Received(symbols, a, t) != [] && Received(symbols, a, t)[0] == a
  {
    if t > 1 { HeadReceived(symbols, a, t - 1); } else { assert Received(symbols, a, 0) == []; }
  }

  /** After a packet that lost its first fragment, when packets s to q - 1 were buffered and the group is not complete. */
  lemma AfterLate(cfg: TxConfig, ps: seq<PacketBytes>, symbols: seq<Symbol>, recon: seq<byte>, id: uint32, q: nat, s: nat)
    requires Damaged(cfg, ps, symbols, recon, id) && s < q < |ps| && cfg.k <= |symbols| && BlankLost(cfg.k, symbols)
    requires StartOf(cfg, ps, q) <= cfg.k && Holds(cfg, ps, symbols, q, s) && !Head(cfg, ps, symbols, q)
    requires |Gather(cfg, ps, symbols, s, q + 1)| < Count(|ps[s]|, cfg.size)
    ensures StartOf(cfg, ps, q + 1) <= cfg.k < MAX_SYMBOLS_PER_BLOCK
    ensures Holds(cfg, ps, symbols, q + 1, s)
    ensures UnmixedTo(cfg.k, symbols, StartOf(cfg, ps, q)) ==> UnmixedTo(cfg.k, symbols, StartOf(cfg, ps, q + 1))
  {
    hide Damaged, StartOf, Count, Layout, BlankLost, Received, TraceTo, UnmixedTo, Gather, Recv, Base, Limit;
    DamagedParts(cfg, ps, symbols, recon, id);
    PacketFragments(cfg, ps, symbols, recon, id, q);
    HeldBase(cfg, ps, symbols, recon, id, q, s);
    GatherStep(cfg, ps, symbols, s, q);
    Passed(cfg, ps, symbols, recon, id, q);
  }

  /** After a packet that lost its first fragment, when nothing was buffered. */
  lemma AfterFresh(cfg: TxConfig, ps: seq<PacketBytes>, symbols: seq<Symbol>, recon: seq<byte>, id: uint32, q: nat)
    returns (s: nat)
    requires Damaged(cfg, ps, symbols, recon, id) && q < |ps| && cfg.k <= |symbols| && BlankLost(cfg.k, symbols)
    requires StartOf(cfg, ps, q) <= cfg.k && Holds(cfg, ps, symbols, q, q) && !Head(cfg, ps, symbols, q)
    ensures StartOf(cfg, ps, q + 1) <= cfg.k < MAX_SYMBOLS_PER_BLOCK
    ensures s == (if Recv(cfg, ps, symbols, q) == [] then q + 1 else q) && Holds(cfg, ps, symbols, q + 1, s)
    ensures UnmixedTo(cfg.k, symbols, StartOf(cfg, ps, q)) ==> UnmixedTo(cfg.k, symbols, StartOf(cfg, ps, q + 1))
  {
    hide Damaged, StartOf, Count, Layout, BlankLost, Received, TraceTo, UnmixedTo, Gather, Recv, Base, Limit;
    DamagedParts(cfg, ps, symbols, recon, id);
    PacketFragments(cfg, ps, symbols, recon, id, q);
    if Whole(cfg, ps, symbols, q) { WholeHead(cfg, ps, symbols, recon, id, q); }
    HeldBase(cfg, ps, symbols, recon, id, q, q);
    GatherStep(cfg, ps, symbols, q, q);
    GatherNone(cfg, ps, symbols, q);
    GatherNone(cfg, ps, symbols, q + 1);
    RecvFew(cfg, ps, symbols, recon, id, q);
    Passed(cfg, ps, symbols, recon, id, q);
    s := if Recv(cfg, ps, symbols, q) == [] then q + 1 else q;
  }

  lemma RecvFew(cfg: TxConfig, ps: seq<PacketBytes>, symbols: seq<Symbol>, recon: seq<byte>, id: uint32, q: nat)
    requires Damaged(cfg, ps, symbols, recon, id) && q < |ps| && cfg.k <= |symbols| && BlankLost(cfg.k, symbols)
    ensures |Recv(cfg, ps, symbols, q)| <= Count(|ps[q]|, cfg.size)
  {
    hide Damaged, StartOf, Count, Layout, BlankLost, Recv;
    DamagedParts(cfg, ps, symbols, recon, id);
    PacketFragments(cfg, ps, symbols, recon, id, q);
  }
}
