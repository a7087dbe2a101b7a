/** What the grouping loop makes of a decoded block when source positions were lost: every lost fragment costs a packet. */
module RxLosses {
  import opened Types
  import opened Fragmentation
  import opened TxSpec
  import opened TxHistory
  import opened RxGrouping

  /**
   The block decoded, and each source position either arrived or was never written: its stored
   payload length is still zero.
   */
  ghost predicate Partial(cfg: TxConfig, ps: seq<PacketBytes>, symbols: seq<Symbol>, recon: seq<byte>, id: uint32) {
    && Packed(cfg, ps) && Scannable(cfg.k, cfg.size, symbols, recon)
    && recon == SourceBytes(SourcePlan(cfg, ps), cfg.k)
    && (forall i :: 0 <= i < cfg.k ==> symbols[i].len == 0 || Matches(symbols[i], SourcePlan(cfg, ps)[i], cfg.k))
    && (forall i :: 0 <= i < cfg.k && symbols[i].len != 0 ==> symbols[i].packetId == id)
    && (forall q :: 0 <= q < |ps| ==> |ps[q]| <= 9200)
  }

  /** A fragment was sent at position i and did not arrive. */
  predicate LostAt(cfg: TxConfig, ps: seq<PacketBytes>, symbols: seq<Symbol>, i: nat)
    requires Packed(cfg, ps) && i < cfg.k <= |symbols|
  {
    SourcePlan(cfg, ps)[i].len != 0 && symbols[i].len == 0
  }

  ghost predicate NoneLost(cfg: TxConfig, ps: seq<PacketBytes>, symbols: seq<Symbol>, n: nat)
    requires Packed(cfg, ps) && n <= cfg.k <= |symbols|
  {
    forall i :: 0 <= i < n ==> !LostAt(cfg, ps, symbols, i)
  }

  // ---------------------------------------------------------------------------
  // Counting successes
  // ---------------------------------------------------------------------------

  function Successes(gr: Group): nat {
    |Sent(gr.results)|
  }

  /** A buffered group is always incomplete. */
  predicate Waiting(gr: Group) {
    gr.buffer != [] ==> |gr.buffer| < gr.buffer[0].total <= MAX_SYMBOLS_PER_BLOCK
  }

  lemma ResultCounts(results: seq<Reassembled>, r: Reassembled)
    ensures |Sent(results)| <= |Sent(results + [r])| <= |Sent(results)| + 1
    ensures r.Rejected? ==> |Sent(results + [r])| == |Sent(results)|
  {
    assert (results + [r])[..|results|] == results;
  }

  /** Flushing an incomplete group sends nothing. */
  lemma IncompleteFails(gr: Group)
    requires Sized(gr.buffer) && Waiting(gr) && gr.buffer != []
    ensures Successes(FlushGroup(gr)) == Successes(gr)
  {
    ResultCounts(gr.results, Reassemble(gr.buffer, REASSEM_BUF_SIZE));
  }

  /** What the arriving symbol is added to: nothing when it starts a packet. */
  function Kept(gr: Group, s: Symbol): seq<Symbol> {
    if s.index == 0 then [] else gr.buffer
  }

  /** Joining one symbol: at most one success, and only by completing a group. */
  lemma JoinCounts(gr: Group, s: Symbol)
    requires Sized(gr.buffer) && s.len <= |s.data| && Waiting(gr) && 1 <= s.total <= MAX_SYMBOLS_PER_BLOCK
    ensures var b := Kept(gr, s) + [s];
      var r := Join(gr, s);
      && Waiting(r) && r.buffer == (if |b| == b[0].total then [] else b)
      && Successes(gr) <= Successes(r) <= Successes(gr) + (if |b| == b[0].total then 1 else 0)
  {
    hide Reassemble;
    var a := if gr.buffer != [] && s.index == 0 then FlushGroup(gr) else gr;
    if gr.buffer != [] && s.index == 0 { IncompleteFails(gr); }
    assert a.buffer == Kept(gr, s);
    var b := a.buffer + [s];
    if |b| == b[0].total { ResultCounts(a.results, Reassemble(b, REASSEM_BUF_SIZE)); }
  }

  // ---------------------------------------------------------------------------
  // One packet
  // ---------------------------------------------------------------------------

  /** How many of the j positions from a on arrived. */
  function Arrived(symbols: seq<Symbol>, a: nat, j: nat): (r: nat)
    requires a + j <= |symbols|
    ensures r <= j
  {
    if j == 0 then 0 else Arrived(symbols, a, j - 1) + if symbols[a + j - 1].len != 0 then 1 else 0
  }

  /** The position of fragment j of packet q, in range. */
  lemma PositionOf(cfg: TxConfig, ps: seq<PacketBytes>, symbols: seq<Symbol>, recon: seq<byte>, id: uint32, q: nat, j: nat)
    returns (i: nat)
    requires Partial(cfg, ps, symbols, recon, id) && q < |ps| && j < Count(|ps[q]|, cfg.size)
    ensures i == StartOf(cfg, ps, q) + j < cfg.k
    ensures 0 <= i * cfg.size && i * cfg.size + cfg.size <= |recon| && symbols[i].len <= cfg.size
    ensures LostAt(cfg, ps, symbols, i) == (symbols[i].len == 0)
    ensures symbols[i].len != 0 ==> HasPayload(symbols[i], cfg.k)
    ensures symbols[i].len != 0 ==> symbols[i].index == j && symbols[i].total == Count(|ps[q]|, cfg.size)
  {
    hide Layout, StartOf, SourcePlan, SourceBytes, Count;
    i := StartOf(cfg, ps, q) + j;
    PlanLength(cfg, ps, q, j);
    InRecon(cfg.k, cfg.size, i);
    assert symbols[i].len == 0 || Matches(symbols[i], SourcePlan(cfg, ps)[i], cfg.k);
  }

  /** Position i: skipped when nothing arrived, joined otherwise. */
  lemma ScanOne(cfg: TxConfig, symbols: seq<Symbol>, recon: seq<byte>, i: nat)
    requires Scannable(cfg.k, cfg.size, symbols, recon) && i < cfg.k
    requires symbols[i].len != 0 ==> HasPayload(symbols[i], cfg.k)
    ensures i * cfg.size + cfg.size <= |recon|
    ensures ScanTo(cfg.k, cfg.size, symbols, recon, i + 1) ==
      if symbols[i].len == 0 then ScanTo(cfg.k, cfg.size, symbols, recon, i)
      else Join(ScanTo(cfg.k, cfg.size, symbols, recon, i), Rebuild(symbols[i], recon, i, cfg.size))
  {
    hide Join, Rebuild;
    InRecon(cfg.k, cfg.size, i);
  }

  lemma RebuiltMeta(meta: Symbol, recon: seq<byte>, i: nat, size: nat)
    requires meta.len <= size && 0 <= i * size && i * size + size <= |recon|
    ensures var s := Rebuild(meta, recon, i, size);
      s.len <= |s.data| && s.index == meta.index && s.total == meta.total
  {
  }

  lemma PlanLength(cfg: TxConfig, ps: seq<PacketBytes>, q: nat, j: nat)
    requires Packed(cfg, ps) && q < |ps| && j < Count(|ps[q]|, cfg.size)
    ensures StartOf(cfg, ps, q) + j < cfg.k
    ensures SourcePlan(cfg, ps)[StartOf(cfg, ps, q) + j].len != 0
    ensures SourcePlan(cfg, ps)[StartOf(cfg, ps, q) + j].index == j
    ensures SourcePlan(cfg, ps)[StartOf(cfg, ps, q) + j].total == Count(|ps[q]|, cfg.size)
  {
    hide Layout, SourcePlan;
    Placement(cfg, ps, q, j);
    CountBounds(|ps[q]|, cfg.size, j);
  }

  /** Starting with nothing buffered: the packet succeeds only if all its fragments arrive. */
  lemma {:induction false} FreshPacket(cfg: TxConfig, ps: seq<PacketBytes>, symbols: seq<Symbol>, recon: seq<byte>, id: uint32,
                                       q: nat, j: nat)
    requires Partial(cfg, ps, symbols, recon, id) && q < |ps| && j <= Count(|ps[q]|, cfg.size)
    requires StartOf(cfg, ps, q) + j <= cfg.k
    requires ScanTo(cfg.k, cfg.size, symbols, recon, StartOf(cfg, ps, q)).buffer == []
    ensures var a, t := StartOf(cfg, ps, q), Count(|ps[q]|, cfg.size);
      var g0, g := ScanTo(cfg.k, cfg.size, symbols, recon, a), ScanTo(cfg.k, cfg.size, symbols, recon, a + j);
      var r := Arrived(symbols, a, j);
      && Waiting(g) && Successes(g0) <= Successes(g)
      && (if r < t then Successes(g) == Successes(g0) && |g.buffer| == r && (r > 0 ==> g.buffer[0].total == t)
          else Successes(g) <= Successes(g0) + 1 && g.buffer == [])
  {
    hide Count, StartOf, Layout, Join, Rebuild, SourcePlan, SourceBytes, LostAt, ScanTo, Successes, Packed, Scannable, HasPayload;
    PartialParts(cfg, ps, symbols, recon, id);
    PacketSizes(cfg, ps, q);
    if j > 0 {
      FreshPacket(cfg, ps, symbols, recon, id, q, j - 1);
      var i := PositionOf(cfg, ps, symbols, recon, id, q, j - 1);
      ScanOne(cfg, symbols, recon, i);
      if symbols[i].len != 0 {
        RebuiltMeta(symbols[i], recon, i, cfg.size);
        JoinCounts(ScanTo(cfg.k, cfg.size, symbols, recon, i), Rebuild(symbols[i], recon, i, cfg.size));
      }
    }
  }

  /** Starting with an earlier packet's leftovers: at most one success, theirs or this packet's. */
  lemma {:induction false} LatePacket(cfg: TxConfig, ps: seq<PacketBytes>, symbols: seq<Symbol>, recon: seq<byte>, id: uint32,
                                      q: nat, j: nat)
    requires Partial(cfg, ps, symbols, recon, id) && q < |ps| && j <= Count(|ps[q]|, cfg.size)
    requires StartOf(cfg, ps, q) + j <= cfg.k
    requires Waiting(ScanTo(cfg.k, cfg.size, symbols, recon, StartOf(cfg, ps, q)))
    ensures var a, t := StartOf(cfg, ps, q), Count(|ps[q]|, cfg.size);
      var g0, g := ScanTo(cfg.k, cfg.size, symbols, recon, a), ScanTo(cfg.k, cfg.size, symbols, recon, a + j);
      && Waiting(g) && Successes(g0) <= Successes(g) <= Successes(g0) + 1
      && (Successes(g) == Successes(g0) + 1 ==>
            |g.buffer| < Arrived(symbols, a, j) && (g.buffer != [] ==> g.buffer[0].total == t))
  {
    hide Count, StartOf, Layout, Join, Rebuild, SourcePlan, SourceBytes, LostAt, ScanTo, Successes, Packed, Scannable, HasPayload;
    PartialParts(cfg, ps, symbols, recon, id);
    PacketSizes(cfg, ps, q);
    if j > 0 {
      LatePacket(cfg, ps, symbols, recon, id, q, j - 1);
      var i := PositionOf(cfg, ps, symbols, recon, id, q, j - 1);
      ScanOne(cfg, symbols, recon, i);
      if symbols[i].len != 0 {
        RebuiltMeta(symbols[i], recon, i, cfg.size);
        JoinCounts(ScanTo(cfg.k, cfg.size, symbols, recon, i), Rebuild(symbols[i], recon, i, cfg.size));
      }
    }
  }

  lemma PartialParts(cfg: TxConfig, ps: seq<PacketBytes>, symbols: seq<Symbol>, recon: seq<byte>, id: uint32)
    requires Partial(cfg, ps, symbols, recon, id)
    ensures Packed(cfg, ps) && Scannable(cfg.k, cfg.size, symbols, recon) && cfg.size > 0 && cfg.k <= |symbols|
  {
  }

  // ---------------------------------------------------------------------------
  // The whole block
  // ---------------------------------------------------------------------------

  lemma {:induction false} AllArrived(symbols: seq<Symbol>, a: nat, j: nat)
    requires a + j <= |symbols|
    ensures Arrived(symbols, a, j) == j <==> forall x :: a <= x < a + j ==> symbols[x].len != 0
  {
    if j > 0 { AllArrived(symbols, a, j - 1); }
  }

  /** After the first q packets: no more successes than packets, fewer if anything was lost or is left over. */
  ghost predicate Behind(cfg: TxConfig, ps: seq<PacketBytes>, symbols: seq<Symbol>, recon: seq<byte>, id: uint32, q: nat)
    requires Partial(cfg, ps, symbols, recon, id) && q <= |ps| && StartOf(cfg, ps, q) <= cfg.k
  {
    var gr := ScanTo(cfg.k, cfg.size, symbols, recon, StartOf(cfg, ps, q));
    && Waiting(gr) && Successes(gr) <= q
    && (gr.buffer != [] ==> Successes(gr) < q)
    && (!NoneLost(cfg, ps, symbols, StartOf(cfg, ps, q)) ==> Successes(gr) < q)
  }

  /** Losses among packet q's positions are exactly its missing fragments. */
  lemma PacketLosses(cfg: TxConfig, ps: seq<PacketBytes>, symbols: seq<Symbol>, recon: seq<byte>, id: uint32, q: nat)
    requires Partial(cfg, ps, symbols, recon, id) && q < |ps|
    ensures var a, t := StartOf(cfg, ps, q), Count(|ps[q]|, cfg.size);
      && a + t == StartOf(cfg, ps, q + 1) <= cfg.k <= |symbols|
      && (NoneLost(cfg, ps, symbols, a + t) <==> NoneLost(cfg, ps, symbols, a) && Arrived(symbols, a, t) == t)
  {
    hide Count, StartOf, Layout, Partial, Packed, NoneLost, LostAt;
    PartialParts(cfg, ps, symbols, recon, id);
    NextStart(cfg, ps, q);
    LayoutBound(cfg, ps);
    var a, t := StartOf(cfg, ps, q), Count(|ps[q]|, cfg.size);
    AllArrived(symbols, a, t);
    forall x | a <= x < a + t ensures LostAt(cfg, ps, symbols, x) == (symbols[x].len == 0) {
      var i := PositionOf(cfg, ps, symbols, recon, id, q, x - a);
    }
    LossesSplit(cfg, ps, symbols, a, t);
  }

  lemma LossesSplit(cfg: TxConfig, ps: seq<PacketBytes>, symbols: seq<Symbol>, a: nat, t: nat)
    requires Packed(cfg, ps) && a + t <= cfg.k <= |symbols|
    ensures NoneLost(cfg, ps, symbols, a + t)
            <==> NoneLost(cfg, ps, symbols, a) && forall x :: a <= x < a + t ==> !LostAt(cfg, ps, symbols, x)
  {
    hide LostAt, Packed;
  }

  lemma LayoutBound(cfg: TxConfig, ps: seq<PacketBytes>)
    requires Packed(cfg, ps)
    ensures |Layout(cfg, ps)| <= cfg.k
  {
  }

  lemma {:induction false} StaysBehind(cfg: TxConfig, ps: seq<PacketBytes>, symbols: seq<Symbol>, recon: seq<byte>, id: uint32, q: nat)
    requires Partial(cfg, ps, symbols, recon, id) && q <= |ps| && StartOf(cfg, ps, q) <= cfg.k
    ensures Behind(cfg, ps, symbols, recon, id, q)
  {
    hide Count, Layout, Join, Rebuild, SourcePlan, SourceBytes, LostAt, Partial, OneBlock;
    PartialParts(cfg, ps, symbols, recon, id);
    if q == 0 {
      assert ScanTo(cfg.k, cfg.size, symbols, recon, 0) == Group([], []);
      assert ps[..0] == [] && StartOf(cfg, ps, 0) == 0 by { NothingScanned(cfg, ps, symbols, recon); }
    } else {
      hide StartOf, ScanTo, Successes, NoneLost;
      PacketLosses(cfg, ps, symbols, recon, id, q - 1);
      StaysBehind(cfg, ps, symbols, recon, id, q - 1);
      var t := Count(|ps[q - 1]|, cfg.size);
      if ScanTo(cfg.k, cfg.size, symbols, recon, StartOf(cfg, ps, q - 1)).buffer == [] {
        FreshPacket(cfg, ps, symbols, recon, id, q - 1, t);
      } else {
        LatePacket(cfg, ps, symbols, recon, id, q - 1, t);
      }
    }
  }

  /** Padding positions are skipped. */
  lemma {:induction false} SkipPadding(cfg: TxConfig, ps: seq<PacketBytes>, symbols: seq<Symbol>, recon: seq<byte>, id: uint32, i: nat)
    requires Partial(cfg, ps, symbols, recon, id) && |Layout(cfg, ps)| <= i <= cfg.k
    ensures ScanTo(cfg.k, cfg.size, symbols, recon, i) == ScanTo(cfg.k, cfg.size, symbols, recon, |Layout(cfg, ps)|)
    ensures NoneLost(cfg, ps, symbols, i) <==> NoneLost(cfg, ps, symbols, |Layout(cfg, ps)|)
  {
    hide Layout, SourceBytes, Join, Rebuild;
    if i > |Layout(cfg, ps)| {
      SkipPadding(cfg, ps, symbols, recon, id, i - 1);
      assert SourcePlan(cfg, ps)[i - 1].len == 0;
    }
  }

  /** What is left at the end is an incomplete group, and fails. */
  lemma EndCounts(cfg: TxConfig, symbols: seq<Symbol>, recon: seq<byte>)
    requires Scannable(cfg.k, cfg.size, symbols, recon)
    requires Waiting(ScanTo(cfg.k, cfg.size, symbols, recon, cfg.k))
    ensures |Sent(Groups(cfg.k, cfg.size, symbols, recon))| == Successes(ScanTo(cfg.k, cfg.size, symbols, recon, cfg.k))
  {
    hide ScanTo;
    var gr := ScanTo(cfg.k, cfg.size, symbols, recon, cfg.k);
    if gr.buffer != [] { IncompleteFails(gr); }
  }

  /** A lost fragment leaves fewer packets sent than the block carries. */
  lemma LossCosts(cfg: TxConfig, ps: seq<PacketBytes>, symbols: seq<Symbol>, recon: seq<byte>, id: uint32)
    requires Partial(cfg, ps, symbols, recon, id)
    ensures var sent := |Sent(Groups(cfg.k, cfg.size, symbols, recon))|;
      sent <= |ps| && (!NoneLost(cfg, ps, symbols, cfg.k) ==> sent < |ps|)
  {
    hide Layout, Join, Rebuild, SourcePlan, SourceBytes, LostAt, ScanTo, StartOf, NoneLost, Groups, OneBlock;
    PartialParts(cfg, ps, symbols, recon, id);
    EndsAtLayout(cfg, ps);
    StaysBehind(cfg, ps, symbols, recon, id, |ps|);
    SkipPadding(cfg, ps, symbols, recon, id, cfg.k);
    EndCounts(cfg, symbols, recon);
  }

  /**
   With the lost positions' metadata still blank, the packets sent are the packets carried exactly
   when no lost position carried a fragment: losing repairs or padding is harmless, losing any
   fragment is not, although the decoder restored its bytes.
   */
  lemma PacketsSurviveIff(cfg: TxConfig, ps: seq<PacketBytes>, symbols: seq<Symbol>, recon: seq<byte>, id: uint32)
    requires Partial(cfg, ps, symbols, recon, id)
    ensures Sent(Groups(cfg.k, cfg.size, symbols, recon)) == ps <==> NoneLost(cfg, ps, symbols, cfg.k)
  {
    hide Layout, SourceBytes, Groups, Sent;
    LossCosts(cfg, ps, symbols, recon, id);
    if NoneLost(cfg, ps, symbols, cfg.k) {
      var full := Patched(cfg, ps, symbols, id);
      PatchScans(cfg, ps, symbols, full, recon, id);
      GroupingTheorem(cfg, ps, full, recon, id);
    }
  }

  /** Lost padding positions, written as if they had arrived. */
  ghost function Patched(cfg: TxConfig, ps: seq<PacketBytes>, symbols: seq<Symbol>, id: uint32): (full: seq<Symbol>)
    requires Packed(cfg, ps) && cfg.k <= |symbols|
    ensures |full| == |symbols|
    ensures forall i :: 0 <= i < |symbols| ==>
              full[i] == if i < cfg.k && symbols[i].len == 0
                         then SourcePlan(cfg, ps)[i].(packetId := id) else symbols[i]
  {
    seq(|symbols|, i requires 0 <= i < |symbols| =>
      if i < cfg.k && symbols[i].len == 0 then SourcePlan(cfg, ps)[i].(packetId := id) else symbols[i])
  }

  lemma PlanIds(cfg: TxConfig, ps: seq<PacketBytes>, i: nat)
    requires Packed(cfg, ps) && i < cfg.k
    ensures SourcePlan(cfg, ps)[i].fecId == 0
  {
    LayoutIds(cfg, ps);
  }

  lemma {:induction false} LayoutIds(cfg: TxConfig, ps: seq<PacketBytes>)
    requires ValidTx(cfg) && forall i :: 0 <= i < |ps| ==> OneBlock(cfg, ps[i])
    ensures forall i :: 0 <= i < |Layout(cfg, ps)| ==> Layout(cfg, ps)[i].fecId == 0
  {
    if ps != [] { LayoutIds(cfg, ps[..|ps| - 1]); }
  }

  /** Patching changes nothing the loop looks at. */
  lemma PatchScans(cfg: TxConfig, ps: seq<PacketBytes>, symbols: seq<Symbol>, full: seq<Symbol>, recon: seq<byte>, id: uint32)
    requires Partial(cfg, ps, symbols, recon, id) && NoneLost(cfg, ps, symbols, cfg.k)
    requires full == Patched(cfg, ps, symbols, id)
    ensures Intact(cfg, ps, full, recon, id)
    ensures Groups(cfg.k, cfg.size, full, recon) == Groups(cfg.k, cfg.size, symbols, recon)
  {
    hide Layout, SourceBytes, SourcePlan, OneBlock;
    forall i | 0 <= i < cfg.k
      ensures Matches(full[i], SourcePlan(cfg, ps)[i], cfg.k) && full[i].packetId == id && full[i].len <= cfg.size
      ensures full[i].len == symbols[i].len && (symbols[i].len != 0 ==> full[i] == symbols[i])
    {
      PlanIds(cfg, ps, i);
      assert !LostAt(cfg, ps, symbols, i);
    }
    SameScan(cfg, symbols, full, recon, cfg.k);
  }

  lemma {:induction false} SameScan(cfg: TxConfig, a: seq<Symbol>, b: seq<Symbol>, recon: seq<byte>, n: nat)
    requires Scannable(cfg.k, cfg.size, a, recon) && Scannable(cfg.k, cfg.size, b, recon) && n <= cfg.k
    requires forall i :: 0 <= i < cfg.k ==> a[i].len == b[i].len && (a[i].len != 0 ==> a[i] == b[i])
    ensures ScanTo(cfg.k, cfg.size, a, recon, n) == ScanTo(cfg.k, cfg.size, b, recon, n)
  {
    hide Join, Rebuild;
    if n > 0 { SameScan(cfg, a, b, recon, n - 1); }
  }
}
