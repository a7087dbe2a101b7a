/** Which packets the grouping loop sends, whatever was lost and whatever stale metadata lost positions still hold. */
module RxSurvivors {
  import opened Types
  import opened Fragmentation
  import opened TxHistory
  import opened RxGrouping
  import Acceptance

  // ---------------------------------------------------------------------------
  // The loop on metadata alone
  // ---------------------------------------------------------------------------

  /** The positions buffered, and those of every group flushed so far. */
  datatype Trace = Trace(open: seq<nat>, closed: seq<seq<nat>>)

  predicate Within(g: seq<nat>, symbols: seq<Symbol>) {
    forall x :: 0 <= x < |g| ==> g[x] < |symbols|
  }

  predicate FullAt(symbols: seq<Symbol>, g: seq<nat>)
    requires Within(g, symbols)
  {
    g != [] && |g| >= symbols[g[0]].total
  }

  /** What a symbol is added to: nothing when what is buffered is complete, or the symbol starts a packet. */
  function Opened(symbols: seq<Symbol>, tr: Trace, i: nat): (r: Trace)
    requires Within(tr.open, symbols) && i < |symbols|
    ensures Within(r.open, symbols)
  {
    if tr.open != [] && (FullAt(symbols, tr.open) || symbols[i].index == 0) then Trace([], tr.closed + [tr.open]) else tr
  }

  function Extended(symbols: seq<Symbol>, tr: Trace, i: nat): (r: Trace)
    requires Within(tr.open, symbols) && i < |symbols|
    ensures Within(r.open, symbols)
  {
    if |tr.open| < MAX_SYMBOLS_PER_BLOCK then Trace(tr.open + [i], tr.closed) else tr
  }

  function Settled(symbols: seq<Symbol>, tr: Trace): (r: Trace)
    requires Within(tr.open, symbols)
    ensures Within(r.open, symbols)
  {
    if FullAt(symbols, tr.open) then Trace([], tr.closed + [tr.open]) else tr
  }

  function JoinAt(symbols: seq<Symbol>, tr: Trace, i: nat): (r: Trace)
    requires Within(tr.open, symbols) && i < |symbols|
    ensures Within(r.open, symbols)
  {
    Settled(symbols, Extended(symbols, Opened(symbols, tr, i), i))
  }

  function TraceTo(k: nat, symbols: seq<Symbol>, i: nat): (tr: Trace)
    requires i <= k <= |symbols|
    ensures Within(tr.open, symbols)
  {
    if i == 0 then Trace([], [])
    else if HasPayload(symbols[i - 1], k) then JoinAt(symbols, TraceTo(k, symbols, i - 1), i - 1)
    else TraceTo(k, symbols, i - 1)
  }

  /** All groups of a block, the one left over at the end included. */
  function ClosedGroups(k: nat, symbols: seq<Symbol>): seq<seq<nat>>
    requires k <= |symbols|
  {
    var tr := TraceTo(k, symbols, k);
    if tr.open != [] then tr.closed + [tr.open] else tr.closed
  }

  /** Group positions are source positions with payload. */
  predicate SourceGroup(k: nat, symbols: seq<Symbol>, g: seq<nat>)
    requires k <= |symbols|
  {
    g != [] && forall x :: 0 <= x < |g| ==> g[x] < k && HasPayload(symbols[g[x]], k)
  }

  /**
   Between positions: what is buffered is incomplete, only its first symbol may start a packet, and every
   group is made of source positions with payload.
   */
  ghost predicate Tidy(k: nat, symbols: seq<Symbol>, tr: Trace, i: nat)
    requires k <= |symbols|
  {
    && Within(tr.open, symbols) && |tr.open| <= i
    && (tr.open != [] ==> SourceGroup(k, symbols, tr.open) && !FullAt(symbols, tr.open))
    && (forall x :: 1 <= x < |tr.open| ==> symbols[tr.open[x]].index != 0)
    && (forall c :: 0 <= c < |tr.closed| ==> SourceGroup(k, symbols, tr.closed[c]))
  }

  /** What position i adds: the buffered group given up incomplete, or a group that i completes, or neither. */
  ghost function Ended(symbols: seq<Symbol>, tr: Trace, i: nat): (g: seq<nat>)
    requires Within(tr.open, symbols) && i < |symbols|
    ensures Within(g, symbols) && g != [] && g[|g| - 1] == i
  {
    (if symbols[i].index == 0 then [] else tr.open) + [i]
  }

  /** The groups closed before position i joins. */
  ghost function Given(symbols: seq<Symbol>, tr: Trace, i: nat): seq<seq<nat>>
    requires i < |symbols|
  {
    if tr.open != [] && symbols[i].index == 0 then tr.closed + [tr.open] else tr.closed
  }

  lemma JoinIs(symbols: seq<Symbol>, tr: Trace, i: nat)
    requires i < |symbols| && Within(tr.open, symbols) && |tr.open| < MAX_SYMBOLS_PER_BLOCK && !FullAt(symbols, tr.open)
    ensures var g := Ended(symbols, tr, i);
      JoinAt(symbols, tr, i) ==
        if FullAt(symbols, g) then Trace([], Given(symbols, tr, i) + [g]) else Trace(g, Given(symbols, tr, i))
  {
    hide FullAt;
    assert tr.open == [] ==> tr.open + [i] == [] + [i];
  }

  lemma EndedTidy(k: nat, symbols: seq<Symbol>, tr: Trace, i: nat)
    requires k <= |symbols| && i < k && Tidy(k, symbols, tr, i) && HasPayload(symbols[i], k)
    ensures var g := Ended(symbols, tr, i);
      && |g| <= i + 1 && SourceGroup(k, symbols, g)
      && (forall x :: 1 <= x < |g| ==> symbols[g[x]].index != 0)
    ensures forall c :: 0 <= c < |Given(symbols, tr, i)| ==> SourceGroup(k, symbols, Given(symbols, tr, i)[c])
  {
    hide HasPayload, FullAt;
  }

  lemma JoinTidy(k: nat, symbols: seq<Symbol>, tr: Trace, i: nat)
    requires k <= |symbols| && i < k < MAX_SYMBOLS_PER_BLOCK && Tidy(k, symbols, tr, i) && HasPayload(symbols[i], k)
    ensures Tidy(k, symbols, JoinAt(symbols, tr, i), i + 1)
  {
    EndedTidy(k, symbols, tr, i);
    JoinIs(symbols, tr, i);
    hide HasPayload, JoinAt, Ended, Given, SourceGroup;
  }

  lemma {:induction false} TraceTidy(k: nat, symbols: seq<Symbol>, i: nat)
    requires i <= k <= |symbols| && k < MAX_SYMBOLS_PER_BLOCK
    ensures Tidy(k, symbols, TraceTo(k, symbols, i), i)
  {
    hide HasPayload, JoinAt;
    if i > 0 {
      TraceTidy(k, symbols, i - 1);
      if HasPayload(symbols[i - 1], k) {
        hide Tidy;
        JoinTidy(k, symbols, TraceTo(k, symbols, i - 1), i - 1);
      }
    }
  }

  // ---------------------------------------------------------------------------
  // The loop itself
  // ---------------------------------------------------------------------------

  ghost predicate Below(g: seq<nat>, k: nat) {
    forall x :: 0 <= x < |g| ==> g[x] < k
  }

  /** The reconstructed symbol of position p. */
  function RebuiltAt(k: nat, size: nat, symbols: seq<Symbol>, recon: seq<byte>, p: nat): (s: Symbol)
    requires Scannable(k, size, symbols, recon) && p < k
    ensures s.len <= |s.data| && s.len == symbols[p].len && s.index == symbols[p].index
    ensures s.total == symbols[p].total && s.packetId == symbols[p].packetId
  {
    InRecon(k, size, p);
    Rebuild(symbols[p], recon, p, size)
  }

  function RebuiltAll(k: nat, size: nat, symbols: seq<Symbol>, recon: seq<byte>, g: seq<nat>): (b: seq<Symbol>)
    requires Scannable(k, size, symbols, recon) && Below(g, k)
    ensures |b| == |g| && Sized(b)
    ensures forall x :: 0 <= x < |g| ==> b[x] == RebuiltAt(k, size, symbols, recon, g[x])
  {
    seq(|g|, x requires 0 <= x < |g| => RebuiltAt(k, size, symbols, recon, g[x]))
  }

  ghost predicate AllBelow(gs: seq<seq<nat>>, k: nat) {
    forall c :: 0 <= c < |gs| ==> Below(gs[c], k)
  }

  /** What the groups come to. */
  function Results(k: nat, size: nat, symbols: seq<Symbol>, recon: seq<byte>, gs: seq<seq<nat>>): (r: seq<Reassembled>)
    requires Scannable(k, size, symbols, recon) && AllBelow(gs, k)
  {
    if gs == [] then []
    else
      Results(k, size, symbols, recon, gs[..|gs| - 1])
      + [Reassemble(RebuiltAll(k, size, symbols, recon, gs[|gs| - 1]), REASSEM_BUF_SIZE)]
  }

  lemma ResultsMore(k: nat, size: nat, symbols: seq<Symbol>, recon: seq<byte>, gs: seq<seq<nat>>, g: seq<nat>)
    requires Scannable(k, size, symbols, recon) && AllBelow(gs, k) && Below(g, k)
    ensures AllBelow(gs + [g], k)
    ensures Results(k, size, symbols, recon, gs + [g]) == Results(k, size, symbols, recon, gs)
      + [Reassemble(RebuiltAll(k, size, symbols, recon, g), REASSEM_BUF_SIZE)]
  {
    hide Reassemble, RebuiltAll;
    assert (gs + [g])[..|gs|] == gs;
  }

  /** A trace as the loop's own state. */
  function AsGroup(k: nat, size: nat, symbols: seq<Symbol>, recon: seq<byte>, tr: Trace): Group
    requires Scannable(k, size, symbols, recon) && Below(tr.open, k) && AllBelow(tr.closed, k)
  {
    Group(RebuiltAll(k, size, symbols, recon, tr.open), Results(k, size, symbols, recon, tr.closed))
  }

  lemma FlushMatches(k: nat, size: nat, symbols: seq<Symbol>, recon: seq<byte>, tr: Trace)
    requires Scannable(k, size, symbols, recon) && Below(tr.open, k) && AllBelow(tr.closed, k)
    ensures AllBelow(tr.closed + [tr.open], k)
    ensures AsGroup(k, size, symbols, recon, Trace([], tr.closed + [tr.open])) == FlushGroup(AsGroup(k, size, symbols, recon, tr))
  {
    hide Reassemble;
    ResultsMore(k, size, symbols, recon, tr.closed, tr.open);
  }

  lemma FullMatches(k: nat, size: nat, symbols: seq<Symbol>, recon: seq<byte>, g: seq<nat>)
    requires Scannable(k, size, symbols, recon) && Below(g, k)
    ensures Within(g, symbols) && (CompleteGroup(RebuiltAll(k, size, symbols, recon, g)) <==> FullAt(symbols, g))
  {
    hide Rebuild;
  }

  lemma JoinMatches(k: nat, size: nat, symbols: seq<Symbol>, recon: seq<byte>, tr: Trace, i: nat)
    requires Scannable(k, size, symbols, recon) && Below(tr.open, k) && AllBelow(tr.closed, k) && i < k
    ensures Within(tr.open, symbols)
    ensures var r := JoinAt(symbols, tr, i); Below(r.open, k) && AllBelow(r.closed, k)
    ensures AsGroup(k, size, symbols, recon, JoinAt(symbols, tr, i))
         == Join(AsGroup(k, size, symbols, recon, tr), RebuiltAt(k, size, symbols, recon, i))
  {
    hide Reassemble, RebuiltAt, Results, FullAt, CompleteGroup, FlushGroup;
    FullMatches(k, size, symbols, recon, tr.open);
    FlushMatches(k, size, symbols, recon, tr);
    var a := Opened(symbols, tr, i);
    var b := Extended(symbols, a, i);
    ExtendMatches(k, size, symbols, recon, a, i);
    FullMatches(k, size, symbols, recon, b.open);
    FlushMatches(k, size, symbols, recon, b);
  }

  lemma ExtendMatches(k: nat, size: nat, symbols: seq<Symbol>, recon: seq<byte>, tr: Trace, i: nat)
    requires Scannable(k, size, symbols, recon) && Below(tr.open, k) && AllBelow(tr.closed, k) && i < k
    requires Within(tr.open, symbols)
    ensures Below(Extended(symbols, tr, i).open, k)
    ensures AsGroup(k, size, symbols, recon, Extended(symbols, tr, i))
         == Buffered(AsGroup(k, size, symbols, recon, tr), RebuiltAt(k, size, symbols, recon, i))
  {
    hide Reassemble, RebuiltAt, Results;
    if |tr.open| < MAX_SYMBOLS_PER_BLOCK {
      assert RebuiltAll(k, size, symbols, recon, tr.open + [i])
          == RebuiltAll(k, size, symbols, recon, tr.open) + [RebuiltAt(k, size, symbols, recon, i)];
    }
  }

  /** The trace follows the loop. */
  lemma {:induction false} ScanMatches(k: nat, size: nat, symbols: seq<Symbol>, recon: seq<byte>, i: nat)
    requires Scannable(k, size, symbols, recon) && i <= k
    ensures var tr := TraceTo(k, symbols, i);
      && Below(tr.open, k) && AllBelow(tr.closed, k)
      && ScanTo(k, size, symbols, recon, i) == AsGroup(k, size, symbols, recon, tr)
  {
    hide Join, JoinAt, Rebuild, HasPayload, RebuiltAt;
    if i > 0 {
      ScanMatches(k, size, symbols, recon, i - 1);
      InRecon(k, size, i - 1);
      if HasPayload(symbols[i - 1], k) {
        JoinMatches(k, size, symbols, recon, TraceTo(k, symbols, i - 1), i - 1);
        RebuiltIs(k, size, symbols, recon, i - 1);
      }
    }
  }

  lemma RebuiltIs(k: nat, size: nat, symbols: seq<Symbol>, recon: seq<byte>, p: nat)
    requires Scannable(k, size, symbols, recon) && p < k
    ensures p * size + size <= |recon| && RebuiltAt(k, size, symbols, recon, p) == Rebuild(symbols[p], recon, p, size)
  {
    InRecon(k, size, p);
  }

  lemma GroupsMatch(k: nat, size: nat, symbols: seq<Symbol>, recon: seq<byte>)
    requires Scannable(k, size, symbols, recon)
    ensures AllBelow(ClosedGroups(k, symbols), k)
    ensures Groups(k, size, symbols, recon) == Results(k, size, symbols, recon, ClosedGroups(k, symbols))
  {
    hide Reassemble, ScanTo, TraceTo;
    ScanMatches(k, size, symbols, recon, k);
    FlushMatches(k, size, symbols, recon, TraceTo(k, symbols, k));
  }

  // ---------------------------------------------------------------------------
  // What a group comes to is decided by metadata
  // ---------------------------------------------------------------------------

  function Metas(symbols: seq<Symbol>, g: seq<nat>): (m: seq<Symbol>)
    requires Within(g, symbols)
    ensures |m| == |g| && forall x :: 0 <= x < |g| ==> m[x] == symbols[g[x]]
  {
    seq(|g|, x requires 0 <= x < |g| => symbols[g[x]])
  }

  /** The group's stored metadata is such that reassembly succeeds. */
  ghost predicate Accepted(symbols: seq<Symbol>, g: seq<nat>)
    requires Within(g, symbols)
  {
    Acceptance.AcceptedSet(Metas(symbols, g), REASSEM_BUF_SIZE)
  }

  /** The group is one stretch of positions, all of them received. */
  ghost predicate Genuine(symbols: seq<Symbol>, g: seq<nat>)
    requires Within(g, symbols)
  {
    forall x :: 0 <= x < |g| ==> g[x] == g[0] + x && symbols[g[x]].packetId != 0
  }

  ghost predicate SameMeta(a: seq<Symbol>, b: seq<Symbol>) {
    |a| == |b| && forall x :: 0 <= x < |a| ==>
      a[x].index == b[x].index && a[x].total == b[x].total && a[x].packetId == b[x].packetId && a[x].len == b[x].len
  }

  lemma StrideSame(a: seq<Symbol>, b: seq<Symbol>, f: nat, max: nat)
    requires SameMeta(a, b) && Acceptance.StrideAt(a, f, max)
    ensures Acceptance.StrideAt(b, f, max)
  {
    forall i: nat | i < |a|
      ensures Acceptance.Consistent(a, i) == Acceptance.Consistent(b, i) && Acceptance.Last(a, i) == Acceptance.Last(b, i)
    {
      ChecksSame(a, b, i);
    }
  }

  lemma ChecksSame(a: seq<Symbol>, b: seq<Symbol>, i: nat)
    requires SameMeta(a, b) && i < |a|
    ensures Acceptance.Consistent(a, i) == Acceptance.Consistent(b, i) && Acceptance.Last(a, i) == Acceptance.Last(b, i)
  {
    assert a[0].total == b[0].total && a[i].index == b[i].index;
  }

  lemma AcceptedSame(a: seq<Symbol>, b: seq<Symbol>, max: nat)
    requires SameMeta(a, b) && Acceptance.AcceptedSet(a, max)
    ensures Acceptance.AcceptedSet(b, max)
  {
    hide Acceptance.StrideAt;
    if Acceptance.OnlyLastSymbols(a, max) {
      forall i: nat | i < |b| ensures Acceptance.Consistent(b, i) && Acceptance.Last(b, i) {
        assert Acceptance.Consistent(a, i) && Acceptance.Last(a, i);
        ChecksSame(a, b, i);
      }
      assert a[0].len == b[0].len && Acceptance.OnlyLastSymbols(b, max);
    } else {
      var f: nat :| Acceptance.StrideAt(a, f, max);
      StrideSame(a, b, f, max);
    }
  }

  lemma {:induction false} PlacedLength(syms: seq<Symbol>, stride: nat, i: nat, buf: seq<byte>, len: nat)
    requires i <= |syms| && len <= |buf| && Acceptance.Sized(syms)
    requires PlaceFrom(syms, stride, i, buf, len).Packet?
    ensures |PlaceFrom(syms, stride, i, buf, len).bytes| >= len
    ensures i < |syms| ==> |PlaceFrom(syms, stride, i, buf, len).bytes| >= syms[i].len
    decreases |syms| - i
  {
    if i < |syms| {
      var end := Offset(syms[i].index, stride) + syms[i].len;
      var buf' := Overwrite(buf, Offset(syms[i].index, stride), syms[i].data[..syms[i].len]);
      PlacedLength(syms, stride, i + 1, buf', if end > len then end else len);
    }
  }

  /** An accepted set of symbols with payload gives a non-empty packet. */
  lemma SomeBytes(syms: seq<Symbol>, max: nat)
    requires Acceptance.Sized(syms) && Reassemble(syms, max).Packet? && forall x :: 0 <= x < |syms| ==> syms[x].len > 0
    ensures Reassemble(syms, max).bytes != []
  {
    hide PlaceFrom;
    match InferStride(syms, syms[0].packetId, syms[0].total, 0)
    case Found(stride) => PlacedLength(syms, stride, 0, Zeros(max), 0);
    case _ =>
  }

  lemma GroupAccepted(k: nat, size: nat, symbols: seq<Symbol>, recon: seq<byte>, g: seq<nat>)
    requires Scannable(k, size, symbols, recon) && SourceGroup(k, symbols, g)
    ensures Below(g, k) && Within(g, symbols)
    ensures var r := Reassemble(RebuiltAll(k, size, symbols, recon, g), REASSEM_BUF_SIZE);
      (r.Packet? <==> Accepted(symbols, g)) && (r.Packet? ==> r.bytes != [])
  {
    hide Reassemble, Acceptance.AcceptedSet, RebuiltAt;
    var b := RebuiltAll(k, size, symbols, recon, g);
    RebuiltMetas(k, size, symbols, recon, g);
    Acceptance.AcceptedIff(b, REASSEM_BUF_SIZE);
    if Acceptance.AcceptedSet(b, REASSEM_BUF_SIZE) {
      AcceptedSame(b, Metas(symbols, g), REASSEM_BUF_SIZE);
      SomeBytes(b, REASSEM_BUF_SIZE);
    }
    if Accepted(symbols, g) { AcceptedSame(Metas(symbols, g), b, REASSEM_BUF_SIZE); }
  }

  lemma RebuiltMetas(k: nat, size: nat, symbols: seq<Symbol>, recon: seq<byte>, g: seq<nat>)
    requires Scannable(k, size, symbols, recon) && SourceGroup(k, symbols, g)
    ensures Below(g, k) && Within(g, symbols)
    ensures var b := RebuiltAll(k, size, symbols, recon, g);
      SameMeta(b, Metas(symbols, g)) && SameMeta(Metas(symbols, g), b) && forall x :: 0 <= x < |b| ==> b[x].len > 0
  {
    hide RebuiltAt;
  }

  // ---------------------------------------------------------------------------
  // What is sent, and what of it is genuine
  // ---------------------------------------------------------------------------

  ghost predicate AllSource(k: nat, symbols: seq<Symbol>, gs: seq<seq<nat>>)
    requires k <= |symbols|
  {
    forall c :: 0 <= c < |gs| ==> SourceGroup(k, symbols, gs[c])
  }

  /** The bytes an accepted group comes to. */
  ghost function BytesOf(k: nat, size: nat, symbols: seq<Symbol>, recon: seq<byte>, g: seq<nat>): PacketBytes
    requires Scannable(k, size, symbols, recon) && SourceGroup(k, symbols, g) && Within(g, symbols) && Accepted(symbols, g)
  {
    GroupAccepted(k, size, symbols, recon, g);
    Reassemble(RebuiltAll(k, size, symbols, recon, g), REASSEM_BUF_SIZE).bytes
  }

  lemma SourceWithin(k: nat, symbols: seq<Symbol>, g: seq<nat>)
    requires k <= |symbols| && SourceGroup(k, symbols, g)
    ensures Within(g, symbols) && Below(g, k)
  {
  }

  /** The bytes of the accepted groups, or of the accepted genuine ones only. */
  ghost function BytesBy(k: nat, size: nat, symbols: seq<Symbol>, recon: seq<byte>, gs: seq<seq<nat>>, genuine: bool)
    : seq<PacketBytes>
    requires Scannable(k, size, symbols, recon) && AllSource(k, symbols, gs)
  {
    if gs == [] then []
    else
      var g := gs[|gs| - 1];
      SourceWithin(k, symbols, g);
      BytesBy(k, size, symbols, recon, gs[..|gs| - 1], genuine)
      + if Accepted(symbols, g) && (genuine ==> Genuine(symbols, g)) then [BytesOf(k, size, symbols, recon, g)] else []
  }

  /** Every accepted group is genuine. */
  ghost predicate NoneSpurious(k: nat, symbols: seq<Symbol>, gs: seq<seq<nat>>)
    requires k <= |symbols| && AllSource(k, symbols, gs)
  {
    forall c :: 0 <= c < |gs| ==> (SourceWithin(k, symbols, gs[c]); Accepted(symbols, gs[c]) ==> Genuine(symbols, gs[c]))
  }

  lemma {:induction false} SentIs(k: nat, size: nat, symbols: seq<Symbol>, recon: seq<byte>, gs: seq<seq<nat>>)
    requires Scannable(k, size, symbols, recon) && AllSource(k, symbols, gs) && AllBelow(gs, k)
    ensures Sent(Results(k, size, symbols, recon, gs)) == BytesBy(k, size, symbols, recon, gs, false)
  {
    hide Reassemble, Accepted, SourceGroup, RebuiltAll;
    if gs != [] {
      var before, g := gs[..|gs| - 1], gs[|gs| - 1];
      SentIs(k, size, symbols, recon, before);
      GroupAccepted(k, size, symbols, recon, g);
      SentMore(Results(k, size, symbols, recon, before),
               Reassemble(RebuiltAll(k, size, symbols, recon, g), REASSEM_BUF_SIZE));
    }
  }

  lemma SentMore(results: seq<Reassembled>, r: Reassembled)
    ensures Sent(results + [r]) == Sent(results) + if r.Packet? && r.bytes != [] then [r.bytes] else []
  {
    assert (results + [r])[..|results|] == results;
  }

  /** Everything sent is genuine exactly when nothing is sent besides. */
  lemma {:induction false} GenuineOnly(k: nat, size: nat, symbols: seq<Symbol>, recon: seq<byte>, gs: seq<seq<nat>>)
    requires Scannable(k, size, symbols, recon) && AllSource(k, symbols, gs)
    ensures var all, genuine := BytesBy(k, size, symbols, recon, gs, false), BytesBy(k, size, symbols, recon, gs, true);
      && |genuine| <= |all|
      && (NoneSpurious(k, symbols, gs) ==> genuine == all)
      && (!NoneSpurious(k, symbols, gs) ==> |genuine| < |all|)
  {
    hide Accepted, SourceGroup, Genuine, BytesOf;
    if gs != [] {
      var before, g := gs[..|gs| - 1], gs[|gs| - 1];
      GenuineOnly(k, size, symbols, recon, before);
      SourceWithin(k, symbols, g);
      SpuriousSplit(k, symbols, gs);
    }
  }

  lemma SpuriousSplit(k: nat, symbols: seq<Symbol>, gs: seq<seq<nat>>)
    requires k <= |symbols| && AllSource(k, symbols, gs) && gs != []
    ensures var before, g := gs[..|gs| - 1], gs[|gs| - 1];
      && AllSource(k, symbols, before) && Within(g, symbols)
      && (NoneSpurious(k, symbols, gs) <==> NoneSpurious(k, symbols, before) && (Accepted(symbols, g) ==> Genuine(symbols, g)))
  {
    hide Accepted, SourceGroup, Genuine;
    SourceWithin(k, symbols, gs[|gs| - 1]);
  }
}
