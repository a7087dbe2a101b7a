/** Grouping decoded source symbols into packets: the inner loop of drain_ready_blocks (src/rx_pipeline.c). */
module RxGrouping {
  import opened Types
  import opened Fragmentation
  import opened TxSpec
  import opened TxHistory
  import opened FecWrapper
  import BlockBuilding
  import TxPacking
  import Arithmetic

  const REASSEM_BUF_SIZE := 9200

  /** The buffered symbols of the packet being collected, and what the groups so far came to. */
  datatype Group = Group(buffer: seq<Symbol>, results: seq<Reassembled>)

  ghost predicate Sized(syms: seq<Symbol>) {
    forall i :: 0 <= i < |syms| ==> syms[i].len <= |syms[i].data|
  }

  /** The reconstructed symbol: stored metadata, decoded bytes. */
  function Rebuild(meta: Symbol, recon: seq<byte>, i: nat, size: nat): (s: Symbol)
    requires meta.len <= size && i * size + size <= |recon|
    ensures |s.data| == size
  {
    meta.(crc := 0, data := recon[i * size..i * size + meta.len] + Zeros(size - meta.len))
  }

  function FlushGroup(gr: Group): Group
    requires Sized(gr.buffer)
  {
    Group([], gr.results + [Reassemble(gr.buffer, REASSEM_BUF_SIZE)])
  }

  predicate CompleteGroup(buffer: seq<Symbol>) {
    buffer != [] && |buffer| >= buffer[0].total
  }

  /** A new packet, or a group already complete, flushes what is buffered. */
  function Before(gr: Group, s: Symbol): (r: Group)
    requires Sized(gr.buffer)
    ensures Sized(r.buffer)
  {
    if gr.buffer != [] && (CompleteGroup(gr.buffer) || s.index == 0) then FlushGroup(gr) else gr
  }

  /** The symbol is buffered unless the buffer is full. */
  function Buffered(gr: Group, s: Symbol): (r: Group)
    requires Sized(gr.buffer) && s.len <= |s.data|
    ensures Sized(r.buffer)
  {
    if |gr.buffer| < MAX_SYMBOLS_PER_BLOCK then Group(gr.buffer + [s], gr.results) else gr
  }

  /** A group the symbol completes is flushed at once. */
  function After(gr: Group): (r: Group)
    requires Sized(gr.buffer)
    ensures Sized(r.buffer)
  {
    if CompleteGroup(gr.buffer) then FlushGroup(gr) else gr
  }

  /** One reconstructed symbol joins the group, after and before the flushes its arrival causes. */
  function Join(gr: Group, s: Symbol): (r: Group)
    requires Sized(gr.buffer) && s.len <= |s.data|
    ensures Sized(r.buffer) && (|gr.buffer| <= MAX_SYMBOLS_PER_BLOCK ==> |r.buffer| <= MAX_SYMBOLS_PER_BLOCK)
  {
    After(Buffered(Before(gr, s), s))
  }

  /** Positions that hold a source symbol with payload. */
  predicate HasPayload(s: Symbol, k: nat) {
    AsInt(s.fecId) < k && s.len != 0
  }

  /** Decoded bytes for every source position, and metadata within the symbol size. */
  ghost predicate Scannable(k: nat, size: nat, symbols: seq<Symbol>, recon: seq<byte>) {
    && |recon| == k * size && k <= |symbols|
    && forall i :: 0 <= i < k ==> symbols[i].len <= size
  }

  lemma InRecon(k: nat, size: nat, i: nat)
    requires i < k
    ensures 0 <= i * size && i * size + size <= k * size
  {
    Arithmetic.MulMono(size, i + 1, k);
    Arithmetic.Distribute(size, i);
    assert size * (i + 1) == (i + 1) * size && size * k == k * size && size * i == i * size;
  }

  /** The group after the first i source positions. */
  function ScanTo(k: nat, size: nat, symbols: seq<Symbol>, recon: seq<byte>, i: nat): (gr: Group)
    requires Scannable(k, size, symbols, recon) && i <= k
    ensures Sized(gr.buffer) && |gr.buffer| <= MAX_SYMBOLS_PER_BLOCK
  {
    if i == 0 then Group([], [])
    else
      var gr := ScanTo(k, size, symbols, recon, i - 1);
      InRecon(k, size, i - 1);
      if HasPayload(symbols[i - 1], k) then Join(gr, Rebuild(symbols[i - 1], recon, i - 1, size)) else gr
  }

  /** What all groups of a decoded block came to. */
  function Groups(k: nat, size: nat, symbols: seq<Symbol>, recon: seq<byte>): seq<Reassembled>
    requires Scannable(k, size, symbols, recon)
  {
    var gr := ScanTo(k, size, symbols, recon, k);
    if gr.buffer != [] then FlushGroup(gr).results else gr.results
  }

  /** The packets sent: the groups that gave a non-empty packet. */
  function Sent(results: seq<Reassembled>): seq<PacketBytes> {
    if results == [] then []
    else
      var last := results[|results| - 1];
      Sent(results[..|results| - 1]) + if last.Packet? && last.bytes != [] then [last.bytes] else []
  }

  // ---------------------------------------------------------------------------
  // A block whose source positions all arrived
  // ---------------------------------------------------------------------------

  /** The metadata of a received source position. */
  predicate Matches(s: Symbol, l: Symbol, k: nat) {
    AsInt(s.fecId) < k && s.index == l.index && s.total == l.total && s.len == l.len
  }

  /** The source symbols TX made of the packets: their layout, then zero symbols. */
  function SourcePlan(cfg: TxConfig, ps: seq<PacketBytes>): (plan: seq<Symbol>)
    requires Packed(cfg, ps)
    ensures |plan| == cfg.k
  {
    BlockBuilding.PadTo(Layout(cfg, ps), cfg.k, cfg.size)
  }

  /** Every source position arrived, and the block decoded to its source bytes. */
  ghost predicate Intact(cfg: TxConfig, ps: seq<PacketBytes>, symbols: seq<Symbol>, recon: seq<byte>, id: uint32) {
    && Packed(cfg, ps) && Scannable(cfg.k, cfg.size, symbols, recon)
    && recon == SourceBytes(SourcePlan(cfg, ps), cfg.k)
    && (forall i :: 0 <= i < cfg.k ==> Matches(symbols[i], SourcePlan(cfg, ps)[i], cfg.k))
    && (forall i :: 0 <= i < cfg.k ==> symbols[i].packetId == id)
    && (forall q :: 0 <= q < |ps| ==> |ps[q]| <= 9200)
  }

  lemma {:induction false} SourceSlice(cfg: TxConfig, syms: seq<Symbol>, n: nat, i: nat)
    requires AllFit(cfg, syms) && i < n <= |syms|
    ensures |SourceBytes(syms, n)| == n * cfg.size
    ensures 0 <= i * cfg.size && i * cfg.size + cfg.size <= n * cfg.size
    ensures SourceBytes(syms, n)[i * cfg.size..i * cfg.size + cfg.size] == syms[i].data
  {
    InRecon(n, cfg.size, i);
    var before := SourceBytes(syms, n - 1);
    SourceLength(cfg, syms, n - 1);
    assert n * cfg.size == (n - 1) * cfg.size + cfg.size;
    if i < n - 1 {
      SourceSlice(cfg, syms, n - 1, i);
      assert (before + syms[n - 1].data)[i * cfg.size..i * cfg.size + cfg.size]
          == before[i * cfg.size..i * cfg.size + cfg.size];
    }
  }

  lemma {:induction false} SourceLength(cfg: TxConfig, syms: seq<Symbol>, n: nat)
    requires AllFit(cfg, syms) && n <= |syms|
    ensures |SourceBytes(syms, n)| == n * cfg.size
  {
    if n > 0 {
      SourceLength(cfg, syms, n - 1);
      assert n * cfg.size == (n - 1) * cfg.size + cfg.size;
    }
  }

  lemma PlanFits(cfg: TxConfig, ps: seq<PacketBytes>)
    requires Packed(cfg, ps)
    ensures AllFit(cfg, SourcePlan(cfg, ps))
  {
    LayoutFits(cfg, ps);
    PadFits(cfg, Layout(cfg, ps));
  }

  /** Where packet q starts. */
  function StartOf(cfg: TxConfig, ps: seq<PacketBytes>, q: nat): nat
    requires Packed(cfg, ps) && q <= |ps|
  {
    |Layout(cfg, ps[..q])|
  }

  lemma Placement(cfg: TxConfig, ps: seq<PacketBytes>, q: nat, j: nat)
    requires Packed(cfg, ps) && q < |ps| && j < Count(|ps[q]|, cfg.size)
    ensures StartOf(cfg, ps, q) + j < cfg.k
    ensures SourcePlan(cfg, ps)[StartOf(cfg, ps, q) + j] == Bare(Fragment(ps[q], 0, cfg.size, j))
  {
    hide Layout;
    TxPacking.LayoutPrefix(cfg, ps, q);
  }

  lemma {:induction false} NextStart(cfg: TxConfig, ps: seq<PacketBytes>, q: nat)
    requires Packed(cfg, ps) && q < |ps|
    ensures StartOf(cfg, ps, q + 1) == StartOf(cfg, ps, q) + Count(|ps[q]|, cfg.size) <= |Layout(cfg, ps)|
    ensures StartOf(cfg, ps, |ps|) == |Layout(cfg, ps)|
  {
    assert ps[..q + 1][..q] == ps[..q];
    assert ps[..|ps|] == ps;
    TxPacking.LayoutPrefix(cfg, ps, q);
  }

  /** Position i of an intact block: its metadata and its bytes are those of the planned symbol. */
  lemma SourceAt(cfg: TxConfig, ps: seq<PacketBytes>, symbols: seq<Symbol>, recon: seq<byte>, id: uint32, i: nat)
    requires Intact(cfg, ps, symbols, recon, id) && i < cfg.k
    ensures 0 <= i * cfg.size && i * cfg.size + cfg.size <= |recon|
    ensures var l := SourcePlan(cfg, ps)[i];
      && recon[i * cfg.size..i * cfg.size + cfg.size] == l.data && l.len <= cfg.size == |l.data|
      && Matches(symbols[i], l, cfg.k) && symbols[i].packetId == id
  {
    hide Layout, SourcePlan, SourceBytes, Matches;
    PlanFits(cfg, ps);
    SourceSlice(cfg, SourcePlan(cfg, ps), cfg.k, i);
  }

  lemma SizesFit(cfg: TxConfig, ps: seq<PacketBytes>, q: nat)
    requires Packed(cfg, ps) && q < |ps|
    ensures 0 < cfg.size <= MAX_SYMBOL_DATA_SIZE && Count(|ps[q]|, cfg.size) <= UINT16_MAX
  {
    hide Layout, Count;
  }

  /** A reconstructed symbol is the fragment that was sent. */
  lemma RebuiltFragment(cfg: TxConfig, ps: seq<PacketBytes>, symbols: seq<Symbol>, recon: seq<byte>, id: uint32, q: nat, j: nat)
    requires Intact(cfg, ps, symbols, recon, id) && q < |ps| && j < Count(|ps[q]|, cfg.size)
    ensures var i := StartOf(cfg, ps, q) + j;
      && i < cfg.k && i * cfg.size + cfg.size <= |recon| && symbols[i].len <= cfg.size
      && var s := Rebuild(symbols[i], recon, i, cfg.size);
      && HasPayload(symbols[i], cfg.k)
      && IsFragment(s, ps[q], cfg.size) && s.index == j && s.packetId == id && s.total == Count(|ps[q]|, cfg.size)
  {
    hide Layout, StartOf, SourcePlan, SourceBytes, Count, IsFragment, Fragment;
    var i := StartOf(cfg, ps, q) + j;
    Placement(cfg, ps, q, j);
    SizesFit(cfg, ps, q);
    SourceAt(cfg, ps, symbols, recon, id, i);
    hide Packed, Intact, Bare;
    FragmentMeta(ps[q], cfg.size, j);
    RebuiltFrom(SourcePlan(cfg, ps)[i], symbols[i], ps[q], recon, i, cfg.size);
  }

  lemma FragmentMeta(p: PacketBytes, size: nat, j: nat)
    requires 0 < size <= MAX_SYMBOL_DATA_SIZE && Count(|p|, size) <= UINT16_MAX && j < Count(|p|, size)
    ensures var f := Bare(Fragment(p, 0, size, j));
      IsFragment(f, p, size) && f.index == j && f.total == Count(|p|, size) && 0 < f.len <= size
  {
    FragmentCarriesSlice(p, 0, size, j);
    CountBounds(|p|, size, j);
    SameFragment(Fragment(p, 0, size, j), Bare(Fragment(p, 0, size, j)), p, size);
  }

  /** Being a fragment depends on index, total, length and that many bytes. */
  lemma SameFragment(l: Symbol, s: Symbol, p: PacketBytes, size: nat)
    requires 0 < size <= MAX_SYMBOL_DATA_SIZE && Count(|p|, size) <= UINT16_MAX && IsFragment(l, p, size)
    requires s.index == l.index && s.total == l.total && s.len == l.len <= |s.data| && s.data[..l.len] == l.data[..l.len]
    ensures IsFragment(s, p, size)
  {
    hide Count, Share;
  }

  /** Stored metadata and decoded bytes that match a fragment make that fragment. */
  lemma RebuiltFrom(l: Symbol, meta: Symbol, p: PacketBytes, recon: seq<byte>, i: nat, size: nat)
    requires 0 < size <= MAX_SYMBOL_DATA_SIZE && Count(|p|, size) <= UINT16_MAX
    requires 0 <= i * size && i * size + size <= |recon| && recon[i * size..i * size + size] == l.data
    requires l.len <= size == |l.data| && meta.index == l.index && meta.total == l.total && meta.len == l.len
    requires IsFragment(l, p, size)
    ensures IsFragment(Rebuild(meta, recon, i, size), p, size)
  {
    hide IsFragment, Count;
    var at := i * size;
    assert recon[at..at + l.len] == recon[at..at + size][..l.len];
    SameFragment(l, Rebuild(meta, recon, i, size), p, size);
  }

  /** The first j reconstructed fragments of packet q. */
  ghost function Collected(cfg: TxConfig, ps: seq<PacketBytes>, symbols: seq<Symbol>, recon: seq<byte>, id: uint32, q: nat, j: nat)
    : (buffer: seq<Symbol>)
    requires Intact(cfg, ps, symbols, recon, id) && q < |ps| && j <= Count(|ps[q]|, cfg.size)
    ensures |buffer| == j
    ensures forall x :: 0 <= x < j ==>
              IsFragment(buffer[x], ps[q], cfg.size) && buffer[x].index == x && buffer[x].packetId == id
  {
    if j == 0 then []
    else
      RebuiltFragment(cfg, ps, symbols, recon, id, q, j - 1);
      var i := StartOf(cfg, ps, q) + j - 1;
      Collected(cfg, ps, symbols, recon, id, q, j - 1) + [Rebuild(symbols[i], recon, i, cfg.size)]
  }

  /** Joining fragment j to the first j fragments: kept until the packet is complete, then reassembled. */
  lemma JoinFragment(p: PacketBytes, size: nat, buffer: seq<Symbol>, s: Symbol, results: seq<Reassembled>)
    requires 0 < size <= MAX_SYMBOL_DATA_SIZE && 0 < |p| <= REASSEM_BUF_SIZE
    requires Count(|p|, size) <= MAX_SYMBOLS_PER_BLOCK && |buffer| < Count(|p|, size)
    requires forall x :: 0 <= x < |buffer| ==> IsFragment(buffer[x], p, size) && buffer[x].index == x
    requires forall x :: 0 <= x < |buffer| ==> buffer[x].packetId == s.packetId
    requires IsFragment(s, p, size) && s.index == |buffer|
    ensures Sized(buffer)
    ensures Join(Group(buffer, results), s) ==
      if |buffer| + 1 == Count(|p|, size) then Group([], results + [Packet(p)])
      else Group(buffer + [s], results)
  {
    hide Count, Share;
    forall x | 0 <= x < |buffer| ensures buffer[x].len <= |buffer[x].data| {
      assert IsFragment(buffer[x], p, size);
    }
    var b := buffer + [s];
    assert b[0].total == Count(|p|, size) by { assert IsFragment(b[0], p, size); }
    if |buffer| + 1 == Count(|p|, size) {
      RoundTrip(b, p, size, REASSEM_BUF_SIZE);
    }
  }

  /** Scanning packet q's positions collects its fragments, and at the last one yields the packet. */
  lemma {:induction false} ScanPacket(cfg: TxConfig, ps: seq<PacketBytes>, symbols: seq<Symbol>, recon: seq<byte>, id: uint32,
                                      q: nat, j: nat, results: seq<Reassembled>)
    requires Intact(cfg, ps, symbols, recon, id) && q < |ps| && j <= Count(|ps[q]|, cfg.size)
    requires StartOf(cfg, ps, q) + j <= cfg.k
    requires ScanTo(cfg.k, cfg.size, symbols, recon, StartOf(cfg, ps, q)) == Group([], results)
    ensures ScanTo(cfg.k, cfg.size, symbols, recon, StartOf(cfg, ps, q) + j) ==
      if j == Count(|ps[q]|, cfg.size) then Group([], results + [Packet(ps[q])])
      else Group(Collected(cfg, ps, symbols, recon, id, q, j), results)
  {
    hide Count, StartOf, Join, Rebuild, Layout, IsFragment, SourceBytes, HasPayload;
    PacketSizes(cfg, ps, q);
    if j > 0 {
      RebuiltFragment(cfg, ps, symbols, recon, id, q, j - 1);
      ScanPacket(cfg, ps, symbols, recon, id, q, j - 1, results);
      var i := StartOf(cfg, ps, q) + j - 1;
      JoinFragment(ps[q], cfg.size, Collected(cfg, ps, symbols, recon, id, q, j - 1),
                   Rebuild(symbols[i], recon, i, cfg.size), results);
    }
  }

  lemma PacketSizes(cfg: TxConfig, ps: seq<PacketBytes>, q: nat)
    requires Packed(cfg, ps) && q < |ps|
    ensures 0 < |ps[q]| && 0 < Count(|ps[q]|, cfg.size) <= cfg.k <= MAX_SYMBOLS_PER_BLOCK
    ensures 0 < cfg.size <= MAX_SYMBOL_DATA_SIZE
  {
    CountPositive(|ps[q]|, cfg.size);
  }

  /** A result per packet. */
  function AsResults(ps: seq<PacketBytes>): (r: seq<Reassembled>)
    ensures |r| == |ps|
  {
    if ps == [] then [] else AsResults(ps[..|ps| - 1]) + [Packet(ps[|ps| - 1])]
  }

  lemma {:induction false} ScanPackets(cfg: TxConfig, ps: seq<PacketBytes>, symbols: seq<Symbol>, recon: seq<byte>, id: uint32, q: nat)
    requires Intact(cfg, ps, symbols, recon, id) && q <= |ps| && StartOf(cfg, ps, q) <= cfg.k
    ensures ScanTo(cfg.k, cfg.size, symbols, recon, StartOf(cfg, ps, q)) == Group([], AsResults(ps[..q]))
  {
    hide Count, Join, Rebuild, SourceBytes, ScanTo, StartOf, Intact, Layout, OneBlock, Packed, AsResults;
    IntactParts(cfg, ps, symbols, recon, id);
    if q == 0 {
      NothingScanned(cfg, ps, symbols, recon);
    } else {
      NextStart(cfg, ps, q - 1);
      ScanPackets(cfg, ps, symbols, recon, id, q - 1);
      ScanPacket(cfg, ps, symbols, recon, id, q - 1, Count(|ps[q - 1]|, cfg.size), AsResults(ps[..q - 1]));
      ResultsAppend(ps, q - 1);
    }
  }

  lemma NothingScanned(cfg: TxConfig, ps: seq<PacketBytes>, symbols: seq<Symbol>, recon: seq<byte>)
    requires Packed(cfg, ps) && Scannable(cfg.k, cfg.size, symbols, recon)
    ensures StartOf(cfg, ps, 0) == 0
    ensures ScanTo(cfg.k, cfg.size, symbols, recon, 0) == Group([], AsResults(ps[..0]))
  {
  }

  lemma ResultsAppend(ps: seq<PacketBytes>, q: nat)
    requires q < |ps|
    ensures AsResults(ps[..q + 1]) == AsResults(ps[..q]) + [Packet(ps[q])]
  {
    assert ps[..q + 1][..q] == ps[..q];
  }

  lemma IntactParts(cfg: TxConfig, ps: seq<PacketBytes>, symbols: seq<Symbol>, recon: seq<byte>, id: uint32)
    requires Intact(cfg, ps, symbols, recon, id)
    ensures Packed(cfg, ps) && Scannable(cfg.k, cfg.size, symbols, recon) && cfg.size > 0
  {
  }

  /** Padding positions add nothing. */
  lemma {:induction false} ScanPadding(cfg: TxConfig, ps: seq<PacketBytes>, symbols: seq<Symbol>, recon: seq<byte>, id: uint32, i: nat)
    requires Intact(cfg, ps, symbols, recon, id) && |Layout(cfg, ps)| <= i <= cfg.k
    ensures ScanTo(cfg.k, cfg.size, symbols, recon, i) == ScanTo(cfg.k, cfg.size, symbols, recon, |Layout(cfg, ps)|)
  {
    hide Layout, SourceBytes, Join, Rebuild;
    if i > |Layout(cfg, ps)| {
      ScanPadding(cfg, ps, symbols, recon, id, i - 1);
      assert Matches(symbols[i - 1], SourcePlan(cfg, ps)[i - 1], cfg.k);
    }
  }

  lemma {:induction false} SentResults(ps: seq<PacketBytes>)
    requires forall q :: 0 <= q < |ps| ==> ps[q] != []
    ensures Sent(AsResults(ps)) == ps
  {
    if ps != [] {
      var before, last := ps[..|ps| - 1], ps[|ps| - 1];
      SentResults(before);
      SentLast(AsResults(before), last);
      hide Sent;
      assert before + [last] == ps;
    }
  }

  lemma SentLast(results: seq<Reassembled>, p: PacketBytes)
    requires p != []
    ensures Sent(results + [Packet(p)]) == Sent(results) + [p]
  {
    assert (results + [Packet(p)])[..|results|] == results;
  }

  /**
   For a block made of whole packets whose source positions all arrived, whatever repairs are
   missing, exactly those packets are sent, in order, and nothing for the padding.
   */
  lemma GroupingTheorem(cfg: TxConfig, ps: seq<PacketBytes>, symbols: seq<Symbol>, recon: seq<byte>, id: uint32)
    requires Intact(cfg, ps, symbols, recon, id)
    ensures Groups(cfg.k, cfg.size, symbols, recon) == AsResults(ps)
    ensures Sent(Groups(cfg.k, cfg.size, symbols, recon)) == ps
  {
    hide Layout, SourceBytes, ScanTo, OneBlock;
    EndsAtLayout(cfg, ps);
    ScanPackets(cfg, ps, symbols, recon, id, |ps|);
    ScanPadding(cfg, ps, symbols, recon, id, cfg.k);
    NonEmpty(cfg, ps);
    SentResults(ps);
  }

  lemma NonEmpty(cfg: TxConfig, ps: seq<PacketBytes>)
    requires Packed(cfg, ps)
    ensures forall q :: 0 <= q < |ps| ==> ps[q] != []
  {
  }

  lemma EndsAtLayout(cfg: TxConfig, ps: seq<PacketBytes>)
    requires Packed(cfg, ps)
    ensures StartOf(cfg, ps, |ps|) == |Layout(cfg, ps)| <= cfg.k && ps[..|ps|] == ps
  {
    assert ps[..|ps|] == ps;
  }
}
