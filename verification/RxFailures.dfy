/** Blocks that yield a packet nobody took. */
module RxFailures {
  import opened Types
  import opened Fragmentation
  import opened TxSpec
  import opened TxHistory
  import opened RxGrouping
  import opened RxSurvivors
  import opened RxIntegrity
  import opened RxConditions

  // ---------------------------------------------------------------------------
  // Inputs that fail
  // ---------------------------------------------------------------------------

  /** One-byte fragments of a short packet. */
  function Piece(i: uint16, total: uint16, b: byte): Symbol {
    Symbol(0, 0, i, total, 1, 0, [b])
  }

  lemma OneByte(cfg: TxConfig, a: byte)
    requires ValidTx(cfg) && cfg.size == 1
    ensures OneBlock(cfg, [a]) && Bares(cfg, [a]) == [Piece(0, 1, a)]
  {
    assert Bares(cfg, [a])[0] == Piece(0, 1, a);
  }

  lemma TwoBytes(cfg: TxConfig, a: byte, b: byte)
    requires ValidTx(cfg) && cfg.size == 1
    ensures OneBlock(cfg, [a, b]) && Bares(cfg, [a, b]) == [Piece(0, 2, a), Piece(1, 2, b)]
  {
    assert Bares(cfg, [a, b])[0] == Piece(0, 2, a);
    assert Bares(cfg, [a, b])[1] == Piece(1, 2, b);
  }

  lemma FourBytes(cfg: TxConfig, syms: seq<Symbol>, a: byte, b: byte, c: byte, d: byte)
    requires |syms| == 4 && syms[0].data == [a] && syms[1].data == [b] && syms[2].data == [c] && syms[3].data == [d]
    ensures SourceBytes(syms, 4) == [a, b, c, d]
  {
    assert SourceBytes(syms, 1) == [] + [a];
    assert SourceBytes(syms, 2) == [a] + [b];
    assert SourceBytes(syms, 3) == [a, b] + [c];
  }

  const MIXED := [Symbol(7, 0, 0, 2, 1, 0, [1]), Symbol(0, 0, 0, 0, 0, 0, [0]),
                  Symbol(0, 0, 0, 0, 0, 0, [0]), Symbol(7, 3, 1, 2, 1, 0, [4])]

  lemma MixedPlan(cfg: TxConfig)
    requires cfg == TxConfig(4, 2, 1, 1, false)
    ensures Packed(cfg, [[1, 2], [3, 4]])
    ensures SourcePlan(cfg, [[1, 2], [3, 4]]) == [Piece(0, 2, 1), Piece(1, 2, 2), Piece(0, 2, 3), Piece(1, 2, 4)]
    ensures SourceBytes(SourcePlan(cfg, [[1, 2], [3, 4]]), 4) == [1, 2, 3, 4]
  {
    hide Bares, Count;
    TwoBytes(cfg, 1, 2);
    TwoBytes(cfg, 3, 4);
    var ps: seq<PacketBytes> := [[1, 2], [3, 4]];
    assert ps[..1] == [[1, 2]] && ps[..1][..0] == [];
    assert Layout(cfg, []) == [];
    assert Layout(cfg, ps[..1]) == [] + Bares(cfg, [1, 2]);
    assert Layout(cfg, ps) == Bares(cfg, [1, 2]) + Bares(cfg, [3, 4]);
    assert Packed(cfg, ps);
    assert SourcePlan(cfg, ps) == [Piece(0, 2, 1), Piece(1, 2, 2), Piece(0, 2, 3), Piece(1, 2, 4)];
    FourBytes(cfg, SourcePlan(cfg, ps), 1, 2, 3, 4);
  }

  lemma MixedDamaged(cfg: TxConfig)
    requires cfg == TxConfig(4, 2, 1, 1, false)
    ensures Damaged(cfg, [[1, 2], [3, 4]], MIXED, [1, 2, 3, 4], 7) && BlankLost(4, MIXED)
  {
    MixedPlan(cfg);
    hide SourcePlan, SourceBytes, Packed, Layout;
  }

  /**
   Two packets of two fragments; the second fragment of one and the first of the other are lost, and lost
   positions are blank. The block decodes, and a packet is sent that nobody took.
   */
  lemma MixedPacket(cfg: TxConfig)
    requires cfg == TxConfig(4, 2, 1, 1, false)
    ensures Damaged(cfg, [[1, 2], [3, 4]], MIXED, [1, 2, 3, 4], 7) && BlankLost(4, MIXED)
    ensures Sent(Groups(4, 1, MIXED, [1, 2, 3, 4])) == [[1, 4]]
  {
    MixedDamaged(cfg);
    hide Damaged, Groups, Sent, BlankLost;
    MixedGroups(MIXED);
  }

  /** One position with payload, and one without. */
  lemma ScanJoins(k: nat, size: nat, symbols: seq<Symbol>, recon: seq<byte>, i: nat, s: Symbol, r: Group)
    requires Scannable(k, size, symbols, recon) && i < k && HasPayload(symbols[i], k)
    requires RebuiltAt(k, size, symbols, recon, i) == s && Join(ScanTo(k, size, symbols, recon, i), s) == r
    ensures ScanTo(k, size, symbols, recon, i + 1) == r
  {
    hide Join, HasPayload;
    InRecon(k, size, i);
  }

  lemma ScanSkips(k: nat, size: nat, symbols: seq<Symbol>, recon: seq<byte>, i: nat)
    requires Scannable(k, size, symbols, recon) && i < k && !HasPayload(symbols[i], k)
    ensures ScanTo(k, size, symbols, recon, i + 1) == ScanTo(k, size, symbols, recon, i)
  {
    hide Join, Rebuild;
  }

  lemma SentTwo(p: PacketBytes, q: PacketBytes)
    requires p != [] && q != []
    ensures Sent([Packet(p)]) == [p] && Sent([Packet(p), Packet(q)]) == [p, q]
  {
    SentMore([], Packet(p));
    SentMore([Packet(p)], Packet(q));
    assert [] + [Packet(p)] == [Packet(p)] && [Packet(p)] + [Packet(q)] == [Packet(p), Packet(q)];
    assert Sent([]) == [] && [p] + [q] == [p, q] && [] + [p] == [p];
  }

  /** Positions 1 and 2 hold nothing; what stands from position 4 on is not looked at. */
  lemma MixedGroups(symbols: seq<Symbol>)
    requires 4 <= |symbols| <= MAX_SYMBOLS_PER_BLOCK && symbols[0] == MIXED[0] && symbols[3] == MIXED[3]
    requires symbols[1].len == 0 && symbols[2].len == 0
    ensures Scannable(4, 1, symbols, [1, 2, 3, 4])
    ensures Sent(Groups(4, 1, symbols, [1, 2, 3, 4])) == [[1, 4]]
  {
    var recon: seq<byte> := [1, 2, 3, 4];
    var a, d := Symbol(7, 0, 0, 2, 1, 0, [1]), Symbol(7, 3, 1, 2, 1, 0, [4]);
    assert RebuiltAt(4, 1, symbols, recon, 0) == a && RebuiltAt(4, 1, symbols, recon, 3) == d;
    MixedJoins(a, d);
    hide Join, RebuiltAt, Reassemble, ScanTo, Sent;
    assert ScanTo(4, 1, symbols, recon, 0) == Group([], []) by { ScanStarts(4, 1, symbols, recon); }
    ScanJoins(4, 1, symbols, recon, 0, a, Group([a], []));
    ScanSkips(4, 1, symbols, recon, 1);
    ScanSkips(4, 1, symbols, recon, 2);
    ScanJoins(4, 1, symbols, recon, 3, d, Group([], [Packet([1, 4])]));
    SentTwo([1, 4], [1, 4]);
  }

  lemma ScanStarts(k: nat, size: nat, symbols: seq<Symbol>, recon: seq<byte>)
    requires Scannable(k, size, symbols, recon)
    ensures ScanTo(k, size, symbols, recon, 0) == Group([], [])
  {
  }

  lemma MixedJoins(a: Symbol, d: Symbol)
    requires a == Symbol(7, 0, 0, 2, 1, 0, [1]) && d == Symbol(7, 3, 1, 2, 1, 0, [4])
    ensures Join(Group([], []), a) == Group([a], []) && Join(Group([a], []), d) == Group([], [Packet([1, 4])])
  {
    JoinFragment([1, 4], 1, [], a, []);
    JoinFragment([1, 4], 1, [a], d, []);
    hide Join, Reassemble;
    assert [] + [a] == [a] && [] + [Packet([1, 4])] == [Packet([1, 4])];
  }

  const LEFTOVER := [Symbol(2, 0, 0, 1, 1, 0, [5]), Symbol(0, 1, 0, 1, 1, 0, [9])]

  lemma LeftoverDamaged(cfg: TxConfig)
    requires cfg == TxConfig(2, 1, 1, 1, false)
    ensures Damaged(cfg, [[5]], LEFTOVER, [5, 0], 2) && AllArrived(cfg, [[5]], LEFTOVER)
  {
    LeftoverPlan(cfg);
    hide SourcePlan, SourceBytes, Packed, Layout, AllArrived;
  }

  /**
   A block of one packet in its first position; the padding position is lost, and its slot still holds the
   metadata of an earlier block's symbol. Every fragment was received, and a packet is sent that nobody took.
   */
  lemma LeftoverPacket(cfg: TxConfig)
    requires cfg == TxConfig(2, 1, 1, 1, false)
    ensures Damaged(cfg, [[5]], LEFTOVER, [5, 0], 2) && AllArrived(cfg, [[5]], LEFTOVER)
    ensures Sent(Groups(2, 1, LEFTOVER, [5, 0])) == [[5], [0]]
  {
    LeftoverDamaged(cfg);
    hide Damaged, Groups, Sent, AllArrived;
    LeftoverGroups(LEFTOVER, 2, 0, 5, 0);
  }

  lemma LeftoverPlan(cfg: TxConfig)
    requires cfg == TxConfig(2, 1, 1, 1, false)
    ensures Packed(cfg, [[5]]) && SourcePlan(cfg, [[5]]) == [Piece(0, 1, 5), Symbol(0, 0, 0, 0, 0, 0, [0])]
    ensures SourceBytes(SourcePlan(cfg, [[5]]), 2) == [5, 0]
    ensures AllArrived(cfg, [[5]], LEFTOVER)
  {
    OneByte(cfg, 5);
    var ps: seq<PacketBytes> := [[5]];
    assert ps[..0] == [];
    assert Layout(cfg, ps) == [] + Bares(cfg, [5]);
    var plan := SourcePlan(cfg, ps);
    assert Zeros(1) == [0];
    assert plan == [Piece(0, 1, 5), Symbol(0, 0, 0, 0, 0, 0, [0])];
    assert SourceBytes(plan, 1) == [] + [5];
    assert SourceBytes(plan, 2) == [5] + [0];
    assert StartOf(cfg, ps, 0) == 0;
    assert Count(1, 1) == 1;
  }

  /** Two positions that each hold a packet of one byte. */
  lemma LeftoverGroups(symbols: seq<Symbol>, i: uint32, j: uint32, x: byte, y: byte)
    requires 2 <= |symbols| <= MAX_SYMBOLS_PER_BLOCK
    requires symbols[0].(data := [x]) == Symbol(i, 0, 0, 1, 1, 0, [x]) && symbols[1].(data := [y]) == Symbol(j, 1, 0, 1, 1, 0, [y])
    ensures Scannable(2, 1, symbols, [x, y])
    ensures Sent(Groups(2, 1, symbols, [x, y])) == [[x], [y]]
  {
    var recon: seq<byte> := [x, y];
    var a, b := Symbol(i, 0, 0, 1, 1, 0, [x]), Symbol(j, 1, 0, 1, 1, 0, [y]);
    assert RebuiltAt(2, 1, symbols, recon, 0) == a && RebuiltAt(2, 1, symbols, recon, 1) == b;
    LeftoverJoins(a, b, x, y);
    hide Join, RebuiltAt, Reassemble, ScanTo, Sent;
    ScanStarts(2, 1, symbols, recon);
    ScanJoins(2, 1, symbols, recon, 0, a, Group([], [Packet([x])]));
    ScanJoins(2, 1, symbols, recon, 1, b, Group([], [Packet([x]), Packet([y])]));
    SentTwo([x], [y]);
  }

  lemma LeftoverJoins(a: Symbol, b: Symbol, x: byte, y: byte)
    requires a.index == 0 && a.total == 1 && a.len == 1 && a.data == [x]
    requires b.index == 0 && b.total == 1 && b.len == 1 && b.data == [y]
    ensures Join(Group([], []), a) == Group([], [Packet([x])])
    ensures Join(Group([], [Packet([x])]), b) == Group([], [Packet([x]), Packet([y])])
  {
    JoinFragment([x], 1, [], a, []);
    JoinFragment([y], 1, [], b, [Packet([x])]);
    hide Join, Reassemble;
    assert [] + [Packet([x])] == [Packet([x])] && [Packet([x])] + [Packet([y])] == [Packet([x]), Packet([y])];
  }
}
