/** What the transmit pipeline puts in a block's symbols, which packets it takes, and how it numbers them. */
module TxOutcomes {
  import opened Types
  import opened BlockBuilding
  import opened Fragmentation
  import opened SymbolCrc
  import FecWrapper
  import opened Interleaving
  import opened InterleaverWindows
  import opened TxSpec
  import opened TxPacking
  import TxComposition
  import RxGrouping

  // ---------------------------------------------------------------------------
  // The symbols of a block
  // ---------------------------------------------------------------------------

  /** src is the sources' data end to end. */
  ghost predicate Joined(src: seq<byte>, syms: seq<Symbol>, size: nat) {
    |src| == |syms| * size && forall j: nat :: j < |syms| ==>
      0 <= j * size && j * size + size <= |src| && src[j * size..j * size + size] == syms[j].data
  }

  /** Symbol i of a block: a source as it was packed, or a repair made from all sources' data; numbered, and stamped. */
  ghost predicate SymbolIs(cfg: TxConfig, codec: FecWrapper.Codec, syms: seq<Symbol>, src: seq<byte>, id: uint32, i: nat, s: Symbol)
    requires |syms| == cfg.k
  {
    && s.packetId == id && s.fecId == i && |s.data| == cfg.size && s.len <= cfg.size
    && (if i < cfg.k then
          && s.index == syms[i].index && s.total == syms[i].total && s.len == syms[i].len && s.data == syms[i].data
          && (!cfg.crcOn ==> s.crc == syms[i].crc)
        else
          && s.index == i && s.total == cfg.k + cfg.m && s.len == cfg.size && (!cfg.crcOn ==> s.crc == 0)
          && (|codec.encode(src, i)| == cfg.size ==> s.data == codec.encode(src, i)))
    && (cfg.crcOn ==> Verifies(s))
  }

  lemma SealVerifies(cfg: TxConfig, s: Symbol)
    requires Fits(cfg, s)
    ensures cfg.crcOn ==> Verifies(Seal(cfg, s))
    ensures !cfg.crcOn ==> Seal(cfg, s) == s
  {
    hide Verifies;
    StampedVerifies(s);
  }

  lemma BlockSymbolIs(cfg: TxConfig, codec: FecWrapper.Codec, syms: seq<Symbol>, id: uint32, i: nat) returns (src: seq<byte>)
    requires ValidTx(cfg) && |syms| == cfg.k && AllFit(cfg, syms) && i < cfg.k + cfg.m
    ensures Joined(src, syms, cfg.size)
    ensures SymbolIs(cfg, codec, syms, src, id, i, BlockSymbols(cfg, codec, syms, id)[i])
  {
    src := SourceBytes(syms, cfg.k);
    forall j: nat | j < cfg.k
      ensures |src| == cfg.k * cfg.size && 0 <= j * cfg.size && j * cfg.size + cfg.size <= |src|
      ensures src[j * cfg.size..j * cfg.size + cfg.size] == syms[j].data
    {
      RxGrouping.SourceSlice(cfg, syms, cfg.k, j);
    }
    RxGrouping.SourceLength(cfg, syms, cfg.k);
    hide Verifies, Stamped, SourceBytes;
    if i < cfg.k {
      SealVerifies(cfg, syms[i].(packetId := id, fecId := i));
    } else {
      SealVerifies(cfg, Symbol(id, i, i, cfg.k + cfg.m, cfg.size, 0, RepairData(cfg, codec, src, i)));
    }
  }

  /** Symbols still waiting in a full window are sent before the new block is pushed. */
  lemma LeftoverSent(cfg: TxConfig, codec: FecWrapper.Codec, st: TxState, now: int)
    requires TxOk(cfg, st) && |st.builder.syms| == cfg.k && st.window.ready
    requires ValidGeometry(TxGeometry(cfg)) && WellFormed(TxGeometry(cfg), st.window)
    ensures st.wire + DrainFrom(TxGeometry(cfg), st.window) <= EncodeAndDrain(cfg, codec, st, now).0.wire
  {
    hide PushFrom, BlockSymbols, DrainFrom;
  }

  // ---------------------------------------------------------------------------
  // Which packets are taken
  // ---------------------------------------------------------------------------

  /** A packet is taken exactly when it fits k symbols, or as many as 9000 bytes need, and needs no more than 65535. */
  lemma TakenIff(cfg: TxConfig, p: seq<byte>, id: uint32)
    requires ValidTx(cfg)
    ensures FragmentAll(p, id, cfg.size, MaxFrags(cfg)).Some? <==>
      |p| <= 0xFFFF * cfg.size && (|p| <= cfg.k * cfg.size || |p| <= Count(9000, cfg.size) * cfg.size)
  {
    CountWithin(|p|, cfg.size, 0xFFFF);
    CountWithin(|p|, cfg.size, cfg.k);
    CountWithin(|p|, cfg.size, Count(9000, cfg.size));
  }

  // ---------------------------------------------------------------------------
  // Packet numbers
  // ---------------------------------------------------------------------------

  lemma CloseNumber(cfg: TxConfig, codec: FecWrapper.Codec, st: TxState, now: int)
    requires TxOk(cfg, st) && |st.builder.syms| == cfg.k
    ensures CloseBlock(cfg, codec, st, now).0.nextPacket == st.nextPacket
  {
    hide BlockSymbols, PushFrom;
  }

  lemma FlushNumber(cfg: TxConfig, codec: FecWrapper.Codec, st: TxState, now: int)
    requires TxOk(cfg, st)
    ensures FlushBlock(cfg, codec, st, now).0.nextPacket == st.nextPacket
  {
    hide CloseBlock;
    PadFits(cfg, st.builder.syms);
    CloseNumber(cfg, codec, st.(builder := st.builder.(syms := PadTo(st.builder.syms, cfg.k, cfg.size))), now);
  }

  lemma TickNumber(cfg: TxConfig, st: TxState, now: int)
    requires TxOk(cfg, st)
    ensures TickAndDrain(cfg, st, now).nextPacket == st.nextPacket
  {
  }

  lemma {:induction false} AddNumber(cfg: TxConfig, codec: FecWrapper.Codec, st: TxState, f: seq<Symbol>, i: nat, now: int)
    requires TxOk(cfg, st) && AllFit(cfg, f) && i <= |f|
    ensures AddFrom(cfg, codec, st, f, i, now).0.nextPacket == st.nextPacket
    decreases |f| - i
  {
    hide CloseBlock, TickAndDrain, TxOk, AllFit;
    if i < |f| {
      AddKeepsOk(cfg, st, f, i, now);
      var added := st.(builder := Add(st.builder, f[i], now));
      if |st.builder.syms| == cfg.k {
        AddNumber(cfg, codec, st, f, i + 1, now);
      } else if |added.builder.syms| < cfg.k {
        AddNumber(cfg, codec, added, f, i + 1, now);
      } else {
        CloseNumber(cfg, codec, added, now);
        var (closed, ok) := CloseBlock(cfg, codec, added, now);
        if ok {
          TickNumber(cfg, closed, now);
          AddNumber(cfg, codec, TickAndDrain(cfg, closed, now), f, i + 1, now);
        }
      }
    }
  }

  lemma RoomNumber(cfg: TxConfig, codec: FecWrapper.Codec, st: TxState, frags: nat, now: int)
    requires TxOk(cfg, st)
    ensures MakeRoom(cfg, codec, st, frags, now).0.nextPacket == st.nextPacket
  {
    hide FlushBlock, TickAndDrain, TxOk;
    FlushNumber(cfg, codec, st, now);
    var (flushed, ok) := FlushBlock(cfg, codec, st, now);
    TickNumber(cfg, flushed, now);
  }

  lemma TimeoutNumber(cfg: TxConfig, codec: FecWrapper.Codec, st: TxState, now: int)
    requires TxOk(cfg, st)
    ensures FlushIfTimedOut(cfg, codec, st, now).0.nextPacket == st.nextPacket
  {
    hide FlushBlock, TxOk;
    FlushNumber(cfg, codec, st, now);
  }

  lemma TakeNumber(cfg: TxConfig, codec: FecWrapper.Codec, st: TxState, f: seq<Symbol>, now: int)
    requires TxOk(cfg, st) && AllFit(cfg, f)
    ensures TakePacket(cfg, codec, st, f, now).0.nextPacket == st.nextPacket
  {
    hide MakeRoom, AddFrom, FlushIfTimedOut, TxOk, AllFit;
    RoomNumber(cfg, codec, st, |f|, now);
    var (roomy, ok) := MakeRoom(cfg, codec, st, |f|, now);
    AddNumber(cfg, codec, roomy, f, 0, now);
    TimeoutNumber(cfg, codec, AddFrom(cfg, codec, roomy, f, 0, now).0, now);
  }

  /** The call takes a packet. */
  predicate Takes(cfg: TxConfig, input: Input)
    requires ValidTx(cfg)
  {
    input.Lan? && FragmentAll(input.packet, 0, cfg.size, MaxFrags(cfg)).Some?
  }

  /** How many packets were taken. */
  function Taken(cfg: TxConfig, es: seq<TxEvent>): nat
    requires ValidTx(cfg)
  {
    if es == [] then 0
    else Taken(cfg, es[..|es| - 1]) + if Takes(cfg, es[|es| - 1].input) then 1 else 0
  }

  lemma StepNumber(cfg: TxConfig, codec: FecWrapper.Codec, st: TxState, input: Input, now: int)
    requires TxOk(cfg, st) && ValidTx(cfg)
    ensures RunOnce(cfg, codec, st, input, now).0.nextPacket ==
      if Takes(cfg, input) then (st.nextPacket + 1) % 0x1_0000_0000 else st.nextPacket
  {
    hide TakePacket, FlushIfTimedOut, TickAndDrain, TxOk, AllFit;
    match input
    case Idle =>
      TimeoutNumber(cfg, codec, st, now);
      TickNumber(cfg, FlushIfTimedOut(cfg, codec, st, now).0, now);
    case NotForwarded =>
    case Lan(p) =>
      var r := FragmentAll(p, st.nextPacket, cfg.size, MaxFrags(cfg));
      if r.Some? {
        FragmentsFit(cfg, p, st.nextPacket);
        var counted := st.(nextPacket := (st.nextPacket + 1) % 0x1_0000_0000);
        TxComposition.CounterOk(cfg, st, counted.nextPacket);
        TakeNumber(cfg, codec, counted, r.syms, now);
        TickNumber(cfg, TakePacket(cfg, codec, counted, r.syms, now).0, now);
      }
  }

  /** The packet number counts the packets taken, modulo 2 to the 32, failed calls included. */
  lemma {:induction false} PacketsNumbered(cfg: TxConfig, codec: FecWrapper.Codec, es: seq<TxEvent>)
    requires ValidTx(cfg)
    ensures TxRun(cfg, codec, es).nextPacket == Taken(cfg, es) % 0x1_0000_0000
  {
    hide *;
    if es == [] {
      NoneTaken(cfg, codec);
    } else {
      var before, e := es[..|es| - 1], es[|es| - 1];
      PacketsNumbered(cfg, codec, before);
      StepNumber(cfg, codec, TxRun(cfg, codec, before), e.input, e.now);
      CountOn(Taken(cfg, before));
      NextTaken(cfg, codec, es);
    }
  }

  lemma NoneTaken(cfg: TxConfig, codec: FecWrapper.Codec)
    requires ValidTx(cfg)
    ensures TxRun(cfg, codec, []).nextPacket == 0 && Taken(cfg, []) == 0
  {
  }

  lemma NextTaken(cfg: TxConfig, codec: FecWrapper.Codec, es: seq<TxEvent>)
    requires ValidTx(cfg) && es != []
    ensures var before, e := es[..|es| - 1], es[|es| - 1];
      && TxRun(cfg, codec, es) == RunOnce(cfg, codec, TxRun(cfg, codec, before), e.input, e.now).0
      && Taken(cfg, es) == Taken(cfg, before) + if Takes(cfg, e.input) then 1 else 0
  {
    hide RunOnce, Takes;
  }

  lemma CountOn(n: nat)
    ensures (n % 0x1_0000_0000 + 1) % 0x1_0000_0000 == (n + 1) % 0x1_0000_0000
  {
  }
}
