/**
 The receive pipeline object (src/rx_pipeline.c), proved against its specification: one class owning the
 deinterleaver, the checksum table and the group buffer.
 */
module RxPipelines {
  import opened Types
  import opened Fragmentation
  import opened SymbolCrc
  import opened DeinterleaverSpec
  import opened Deinterleaving
  import opened TxSpec
  import opened TxHistory
  import FecWrapper
  import Wire
  import opened RxGrouping
  import opened RxSpec

  lemma SentAppend(results: seq<Reassembled>, r: Reassembled)
    ensures Sent(results + [r]) == Sent(results) + if r.Packet? && r.bytes != [] then [r.bytes] else []
  {
    assert (results + [r])[..|results|] == results;
  }

  class RxPipeline {
    const cfg: TxConfig
    const codec: FecWrapper.Codec
    const dil: Deinterleaver
    const crcs: CrcTable
    const pktSyms: array<Symbol>
    /** The packets handed to the LAN interface so far. */
    var sent: seq<PacketBytes>

    ghost predicate Shape() {
      && ValidTx(cfg) && dil.c == RxConfig(cfg) && pktSyms.Length == MAX_SYMBOLS_PER_BLOCK
      && {crcs as object, crcs.table} !! {dil as object, dil.slots, pktSyms, this}
      && {dil as object, dil.slots} !! {pktSyms as object, this}
    }

    ghost predicate Valid()
      reads this, dil, dil.slots, crcs, crcs.table
    {
      Shape() && dil.Valid() && RxOk(cfg, dil.View()) && crcs.Valid()
    }

    ghost function View(): RxState
      reads this, dil, dil.slots
    {
      RxState(dil.View(), sent)
    }

    constructor (cfg: TxConfig, codec: FecWrapper.Codec)
      requires ValidTx(cfg)
      ensures Valid() && this.cfg == cfg && this.codec == codec && View() == InitialRx(cfg)
      ensures fresh(dil) && fresh(dil.slots) && fresh(crcs) && fresh(crcs.table) && fresh(pktSyms)
    {
      this.cfg, this.codec := cfg, codec;
      InitialRxOk(cfg);
      dil := new Deinterleaver(RxConfig(cfg));
      crcs := new CrcTable();
      var blank := Symbol(0, 0, 0, 0, 0, 0, []);
      pktSyms := new Symbol[MAX_SYMBOLS_PER_BLOCK](_ => blank);
      sent := [];
    }

    /** One reassembly of the buffered group, and the send that follows when it gives a packet. */
    method EmitGroup(count: nat)
      requires count <= pktSyms.Length && Sized(pktSyms[..count])
      modifies this`sent
      ensures sent == old(sent) + Sent([Reassemble(pktSyms[..count], REASSEM_BUF_SIZE)])
    {
      hide Reassemble;
      var syms := pktSyms[..count];
      var buf := new byte[REASSEM_BUF_SIZE](_ => 0);
      var len := ReassemblePacket(syms, buf);
      SentAppend([], Reassemble(syms, REASSEM_BUF_SIZE));
      assert [] + [Reassemble(syms, REASSEM_BUF_SIZE)] == [Reassemble(syms, REASSEM_BUF_SIZE)];
      if len > 0 {
        sent := sent + [buf[..len]];
      }
    }

    /** The flush a symbol causes before it is buffered. */
    method FlushBefore(s: Symbol, count: nat) returns (count': nat)
      requires count <= pktSyms.Length && Sized(pktSyms[..count])
      modifies this`sent
      ensures var r := Before(Group(pktSyms[..count], []), s);
        count' <= count && pktSyms[..count'] == r.buffer && sent == old(sent) + Sent(r.results)
    {
      hide Reassemble, Sent;
      SentNothing();
      count' := count;
      if count' > 0 {
        var complete := count' >= pktSyms[0].total;
        var newPacket := s.index == 0;
        if complete || newPacket {
          EmitGroup(count');
          count' := 0;
          assert [] + [Reassemble(pktSyms[..count], REASSEM_BUF_SIZE)] == [Reassemble(pktSyms[..count], REASSEM_BUF_SIZE)];
        }
      }
    }

    /** The flush a symbol causes by completing its group. */
    method FlushAfter(count: nat) returns (count': nat)
      requires count <= pktSyms.Length && Sized(pktSyms[..count])
      modifies this`sent
      ensures var r := After(Group(pktSyms[..count], []));
        count' <= count && pktSyms[..count'] == r.buffer && sent == old(sent) + Sent(r.results)
    {
      hide Reassemble, Sent;
      SentNothing();
      count' := count;
      if count' > 0 && count' >= pktSyms[0].total {
        EmitGroup(count');
        count' := 0;
        assert [] + [Reassemble(pktSyms[..count], REASSEM_BUF_SIZE)] == [Reassemble(pktSyms[..count], REASSEM_BUF_SIZE)];
      }
    }

    /** Adds one reconstructed symbol, flushing before and after as the loop body does. */
    method JoinSymbol(s: Symbol, count: nat) returns (count': nat)
      requires pktSyms.Length == MAX_SYMBOLS_PER_BLOCK && count <= pktSyms.Length
      requires Sized(pktSyms[..count]) && s.len <= |s.data|
      modifies this`sent, pktSyms
      ensures var r := Join(Group(old(pktSyms[..count]), []), s);
        count' <= pktSyms.Length && pktSyms[..count'] == r.buffer && sent == old(sent) + Sent(r.results)
    {
      hide Reassemble, Sent, Before, After;
      ghost var a := Before(Group(pktSyms[..count], []), s);
      count' := FlushBefore(s, count);
      if count' < MAX_SYMBOLS_PER_BLOCK {
        pktSyms[count'] := s;
        count' := count' + 1;
      }
      ghost var b := Buffered(a, s);
      assert pktSyms[..count'] == b.buffer;
      AfterResults(b);
      SentConcat(b.results, After(Group(b.buffer, [])).results);
      count' := FlushAfter(count');
    }

    /** The inner loop of drain_ready_blocks on a decoded block. */
    method GroupSymbols(symbols: seq<Symbol>, recon: seq<byte>)
      requires pktSyms.Length == MAX_SYMBOLS_PER_BLOCK && Scannable(cfg.k, cfg.size, symbols, recon)
      modifies this`sent, pktSyms
      ensures sent == old(sent) + Sent(Groups(cfg.k, cfg.size, symbols, recon))
    {
      hide Reassemble, Sent, Join, Rebuild;
      SentNothing();
      var count: nat := 0;
      for i := 0 to cfg.k
        invariant count <= pktSyms.Length
        invariant var gr := ScanTo(cfg.k, cfg.size, symbols, recon, i);
          pktSyms[..count] == gr.buffer && sent == old(sent) + Sent(gr.results)
      {
        InRecon(cfg.k, cfg.size, i);
        if FecWrapper.AsInt(symbols[i].fecId) < cfg.k && symbols[i].len != 0 {
          ghost var gr := ScanTo(cfg.k, cfg.size, symbols, recon, i);
          var s := RebuildSymbol(symbols[i], recon, i);
          JoinResults(gr, s);
          SentConcat(gr.results, Join(Group(gr.buffer, []), s).results);
          count := JoinSymbol(s, count);
        }
      }
      if count > 0 {
        ghost var gr := ScanTo(cfg.k, cfg.size, symbols, recon, cfg.k);
        EmitGroup(count);
        SentSplit(gr.results, Reassemble(gr.buffer, REASSEM_BUF_SIZE));
      }
    }

    /** The reconstructed symbol of source position i. */
    method RebuildSymbol(meta: Symbol, recon: seq<byte>, i: nat) returns (s: Symbol)
      requires meta.len <= cfg.size && i * cfg.size + cfg.size <= |recon|
      ensures s == Rebuild(meta, recon, i, cfg.size) && s.len <= |s.data|
    {
      var at := i * cfg.size;
      s := Symbol(meta.packetId, meta.fecId, meta.index, meta.total, meta.len, 0,
                  recon[at..at + meta.len] + Zeros(cfg.size - meta.len));
    }

    /** One round of the outer loop: decode, regroup, acknowledge. */
    method HandleReady(i: nat)
      requires Valid() && i < dil.slots.Length && dil.slots[i].state == DeinterleaverSpec.Ready
      modifies this`sent, pktSyms, dil, dil.slots
      ensures Valid() && View() == HandleBlock(cfg, codec, old(View()), i)
    {
      hide Groups, Sent, Mark, CellsFit;
      ghost var st := View();
      SlotFacts(cfg, st.dil, i);
      MarkFits(cfg, st.dil, st.dil.slots[i].id, true);
      MarkFits(cfg, st.dil, st.dil.slots[i].id, false);
      var s := dil.slots[i];
      var decoded := FecWrapper.DecodeBlock(codec, cfg.k, s.block.symbols);
      if decoded.Ok? {
        GroupSymbols(s.block.symbols, Recon(cfg, decoded.bytes));
        var rc := dil.MarkResult(s.id, true);
      } else {
        var rc := dil.MarkResult(s.id, false);
        assert st.sent + [] == st.sent;
      }
    }

    /** A frame's symbol goes to the deinterleaver. */
    method PushAndDrain(sym: Symbol, now: int)
      requires Valid()
      modifies this`sent, pktSyms, dil, dil.slots
      ensures Valid() && View() == TakeSymbol(cfg, codec, old(View()), sym, now)
    {
      hide DrainReady, CellsFit, Push;
      RxSpec.PushFits(cfg, dil.View(), sym, now);
      var rc := dil.PushSymbol(sym, now);
      DrainReadyBlocks();
    }

    /** rx_pipeline_run_once; `buf` is the receive buffer, holding `received` bytes when a frame came. */
    method RunOnceOn(input: RxInput, buf: array<byte>, received: nat, now: int)
      requires Valid() && received <= buf.Length && buf as object != crcs.table
      requires input.Frame? ==> input.bytes == buf[..received]
      modifies this`sent, pktSyms, dil, dil.slots, crcs, crcs.table, buf
      ensures Valid() && View() == RxOnce(cfg, codec, old(View()), input, now)
    {
      hide DrainReady, TakeSymbol, CellsFit, Tick, Wire.Parse;
      TickFitsAll(cfg, dil.View(), -1, now);
      var transitioned := dil.TickSlots(-1, now);
      match input
      case Nothing => DrainReadyBlocks();
      case ReceiveError =>
      case Frame(_) => TakeFrame(buf, received, now);
    }

    /** Parse, then push or drop. */
    method TakeFrame(buf: array<byte>, received: nat, now: int)
      requires Valid() && received <= buf.Length && buf as object != crcs.table
      modifies this`sent, pktSyms, dil, dil.slots, crcs, crcs.table, buf
      ensures Valid()
      ensures View() ==
        match Wire.Parse(old(buf[..received]), cfg.size, cfg.crcOn)
        case Padding(sym) => TakeSymbol(cfg, codec, old(View()), sym, now)
        case Accepted(sym) => TakeSymbol(cfg, codec, old(View()), sym, now)
        case CrcFailed(_) =>
          old(View()).(dil := old(dil.View()).(stats := old(dil.stats).(crcFail := old(dil.stats).crcFail + 1)))
        case _ => old(View())
    {
      hide TakeSymbol, CellsFit, Wire.Parse;
      var parsed := Wire.ParseFrame(buf, received, cfg.size, cfg.crcOn, crcs);
      match parsed
      case Padding(sym) => PushAndDrain(sym, now);
      case Accepted(sym) => PushAndDrain(sym, now);
      case CrcFailed(_) => dil.IncCrcDrop();
      case NotFec =>
      case TooShort =>
      case BadLength =>
      case Truncated =>
    }

    /** drain_ready_blocks: ends because every round leaves one ready block fewer. */
    method DrainReadyBlocks()
      requires Valid()
      modifies this`sent, pktSyms, dil, dil.slots
      ensures Valid() && View() == DrainReady(cfg, codec, old(View()))
    {
      hide HandleBlock, Inv, CellsFit;
      ghost var st := View();
      var i := dil.GetReadyBlock();
      while i < dil.slots.Length
        invariant Valid() && i == FirstIn(dil.slots[..], DeinterleaverSpec.Ready, 0)
        invariant DrainReady(cfg, codec, st) == DrainReady(cfg, codec, View())
        decreases RxSpec.Ready(dil.View())
      {
        HandleReady(i);
        i := dil.GetReadyBlock();
      }
    }
  }

  lemma SentNothing()
    ensures Sent([]) == []
  {
  }

  lemma {:induction false} SentConcat(a: seq<Reassembled>, b: seq<Reassembled>)
    ensures Sent(a + b) == Sent(a) + Sent(b)
  {
    if b == [] {
      assert a + b == a;
    } else {
      hide Sent;
      var p, r := b[..|b| - 1], b[|b| - 1];
      SentConcat(a, p);
      SentAppend(a + p, r);
      SentAppend(p, r);
      LastOff(a, b);
    }
  }

  lemma LastOff(a: seq<Reassembled>, b: seq<Reassembled>)
    requires b != []
    ensures b == b[..|b| - 1] + [b[|b| - 1]] && a + b == a + b[..|b| - 1] + [b[|b| - 1]]
  {
  }

  lemma AfterResults(gr: Group)
    requires Sized(gr.buffer)
    ensures After(gr).buffer == After(Group(gr.buffer, [])).buffer
    ensures After(gr).results == gr.results + After(Group(gr.buffer, [])).results
  {
    hide Reassemble;
  }

  /** Joining does not look at earlier results. */
  lemma JoinResults(gr: Group, s: Symbol)
    requires Sized(gr.buffer) && s.len <= |s.data|
    ensures Join(gr, s).buffer == Join(Group(gr.buffer, []), s).buffer
    ensures Join(gr, s).results == gr.results + Join(Group(gr.buffer, []), s).results
  {
    hide Reassemble;
  }

  lemma SlotFacts(cfg: TxConfig, dil: State, i: nat)
    requires RxOk(cfg, dil) && i < |dil.slots|
    ensures SlotFits(cfg, dil.slots[i]) && |dil.slots[i].block.symbols| == cfg.k + cfg.m
  {
    assert SlotOk(RxConfig(cfg), dil.slots[i]);
  }

  lemma SentSplit(results: seq<Reassembled>, r: Reassembled)
    ensures Sent(results + [r]) == Sent(results) + Sent([r])
  {
    SentAppend(results, r);
    SentAppend([], r);
    assert [] + [r] == [r];
  }
}
