/** The sizes of the packets the receive pipeline hands to the LAN, over every run. */
module RxSizes {
  import opened Types
  import opened DeinterleaverSpec
  import opened Fragmentation
  import ReassembledBytes
  import RxAges
  import FecWrapper
  import Wire
  import opened TxSpec
  import opened TxHistory
  import opened RxGrouping
  import opened RxSpec
  import opened WindowRuns
  import opened LossyDrain
  import RxOutcomes

  /** No packet is empty, and none is longer than the receive buffer. */
  ghost predicate Within(ps: seq<PacketBytes>) {
    forall i :: 0 <= i < |ps| ==> 0 < |ps[i]| <= 9200
  }

  ghost predicate AllWithin(results: seq<Reassembled>) {
    forall i :: 0 <= i < |results| && results[i].Packet? ==> |results[i].bytes| <= 9200
  }

  lemma FlushWithin(gr: Group)
    requires Sized(gr.buffer) && AllWithin(gr.results)
    ensures AllWithin(FlushGroup(gr).results)
  {
    var r := Reassemble(gr.buffer, REASSEM_BUF_SIZE);
    if r.Packet? { ReassembledBytes.PacketFits(gr.buffer, REASSEM_BUF_SIZE); }
  }

  lemma JoinWithin(gr: Group, s: Symbol)
    requires Sized(gr.buffer) && s.len <= |s.data| && AllWithin(gr.results)
    ensures AllWithin(Join(gr, s).results)
  {
    hide FlushGroup, AllWithin;
    if gr.buffer != [] && (CompleteGroup(gr.buffer) || s.index == 0) { FlushWithin(gr); }
    var buffered := Buffered(Before(gr, s), s);
    if CompleteGroup(buffered.buffer) { FlushWithin(buffered); }
  }

  lemma {:induction false} ScanWithin(k: nat, size: nat, symbols: seq<Symbol>, recon: seq<byte>, i: nat)
    requires Scannable(k, size, symbols, recon) && i <= k
    ensures AllWithin(ScanTo(k, size, symbols, recon, i).results)
  {
    hide Join, AllWithin;
    if i == 0 {
      NothingWithin();
    } else {
      ScanWithin(k, size, symbols, recon, i - 1);
      InRecon(k, size, i - 1);
      if HasPayload(symbols[i - 1], k) {
        JoinWithin(ScanTo(k, size, symbols, recon, i - 1), Rebuild(symbols[i - 1], recon, i - 1, size));
      }
    }
  }

  lemma NothingWithin()
    ensures AllWithin([]) && Within([])
  {
  }

  lemma {:induction false} SentWithin(results: seq<Reassembled>)
    requires AllWithin(results)
    ensures Within(Sent(results))
  {
    if results != [] { SentWithin(results[..|results| - 1]); }
  }

  lemma BlockWithin(cfg: TxConfig, codec: FecWrapper.Codec, symbols: seq<Symbol>)
    requires ValidTx(cfg) && SymbolsFit(cfg, symbols) && cfg.k <= |symbols|
    ensures Within(BlockPackets(cfg, codec, symbols))
  {
    hide Within, AllWithin, ScanTo, Sent, FlushGroup;
    NothingWithin();
    match FecWrapper.Decode(codec, cfg.k, symbols)
    case Ok(bytes) =>
      var recon := Recon(cfg, bytes);
      ScanWithin(cfg.k, cfg.size, symbols, recon, cfg.k);
      var gr := ScanTo(cfg.k, cfg.size, symbols, recon, cfg.k);
      if gr.buffer != [] { FlushWithin(gr); }
      SentWithin(Groups(cfg.k, cfg.size, symbols, recon));
    case _ =>
  }

  lemma RoundWithin(cfg: TxConfig, codec: FecWrapper.Codec, st: RxState, i: nat)
    requires RxOk(cfg, st.dil) && i < |st.dil.slots| && st.dil.slots[i].state == DeinterleaverSpec.Ready && Within(st.sent)
    ensures Within(HandleBlock(cfg, codec, st, i).sent)
  {
    hide BlockPackets, FecWrapper.Decode;
    BlockWithin(cfg, codec, st.dil.slots[i].block.symbols);
  }

  lemma {:induction false} DrainWithin(cfg: TxConfig, codec: FecWrapper.Codec, st: RxState)
    requires RxOk(cfg, st.dil) && Within(st.sent)
    ensures Within(DrainReady(cfg, codec, st).sent)
    decreases RxSpec.Ready(st.dil)
  {
    hide HandleBlock, Within, RxOk, DrainReady, DrainedSlots;
    DrainUnfolds(cfg, codec, st);
    var i := FirstIn(st.dil.slots, DeinterleaverSpec.Ready, 0);
    if i < |st.dil.slots| {
      RoundWithin(cfg, codec, st, i);
      DrainWithin(cfg, codec, HandleBlock(cfg, codec, st, i));
    }
  }

  lemma TakeWithin(cfg: TxConfig, codec: FecWrapper.Codec, st: RxState, sym: Symbol, now: int)
    requires RxOk(cfg, st.dil) && Within(st.sent)
    ensures Within(TakeSymbol(cfg, codec, st, sym, now).sent)
  {
    RxAges.RxParts(cfg, st.dil);
    hide RxOk, DrainReady, Push, Shaped, Within;
    RxSpec.PushFits(cfg, st.dil, sym, now);
    DrainWithin(cfg, codec, st.(dil := Push(RxConfig(cfg), st.dil, sym, now).0));
  }

  lemma OnceWithin(cfg: TxConfig, codec: FecWrapper.Codec, st: RxState, input: RxInput, now: int)
    requires RxOk(cfg, st.dil) && Within(st.sent)
    ensures Within(RxOnce(cfg, codec, st, input, now).sent)
  {
    RxAges.RxParts(cfg, st.dil);
    hide RxOk, TakeSymbol, DrainReady, Tick, Shaped, Wire.Parse, Within;
    TickFitsAll(cfg, st.dil, -1, now);
    var ticked := st.(dil := Tick(RxConfig(cfg), st.dil, -1, now));
    if input == Nothing {
      DrainWithin(cfg, codec, ticked);
    } else if RxOutcomes.Passes(cfg, input) {
      TakeWithin(cfg, codec, ticked, Wire.Parse(input.bytes, cfg.size, cfg.crcOn).sym, now);
    }
  }

  /** Over every run no empty packet is sent, and none of more than 9200 bytes. */
  lemma {:induction false} PacketsWithin(cfg: TxConfig, codec: FecWrapper.Codec, es: seq<RxEvent>)
    requires ValidTx(cfg)
    ensures RxOk(cfg, InitialRx(cfg).dil) && Within(RxRun(cfg, codec, InitialRx(cfg), es).sent)
  {
    hide RxOk, RxOnce, Within;
    InitialRxOk(cfg);
    if es == [] {
      NothingWithin();
    } else {
      var before, e := es[..|es| - 1], es[|es| - 1];
      PacketsWithin(cfg, codec, before);
      OnceWithin(cfg, codec, RxRun(cfg, codec, InitialRx(cfg), before), e.input, e.now);
    }
  }
}
