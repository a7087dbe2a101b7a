/**
 The transmit pipeline object (src/tx_pipeline.c), proved against its specification: one class owning the
 builder, the interleaver and the checksum table.
 */
module TxPipelines {
  import opened Types
  import opened BlockBuilding
  import opened Fragmentation
  import opened SymbolCrc
  import opened Wire
  import FecWrapper
  import opened Interleaving
  import opened InterleaverWindows
  import opened TxSpec
  import Arithmetic

  /** The frames of a symbol sequence. */
  function Frames(cfg: TxConfig, syms: seq<Symbol>): (f: seq<seq<byte>>)
    requires AllFit(cfg, syms)
    ensures |f| == |syms|
  {
    seq(|syms|, i requires 0 <= i < |syms| => Serialise(syms[i]))
  }

  lemma FramesAppend(cfg: TxConfig, syms: seq<Symbol>, s: Symbol)
    requires AllFit(cfg, syms) && Fits(cfg, s)
    ensures AllFit(cfg, syms + [s])
    ensures Frames(cfg, syms + [s]) == Frames(cfg, syms) + [Serialise(s)]
  {
  }

  class TxPipeline {
    const cfg: TxConfig
    const codec: FecWrapper.Codec
    const builder: BlockBuilder
    const il: Interleaver
    const crcs: CrcTable
    var packetIdCounter: uint32
    /** The frames handed to the network interface so far, and the symbols they carry. */
    var frames: seq<seq<byte>>
    ghost var wire: seq<Symbol>

    ghost predicate Shape() {
      && ValidTx(cfg) && builder.k == cfg.k && builder.size == cfg.size && il.g == TxGeometry(cfg)
      && this !in il.Repr && builder !in il.Repr && builder.symbols !in il.Repr
      && crcs !in il.Repr && crcs.table !in il.Repr
    }

    ghost predicate Parts()
      reads this, builder, builder.symbols, il, il.Repr, crcs, crcs.table
    {
      Shape() && builder.Valid() && il.Valid() && crcs.Valid()
    }

    ghost function View(): TxState
      requires Parts()
      reads this, builder, builder.symbols, il, il.Repr, crcs, crcs.table
    {
      TxState(builder.View(), il.w, packetIdCounter, wire)
    }

    ghost predicate Valid()
      reads this, builder, builder.symbols, il, il.Repr, crcs, crcs.table
    {
      Parts() && TxOk(cfg, View()) && frames == Frames(cfg, wire)
    }

    constructor (cfg: TxConfig, codec: FecWrapper.Codec)
      requires ValidTx(cfg)
      ensures Valid() && this.cfg == cfg && this.codec == codec && View() == InitialTx && frames == []
      ensures fresh(builder) && fresh(builder.symbols) && fresh(il.Repr) && fresh(crcs) && fresh(crcs.table)
    {
      this.cfg, this.codec := cfg, codec;
      builder := new BlockBuilder(cfg.k, cfg.size);
      il := new Interleaver(TxGeometry(cfg));
      crcs := new CrcTable();
      packetIdCounter := 0;
      frames, wire := [], [];
      new;
      InitialOk(cfg);
    }

    /** tx_serialize_and_send: the frame goes out. */
    method SendSymbol(sym: Symbol)
      requires ValidTx(cfg) && AllFit(cfg, wire) && Fits(cfg, sym) && frames == Frames(cfg, wire)
      modifies this`frames, this`wire
      ensures wire == old(wire) + [sym] && AllFit(cfg, wire) && frames == Frames(cfg, wire)
    {
      var buf := new byte[ETH_HEADER_SIZE + WIRE_HEADER_SIZE + MAX_SYMBOL_DATA_SIZE];
      var len := SerialiseInto(buf, sym);
      FramesAppend(cfg, wire, sym);
      frames := frames + [buf[..len]];
      wire := wire + [sym];
    }

    /** drain_interleaver: pops and sends until the window is empty. */
    method DrainInterleaver()
      requires Valid()
      modifies this`frames, this`wire, il.Repr
      ensures Valid() && View() == Drain(cfg, old(View()))
    {
      hide Drain, DrainFrom, Pop, Frames, AllFit, FitsAll, Interleaver.Valid, WellFormed;
      InterleaverOk(il);
      ghost var st := View();
      DrainIs(cfg, st);
      PartsFit(cfg, st);
      if !il.ready { return; }
      ghost var g := TxGeometry(cfg);
      var rc := 0;
      while rc == 0
        invariant Shape() && il.Valid() && FitsAll(cfg, il.w.rows) && WellFormed(g, il.w)
        invariant rc == 0 || rc == 1
        invariant AllFit(cfg, wire) && frames == Frames(cfg, wire)
        invariant rc == 0 ==> il.w.ready && wire + DrainFrom(g, il.w) == st.wire + DrainFrom(g, st.window)
        invariant rc == 1 ==> il.w == EmptyWindow && wire == st.wire + DrainFrom(g, st.window)
        invariant rc == 0 ==> il.w.popCol <= g.n && il.w.popRow <= g.depth
        decreases 1 - rc, g.n - il.w.popCol, g.depth - il.w.popRow
      {
        ghost var w, sent := il.w, wire;
        InterleaverOk(il);
        PopFits(cfg, w);
        var sym: Symbol;
        sym, rc := il.PopReadySymbol();
        SendSymbol(sym);
        assert rc == 0 ==> sent + ([sym] + DrainFrom(g, il.w)) == sent + [sym] + DrainFrom(g, il.w);
      }
    }

    /** tick_and_drain_interleaver. */
    method TickAndDrainInterleaver(now: int)
      requires Valid()
      modifies this`frames, this`wire, il.Repr
      ensures Valid() && View() == TickAndDrain(cfg, old(View()), now)
    {
      hide Drain, Interleaver.Valid, WellFormed, FitsAll, AllFit, Tick, Frames;
      ghost var st := View();
      PartsFit(cfg, st);
      TickIs(cfg, st, now);
      var rc := il.TickWindow(now);
      InterleaverOk(il);
      if rc == 1 {
        DrainInterleaver();
      }
    }

    /** The copy loop of encode_and_drain: the builder's data, end to end. */
    method GatherSource() returns (src: seq<byte>)
      requires builder.Valid() && builder.k == cfg.k
      ensures src == SourceBytes(builder.symbols[..cfg.k], cfg.k)
    {
      src := [];
      for i := 0 to cfg.k
        invariant src == SourceBytes(builder.symbols[..cfg.k], i)
      {
        src := src + builder.symbols[i].data;
      }
    }

    /** Checksums are stamped only when enabled. */
    method SealSymbol(s: Symbol) returns (t: Symbol)
      requires crcs.Valid() && Fits(cfg, s) && cfg.size <= MAX_SYMBOL_DATA_SIZE
      modifies crcs, crcs.table
      ensures crcs.Valid() && t == Seal(cfg, s)
    {
      hide Stamped, Verifies;
      if cfg.crcOn {
        t := crcs.Stamp(s);
      } else {
        t := s;
      }
    }

    /** The repair symbols of a block, sealed. */
    method MakeRepairs(src: seq<byte>, id: uint32) returns (repairs: seq<Symbol>)
      requires ValidTx(cfg) && crcs.Valid()
      modifies crcs, crcs.table
      ensures crcs.Valid() && |repairs| == cfg.m
      ensures forall i :: 0 <= i < cfg.m ==> repairs[i] == RepairOf(cfg, codec, src, id, cfg.k + i)
    {
      hide Seal, RepairData;
      repairs := [];
      for i := 0 to cfg.m
        invariant crcs.Valid() && |repairs| == i
        invariant forall j :: 0 <= j < i ==> repairs[j] == RepairOf(cfg, codec, src, id, cfg.k + j)
      {
        var raw := Symbol(id, cfg.k + i, cfg.k + i, cfg.k + cfg.m, cfg.size, 0, RepairData(cfg, codec, src, cfg.k + i));
        var sealed := SealSymbol(raw);
        repairs := repairs + [sealed];
      }
    }

    /** The sources take the block's id and their positions, in place. */
    method SealSources(id: uint32)
      requires ValidTx(cfg) && crcs.Valid() && builder.Valid() && builder.k == cfg.k
      requires AllFit(cfg, builder.symbols[..])
      modifies crcs, crcs.table, builder.symbols
      ensures crcs.Valid() && builder.Valid()
      ensures forall i :: 0 <= i < cfg.k ==> builder.symbols[i] == SourceOf(cfg, old(builder.symbols[i]), id, i)
    {
      hide Seal;
      ghost var syms := builder.symbols[..];
      for i := 0 to cfg.k
        invariant crcs.Valid() && builder.Valid()
        invariant forall j :: 0 <= j < i ==> builder.symbols[j] == SourceOf(cfg, syms[j], id, j)
        invariant forall j :: i <= j < cfg.k ==> builder.symbols[j] == syms[j]
      {
        assert Fits(cfg, syms[i]);
        var sealed := SealSymbol(builder.symbols[i].(packetId := id, fecId := i));
        builder.symbols[i] := sealed;
      }
    }

    /** Pushing a block's symbols, sources then repairs, until one is rejected. */
    method PushSymbols(syms: seq<Symbol>, now: int) returns (ok: bool)
      requires ValidTx(cfg) && il.Valid() && il.g == TxGeometry(cfg) && FitsAll(cfg, il.w.rows) && AllFit(cfg, syms)
      requires WellFormed(il.g, il.w)
      modifies il.Repr
      ensures il.Valid() && (il.w, ok) == PushFrom(cfg, old(il.w), syms, 0, now)
    {
      hide Push, Interleaver.Valid, WellFormed, FitsAll;
      ghost var w0 := il.w;
      for i := 0 to |syms|
        invariant il.Valid() && WellFormed(il.g, il.w) && FitsAll(cfg, il.w.rows)
        invariant PushFrom(cfg, w0, syms, 0, now) == PushFrom(cfg, il.w, syms, i, now)
      {
        PushKeeps(TxGeometry(cfg), il.w, syms[i], now);
        PushFits(cfg, il.w, syms[i], now);
        var rc := il.PushSymbol(syms[i], now);
        if rc == -1 { return false; }
      }
      return true;
    }

    /** encode_and_drain: false when the interleaver rejected a symbol. */
    method EncodeAndDrainBlock(now: int) returns (ok: bool)
      requires Valid() && builder.symbolCount == cfg.k
      modifies this`frames, this`wire, il.Repr, crcs, crcs.table, builder.symbols
      ensures Valid() && (View(), ok) == EncodeAndDrain(cfg, codec, old(View()), now)
    {
      hide Drain, Interleaver.Valid, WellFormed, FitsAll, AllFit, Frames, BlockSymbols, PushFrom;
      ghost var st := View();
      PartsFit(cfg, st);
      var id: uint32 := builder.blockId % 0x1_0000_0000;
      var block := SealBlock(id);
      ghost var sealed := st.(builder := st.builder.(syms := block[..cfg.k]));
      SealedOk(cfg, st, block);
      DrainInterleaver();
      ghost var before := View();
      PartsFit(cfg, before);
      ok := PushSymbols(block, now);
      InterleaverOk(il);
      PushedOk(cfg, before, block, now);
      if ok {
        DrainInterleaver();
      }
    }

    /** The block's symbols: sources sealed in the builder, then the repairs. */
    method SealBlock(id: uint32) returns (block: seq<Symbol>)
      requires ValidTx(cfg) && crcs.Valid() && builder.Valid() && builder.k == cfg.k && builder.symbolCount == cfg.k
      requires AllFit(cfg, builder.View().syms)
      modifies crcs, crcs.table, builder.symbols
      ensures crcs.Valid() && builder.Valid()
      ensures AllFit(cfg, block) && |block| == cfg.k + cfg.m
      ensures block == BlockSymbols(cfg, codec, old(builder.View().syms), id)
      ensures builder.View() == old(builder.View()).(syms := block[..cfg.k])
    {
      hide SourceOf, RepairOf, SourceBytes;
      ghost var syms := builder.symbols[..];
      assert syms == builder.symbols[..cfg.k];
      var src := GatherSource();
      SealSources(id);
      var repairs := MakeRepairs(src, id);
      block := builder.symbols[..cfg.k] + repairs;
      assert block == BlockSymbols(cfg, codec, syms, id);
      assert block[..cfg.k] == builder.symbols[..cfg.k];
    }

    /** encode_and_drain and block_builder_reset, as every caller pairs them. */
    method CloseFullBlock(now: int) returns (ok: bool)
      requires Valid() && builder.symbolCount == cfg.k
      modifies this`frames, this`wire, il.Repr, crcs, crcs.table, builder, builder.symbols
      ensures Valid() && (View(), ok) == CloseBlock(cfg, codec, old(View()), now)
    {
      hide EncodeAndDrain, Interleaver.Valid, TxOk, Frames;
      ghost var st := View();
      CloseIs(cfg, codec, st, now);
      ok := EncodeAndDrainBlock(now);
      if ok {
        builder.ResetBlock();
      }
    }

    /** block_builder_finalize_with_padding, then the block is closed. */
    method Flush(now: int) returns (ok: bool)
      requires Valid()
      modifies this`frames, this`wire, il.Repr, crcs, crcs.table, builder, builder.symbols
      ensures Valid() && (View(), ok) == FlushBlock(cfg, codec, old(View()), now)
    {
      hide CloseBlock, Interleaver.Valid, TxOk, Frames;
      ghost var st := View();
      FlushIs(cfg, codec, st, now);
      builder.FinalizeWithPadding();
      ok := CloseFullBlock(now);
    }

    /** The timeout checks of run_once. */
    method FlushOnTimeout(now: int) returns (ok: bool)
      requires Valid()
      modifies this`frames, this`wire, il.Repr, crcs, crcs.table, builder, builder.symbols
      ensures Valid() && (View(), ok) == FlushIfTimedOut(cfg, codec, old(View()), now)
    {
      hide FlushBlock, Interleaver.Valid, TxOk, Frames;
      var rc := builder.CheckTimeout(BLOCK_TIMEOUT, now);
      ok := true;
      if rc == 1 && builder.symbolCount > 0 {
        ok := Flush(now);
      }
    }

    /** The fragment loop of run_once. */
    method AddFragments(f: seq<Symbol>, now: int) returns (ok: bool)
      requires Valid() && AllFit(cfg, f)
      modifies this`frames, this`wire, il.Repr, crcs, crcs.table, builder, builder.symbols
      ensures Valid() && (View(), ok) == AddFrom(cfg, codec, old(View()), f, 0, now)
    {
      hide CloseBlock, TickAndDrain, Interleaver.Valid, TxOk, Frames, AllFit;
      ghost var st := View();
      for i := 0 to |f|
        invariant Valid()
        invariant AddFrom(cfg, codec, st, f, 0, now) == AddFrom(cfg, codec, View(), f, i, now)
      {
        ghost var before := View();
        AddIs(cfg, codec, before, f, i, now);
        var rc := builder.AddSymbol(f[i], now);
        if rc == 1 {
          ok := CloseFullBlock(now);
          if !ok { return; }
          TickAndDrainInterleaver(now);
        }
      }
      return true;
    }

    /** The flush before a packet that does not fit in the open block. */
    method MakeRoomFor(frags: nat, now: int) returns (ok: bool)
      requires Valid()
      modifies this`frames, this`wire, il.Repr, crcs, crcs.table, builder, builder.symbols
      ensures Valid() && (View(), ok) == MakeRoom(cfg, codec, old(View()), frags, now)
      ensures old(builder.symbolCount) + frags <= builder.k ==> ok && View() == old(View())
    {
      hide FlushBlock, TickAndDrain, Interleaver.Valid, TxOk, Frames, AllFit;
      ok := true;
      if frags > 0 && builder.symbolCount > 0 && builder.symbolCount + frags > builder.k {
        ok := Flush(now);
        if ok { TickAndDrainInterleaver(now); }
      }
    }

    /** The part of run_once that handles a fragmented packet. */
    method TakeFragments(f: seq<Symbol>, now: int) returns (ok: bool)
      requires Valid() && AllFit(cfg, f)
      modifies this`frames, this`wire, il.Repr, crcs, crcs.table, builder, builder.symbols
      ensures Valid() && (View(), ok) == TakePacket(cfg, codec, old(View()), f, now)
    {
      hide MakeRoom, AddFrom, FlushIfTimedOut, Interleaver.Valid, TxOk, Frames, AllFit;
      ok := MakeRoomFor(|f|, now);
      if !ok { return; }
      ok := AddFragments(f, now);
      if !ok { return; }
      ok := FlushOnTimeout(now);
    }

    /** The packet's fragments, cut in a buffer of max_frags_per_packet symbols. */
    method Split(p: seq<byte>) returns (fragments: Fragments)
      requires ValidTx(cfg)
      ensures fragments == FragmentAll(p, packetIdCounter, cfg.size, MaxFrags(cfg))
    {
      hide FragmentAll;
      MaxFragsBound(cfg);
      var fragSyms := new Symbol[MaxFrags(cfg)](_ => BlankSymbol(0));
      var n := FragmentPacket(p, packetIdCounter, cfg.size, fragSyms, MaxFrags(cfg));
      fragments := if n < 0 then None else Some(fragSyms[..n]);
    }

    /** tx_pipeline_run_once: 0, or -1 when a block could not be handed on. */
    method RunOnceOn(input: Input, now: int) returns (rc: int)
      requires Valid()
      modifies this, il.Repr, crcs, crcs.table, builder, builder.symbols
      ensures Valid() && View() == RunOnce(cfg, codec, old(View()), input, now).0
      ensures rc == if RunOnce(cfg, codec, old(View()), input, now).1 then 0 else -1
    {
      hide TakePacket, FlushIfTimedOut, TickAndDrain, Interleaver.Valid, TxOk, Frames, AllFit, FragmentAll;
      match input
      case Idle =>
        var ok := FlushOnTimeout(now);
        if !ok { return -1; }
        TickAndDrainInterleaver(now);
        return 0;
      case NotForwarded =>
        return 0;
      case Lan(p) =>
        ghost var st := View();
        PartsFit(cfg, st);
        var fragments := Split(p);
        if fragments.None? { return 0; }
        FragmentsFit(cfg, p, packetIdCounter);
        packetIdCounter := (packetIdCounter + 1) % 0x1_0000_0000;
        CountedOk(cfg, st, packetIdCounter);
        var ok := TakeFragments(fragments.syms, now);
        if !ok { return -1; }
        TickAndDrainInterleaver(now);
        return 0;
    }
  }

  /** What an interleaver's invariant says about its window. */
  lemma InterleaverOk(il: Interleaver)
    requires il.Valid()
    ensures ValidGeometry(il.g) && WellFormed(il.g, il.w) && il.w.ready == il.ready
  {
  }

  lemma TickIs(cfg: TxConfig, st: TxState, now: int)
    requires TxOk(cfg, st)
    ensures var (w, rc) := Tick(TxGeometry(cfg), st.window, now);
      && ValidTx(cfg) && TxOk(cfg, st.(window := w))
      && TickAndDrain(cfg, st, now) == if rc == 1 then Drain(cfg, st.(window := w)) else st.(window := w)
  {
    hide Tick, FitsAll, WellFormed, Drain;
    Interleaving.TickKeeps(TxGeometry(cfg), st.window, now);
    TickFits(cfg, st.window, now);
  }

  lemma SealedOk(cfg: TxConfig, st: TxState, block: seq<Symbol>)
    requires TxOk(cfg, st) && AllFit(cfg, block) && |block| >= cfg.k
    ensures TxOk(cfg, st.(builder := st.builder.(syms := block[..cfg.k])))
  {
  }

  lemma PushedOk(cfg: TxConfig, st: TxState, block: seq<Symbol>, now: int)
    requires TxOk(cfg, st) && AllFit(cfg, block)
    ensures TxOk(cfg, st.(window := PushFrom(cfg, st.window, block, 0, now).0))
  {
    hide PushFrom, FitsAll, WellFormed;
  }

  lemma CloseIs(cfg: TxConfig, codec: FecWrapper.Codec, st: TxState, now: int)
    requires TxOk(cfg, st) && |st.builder.syms| == cfg.k
    ensures var (st', ok) := EncodeAndDrain(cfg, codec, st, now);
      && TxOk(cfg, st') && TxOk(cfg, st'.(builder := BlockBuilding.Reset(st'.builder)))
      && CloseBlock(cfg, codec, st, now)
         == if ok then (st'.(builder := BlockBuilding.Reset(st'.builder)), true) else (st', false)
  {
    hide EncodeAndDrain;
  }

  lemma FlushIs(cfg: TxConfig, codec: FecWrapper.Codec, st: TxState, now: int)
    requires TxOk(cfg, st)
    ensures |st.builder.syms| <= cfg.k
    ensures var padded := st.(builder := st.builder.(syms := PadTo(st.builder.syms, cfg.k, cfg.size)));
      TxOk(cfg, padded) && FlushBlock(cfg, codec, st, now) == CloseBlock(cfg, codec, padded, now)
  {
    hide CloseBlock;
    PadFits(cfg, st.builder.syms);
  }

  lemma AddIs(cfg: TxConfig, codec: FecWrapper.Codec, st: TxState, f: seq<Symbol>, i: nat, now: int)
    requires TxOk(cfg, st) && AllFit(cfg, f) && i < |f|
    ensures |st.builder.syms| <= cfg.k
    ensures |st.builder.syms| < cfg.k ==> TxOk(cfg, st.(builder := Add(st.builder, f[i], now)))
  {
  }

  lemma CountedOk(cfg: TxConfig, st: TxState, n: uint32)
    requires TxOk(cfg, st)
    ensures TxOk(cfg, st.(nextPacket := n))
  {
  }

  lemma MaxFragsBound(cfg: TxConfig)
    requires ValidTx(cfg)
    ensures MaxFrags(cfg) <= TX_MAX_PACKET_LEN
  {
    CountWithin(TX_MAX_PACKET_LEN, cfg.size, TX_MAX_PACKET_LEN);
    Arithmetic.MulMono(TX_MAX_PACKET_LEN, 1, cfg.size);
  }

  lemma PartsFit(cfg: TxConfig, st: TxState)
    requires TxOk(cfg, st)
    ensures ValidTx(cfg) && FitsAll(cfg, st.window.rows) && AllFit(cfg, st.wire)
    ensures |st.builder.syms| <= cfg.k && AllFit(cfg, st.builder.syms) && WellFormed(TxGeometry(cfg), st.window)
    ensures FitsAll(cfg, EmptyWindow.rows) && WellFormed(TxGeometry(cfg), EmptyWindow)
  {
  }

  lemma DrainIs(cfg: TxConfig, st: TxState)
    requires TxOk(cfg, st)
    ensures Drain(cfg, st) ==
      if st.window.ready
      then st.(window := EmptyWindow, wire := st.wire + DrainFrom(TxGeometry(cfg), st.window))
      else st
  {
    hide DrainFrom;
  }

  /** One pop: a sized symbol, and the rest of the drain. */
  lemma PopFits(cfg: TxConfig, w: Window)
    requires ValidTx(cfg) && WellFormed(TxGeometry(cfg), w) && w.ready && FitsAll(cfg, w.rows)
    ensures var g := TxGeometry(cfg);
      var (w', sym, rc) := Pop(g, w);
      && Fits(cfg, sym) && WellFormed(g, w') && FitsAll(cfg, w'.rows) && (rc == 0 || rc == 1)
      && (rc == 0 ==> w'.ready && DrainFrom(g, w) == [sym] + DrainFrom(g, w'))
      && (rc == 0 ==> w'.popCol <= g.n && w'.popRow <= g.depth)
      && (rc == 0 ==> w.popCol < w'.popCol || (w.popCol == w'.popCol && w.popRow < w'.popRow))
      && (rc == 1 ==> w' == EmptyWindow && DrainFrom(g, w) == [sym])
  {
    var g := TxGeometry(cfg);
    PopAdvances(g, w);
    PopKeeps(g, w);
    var (w', sym, rc) := Pop(g, w);
  }
}
