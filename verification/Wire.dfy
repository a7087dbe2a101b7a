/** The wire format: tx_serialize_and_send (src/tx_pipeline.c) and the parsing half of run_once (src/rx_pipeline.c). */
module Wire {
  import opened Types
  import opened Bytes
  import opened SymbolCrc

  /** The Ethernet II header in front of every frame: EtherType 0x7FEC. */
  const ETH_HEADER: seq<byte> := [
    0x01, 0x7f, 0x45, 0x43, 0x00, 0x01,
    0x02, 0x7f, 0x45, 0x43, 0x00, 0x01,
    0x7f, 0xec]
  const ETH_HEADER_SIZE := 14
  const WIRE_HEADER_SIZE := 18

  // ---------------------------------------------------------------------------
  // Format
  // ---------------------------------------------------------------------------

  function Fields(sym: Symbol): (f: seq<byte>)
    ensures |f| == WIRE_HEADER_SIZE
  {
    Header(sym) + BE32(sym.crc)
  }

  /** The frame of a symbol: only payload_len data bytes travel. */
  function Serialise(sym: Symbol): (w: seq<byte>)
    requires sym.len <= |sym.data|
    ensures |w| == ETH_HEADER_SIZE + WIRE_HEADER_SIZE + sym.len
  {
    ETH_HEADER + Fields(sym) + sym.data[..sym.len]
  }

  /** The frame, read as numbers with the most significant byte first. */
  lemma FrameFields(sym: Symbol)
    requires sym.len <= |sym.data|
    ensures FrameOf(Serialise(sym), sym)
  {
    hide BE16, BE32, Number;
    var h := Header(sym);
    HeaderFields(sym);
    BigEndian32(sym.crc, [0, 0, 0, 0]);
    var w := Serialise(sym);
    assert w[14..28] == h;
    assert w[14..18] == h[0..4] && w[18..22] == h[4..8] && w[22..24] == h[8..10];
    assert w[24..26] == h[10..12] && w[26..28] == h[12..14];
    assert w[28..32] == BE32(sym.crc);
  }

  /** Destination, source and EtherType, then the six fields, then the payload. */
  ghost predicate FrameOf(w: seq<byte>, sym: Symbol)
    requires sym.len <= |sym.data|
  {
    && |w| == 32 + sym.len
    && w[..14] == [1, 0x7f, 0x45, 0x43, 0, 1, 2, 0x7f, 0x45, 0x43, 0, 1, 0x7f, 0xec]
    && Number(w[14..18]) == sym.packetId && Number(w[18..22]) == sym.fecId && Number(w[22..24]) == sym.index
    && Number(w[24..26]) == sym.total && Number(w[26..28]) == sym.len && Number(w[28..32]) == sym.crc
    && w[32..] == sym.data[..sym.len]
  }

  datatype Parsed =
    | NotFec
    | TooShort
    | Padding(sym: Symbol)
    | BadLength
    | Truncated
    | CrcFailed(sym: Symbol)
    | Accepted(sym: Symbol)

  /** The header fields read back, with data all zero. */
  function ReadFields(w: seq<byte>, size: nat): Symbol
    requires |w| >= WIRE_HEADER_SIZE
  {
    Symbol(From32(w[0..4]), From32(w[4..8]), From16(w[8..10]), From16(w[10..12]), From16(w[12..14]),
           From32(w[14..18]), Zeros(size))
  }

  function Parse(frame: seq<byte>, size: nat, crcOn: bool): Parsed
  {
    if |frame| < ETH_HEADER_SIZE || frame[12] != 0x7f || frame[13] != 0xec then NotFec
    else
      var w := frame[ETH_HEADER_SIZE..];
      if |w| < WIRE_HEADER_SIZE then TooShort
      else
        var head := ReadFields(w, size);
        if head.packetId == 0 && head.len == 0 then Padding(head)
        else if head.len > size || head.len > MAX_SYMBOL_DATA_SIZE then BadLength
        else if |w| < WIRE_HEADER_SIZE + head.len then Truncated
        else
          var sym := head.(data := w[WIRE_HEADER_SIZE..WIRE_HEADER_SIZE + head.len] + Zeros(size - head.len));
          if crcOn && !Verifies(sym) then CrcFailed(sym) else Accepted(sym)
  }

  /** The frame's fields, read as numbers, are the symbol's; its data is the payload, zero-filled to the symbol size. */
  ghost predicate Carries(frame: seq<byte>, sym: Symbol, payload: nat, size: nat)
    requires |frame| >= 32 + payload
  {
    && sym.packetId == Number(frame[14..18]) && sym.fecId == Number(frame[18..22]) && sym.index == Number(frame[22..24])
    && sym.total == Number(frame[24..26]) && sym.len == Number(frame[26..28]) && sym.crc == Number(frame[28..32])
    && |sym.data| == size && payload <= size && sym.data[..payload] == frame[32..32 + payload]
    && forall i :: payload <= i < size ==> sym.data[i] == 0
  }

  lemma ReadAsNumbers(frame: seq<byte>, size: nat)
    requires |frame| >= 32
    ensures Carries(frame, ReadFields(frame[14..], size), 0, size)
  {
    hide Number, From16, From32;
    var w := frame[14..];
    assert w[0..4] == frame[14..18] && w[4..8] == frame[18..22] && w[8..10] == frame[22..24];
    assert w[10..12] == frame[24..26] && w[12..14] == frame[26..28] && w[14..18] == frame[28..32];
    BigEndian32(0, w[0..4]);
    BigEndian32(0, w[4..8]);
    BigEndian16(0, w[8..10]);
    BigEndian16(0, w[10..12]);
    BigEndian16(0, w[12..14]);
    BigEndian32(0, w[14..18]);
  }

  /** What becomes of any frame, in terms of its bytes. */
  lemma ParseOutcomes(frame: seq<byte>, size: nat, crcOn: bool)
    ensures var r := Parse(frame, size, crcOn);
      if |frame| < 14 || frame[12..14] != [0x7f, 0xec] then r == NotFec
      else if |frame| < 32 then r == TooShort
      else
        var id, len := Number(frame[14..18]), Number(frame[26..28]);
        if id == 0 && len == 0 then r.Padding? && Carries(frame, r.sym, 0, size)
        else if len > size || len > 9000 then r == BadLength
        else if |frame| < 32 + len then r == Truncated
        else
          && (r.CrcFailed? || r.Accepted?) && Carries(frame, r.sym, len, size)
          && (r.CrcFailed? <==> crcOn && !Verifies(r.sym))
  {
    hide Number, Verifies, ReadFields;
    if |frame| >= 14 {
      assert frame[12..14] == [frame[12], frame[13]];
      if frame[12..14] == [0x7f, 0xec] && |frame| >= 32 {
        var w := frame[14..];
        ReadAsNumbers(frame, size);
        var len := ReadFields(w, size).len;
        if len <= size && len <= 9000 && |frame| >= 32 + len {
          assert w[18..18 + len] == frame[32..32 + len];
        }
      }
    }
  }

  // ---------------------------------------------------------------------------
  // The program
  // ---------------------------------------------------------------------------

  /** memcpy into a frame buffer. */
  method Put(wire: array<byte>, at: nat, b: seq<byte>)
    requires at + |b| <= wire.Length
    modifies wire
    ensures wire[..at] == old(wire[..at]) && wire[at..at + |b|] == b
    ensures wire[..at + |b|] == old(wire[..at]) + b
  {
    forall i | 0 <= i < |b| { wire[at + i] := b[i]; }
  }

  /** The Ethernet header and the six fields. */
  method PutHeaders(wire: array<byte>, sym: Symbol)
    requires wire.Length >= ETH_HEADER_SIZE + WIRE_HEADER_SIZE
    modifies wire
    ensures wire[..ETH_HEADER_SIZE + WIRE_HEADER_SIZE] == ETH_HEADER + Fields(sym)
  {
    hide BE16, BE32;
    Put(wire, 0, ETH_HEADER);
    Put(wire, ETH_HEADER_SIZE + 0, BE32(sym.packetId));
    Put(wire, ETH_HEADER_SIZE + 4, BE32(sym.fecId));
    Put(wire, ETH_HEADER_SIZE + 8, BE16(sym.index));
    Put(wire, ETH_HEADER_SIZE + 10, BE16(sym.total));
    Put(wire, ETH_HEADER_SIZE + 12, BE16(sym.len));
    Put(wire, ETH_HEADER_SIZE + 14, BE32(sym.crc));
    FieldsAre(sym);
  }

  lemma FieldsAre(sym: Symbol)
    ensures ETH_HEADER + Fields(sym)
         == [] + ETH_HEADER + BE32(sym.packetId) + BE32(sym.fecId) + BE16(sym.index) + BE16(sym.total)
            + BE16(sym.len) + BE32(sym.crc)
  {
    hide BE16, BE32;
  }

  /** tx_serialize_and_send up to the send. */
  method SerialiseInto(wire: array<byte>, sym: Symbol) returns (wireLen: nat)
    requires wire.Length == ETH_HEADER_SIZE + WIRE_HEADER_SIZE + MAX_SYMBOL_DATA_SIZE
    requires sym.len <= |sym.data| && sym.len <= MAX_SYMBOL_DATA_SIZE
    modifies wire
    ensures wireLen <= wire.Length && wire[..wireLen] == Serialise(sym) && FrameOf(wire[..wireLen], sym)
  {
    hide Fields, FrameOf;
    FrameFields(sym);
    PutHeaders(wire, sym);
    if sym.len > 0 {
      Put(wire, ETH_HEADER_SIZE + WIRE_HEADER_SIZE, sym.data[..sym.len]);
    }
    wireLen := ETH_HEADER_SIZE + WIRE_HEADER_SIZE + sym.len;
  }

  lemma SameSlice(buf: array<byte>, n: nat, i: nat, j: nat)
    requires i <= j <= n <= buf.Length
    ensures buf[i..j] == buf[..n][i..j]
  {
  }

  lemma SameFields(buf: array<byte>, n: nat)
    requires 18 <= n <= buf.Length
    ensures var w := buf[..n];
      && buf[0..4] == w[0..4] && buf[4..8] == w[4..8] && buf[8..10] == w[8..10]
      && buf[10..12] == w[10..12] && buf[12..14] == w[12..14] && buf[14..18] == w[14..18]
  {
  }

  /** The parsing steps of rx_pipeline_run_once. */
  method ParseFrame(buf: array<byte>, received: nat, size: uint16, crcOn: bool, crcs: CrcTable)
    returns (r: Parsed)
    requires received <= buf.Length && buf != crcs.table as object
    requires crcs.Valid()
    modifies buf, crcs, crcs.table
    ensures crcs.Valid()
    ensures r == Parse(old(buf[..received]), size, crcOn)
  {
    hide Verifies, From16, From32;
    ghost var frame := buf[..received];
    var wireLen := received;
    if wireLen >= ETH_HEADER_SIZE && buf[12] == 0x7f && buf[13] == 0xec {
      wireLen := wireLen - ETH_HEADER_SIZE;
      forall i | 0 <= i < wireLen { buf[i] := buf[i + ETH_HEADER_SIZE]; }
    } else {
      return NotFec;
    }
    ghost var w := frame[ETH_HEADER_SIZE..];
    assert buf[..wireLen] == w;
    if wireLen < WIRE_HEADER_SIZE { return TooShort; }
    var sym := Symbol(From32(buf[0..4]), From32(buf[4..8]), From16(buf[8..10]), From16(buf[10..12]),
                      From16(buf[12..14]), From32(buf[14..18]), Zeros(size));
    assert sym == ReadFields(w, size) by { SameFields(buf, wireLen); }
    if sym.packetId == 0 && sym.len == 0 { return Padding(sym); }
    if sym.len > size { return BadLength; }
    if sym.len > MAX_SYMBOL_DATA_SIZE { return BadLength; }
    if wireLen < WIRE_HEADER_SIZE + sym.len { return Truncated; }
    SameSlice(buf, wireLen, WIRE_HEADER_SIZE, WIRE_HEADER_SIZE + sym.len);
    sym := sym.(data := buf[WIRE_HEADER_SIZE..WIRE_HEADER_SIZE + sym.len] + Zeros(size - sym.len));
    if crcOn {
      var ok := crcs.Verify(sym);
      if !ok { return CrcFailed(sym); }
    }
    return Accepted(sym);
  }

  // ---------------------------------------------------------------------------
  // Round trip
  // ---------------------------------------------------------------------------

  /** The header fields survive. */
  lemma FieldsRoundTrip(sym: Symbol, w: seq<byte>, size: nat)
    requires |w| >= WIRE_HEADER_SIZE && w[..WIRE_HEADER_SIZE] == Fields(sym)
    ensures ReadFields(w, size) == sym.(data := Zeros(size))
  {
    hide BE16, BE32, From16, From32;
    var f := Fields(sym);
    assert w[0..4] == f[0..4] == BE32(sym.packetId);
    assert w[4..8] == f[4..8] == BE32(sym.fecId);
    assert w[8..10] == f[8..10] == BE16(sym.index);
    assert w[10..12] == f[10..12] == BE16(sym.total);
    assert w[12..14] == f[12..14] == BE16(sym.len);
    assert w[14..18] == f[14..18] == BE32(sym.crc);
    RoundTrip32(sym.packetId);
    RoundTrip32(sym.fecId);
    RoundTrip16(sym.index);
    RoundTrip16(sym.total);
    RoundTrip16(sym.len);
    RoundTrip32(sym.crc);
  }

  /** What a receiver can rebuild: bytes beyond the payload length read as zero. */
  function Transmitted(sym: Symbol): (t: Symbol)
    requires sym.len <= |sym.data|
  {
    sym.(data := sym.data[..sym.len] + Zeros(|sym.data| - sym.len))
  }

  /**
   Parsing a serialised frame, whatever padding follows it, yields the transmitted symbol; a
   checksum stamped by the sender still verifies. Interleaver padding is recognised before that.
   */
  lemma ParseSerialised(sym: Symbol, trailing: seq<byte>, crcOn: bool)
    requires sym.len <= |sym.data| && sym.len <= MAX_SYMBOL_DATA_SIZE
    requires crcOn && !(sym.packetId == 0 && sym.len == 0) ==> Verifies(sym)
    ensures Parse(Serialise(sym) + trailing, |sym.data|, crcOn)
         == if sym.packetId == 0 && sym.len == 0 then Padding(sym.(data := Zeros(|sym.data|)))
            else Accepted(Transmitted(sym))
  {
    hide Verifies, ReadFields, Fields;
    var frame := Serialise(sym) + trailing;
    var w := frame[ETH_HEADER_SIZE..];
    assert w == Fields(sym) + sym.data[..sym.len] + trailing;
    assert w[..WIRE_HEADER_SIZE] == Fields(sym);
    FieldsRoundTrip(sym, w, |sym.data|);
    assert w[WIRE_HEADER_SIZE..WIRE_HEADER_SIZE + sym.len] == sym.data[..sym.len];
    if crcOn && !(sym.packetId == 0 && sym.len == 0) {
      assert Transmitted(sym).data[..sym.len] == sym.data[..sym.len];
      PaddingUnprotected(sym, Transmitted(sym));
    }
  }

  /** The symbol itself comes back exactly when its data is zero beyond the payload length. */
  lemma RoundTrip(sym: Symbol, trailing: seq<byte>, crcOn: bool)
    requires sym.len <= |sym.data| && sym.len <= MAX_SYMBOL_DATA_SIZE
    requires !(sym.packetId == 0 && sym.len == 0)
    requires crcOn ==> Verifies(sym)
    ensures Parse(Serialise(sym) + trailing, |sym.data|, crcOn) == Accepted(sym)
            <==> forall i :: sym.len <= i < |sym.data| ==> sym.data[i] == 0
  {
    hide Verifies, Parse, Serialise;
    ParseSerialised(sym, trailing, crcOn);
    var t := Transmitted(sym);
    if forall i :: sym.len <= i < |sym.data| ==> sym.data[i] == 0 {
      assert t.data == sym.data;
    } else {
      var i :| sym.len <= i < |sym.data| && sym.data[i] != 0;
      assert t.data[i] == 0;
    }
  }

  /** Block-builder padding keeps its block id and survives as a symbol of no payload. */
  lemma BuilderPaddingSurvives(sym: Symbol, trailing: seq<byte>, crcOn: bool)
    requires sym.packetId != 0 && sym.len == 0 && sym.data == Zeros(|sym.data|)
    requires crcOn ==> Verifies(sym)
    ensures Parse(Serialise(sym) + trailing, |sym.data|, crcOn) == Accepted(sym)
  {
    RoundTrip(sym, trailing, crcOn);
  }

  /** A corrupted identifier, index or payload stretch is caught when checksums are on. */
  lemma CorruptFrameDropped(sym: Symbol, bad: Symbol, trailing: seq<byte>)
    requires sym.len <= |sym.data| && sym.len <= MAX_SYMBOL_DATA_SIZE
    requires Verifies(sym) && Corrupted(sym, bad) && !(bad.packetId == 0 && bad.len == 0)
    ensures Parse(Serialise(bad) + trailing, |bad.data|, true) == CrcFailed(Transmitted(bad))
  {
    hide Verifies, Corrupted;
    CorruptionDetected(sym, bad);
    assert bad.len == sym.len && |bad.data| == |sym.data| by { SameLength(sym, bad); }
    var frame := Serialise(bad) + trailing;
    var w := frame[ETH_HEADER_SIZE..];
    hide ReadFields, Fields;
    assert w == Fields(bad) + bad.data[..bad.len] + trailing;
    FieldsRoundTrip(bad, w, |bad.data|);
    assert w[WIRE_HEADER_SIZE..WIRE_HEADER_SIZE + bad.len] == bad.data[..bad.len];
    assert Transmitted(bad).data[..bad.len] == bad.data[..bad.len];
    PaddingUnprotected(bad, Transmitted(bad));
  }

  lemma SameLength(sym: Symbol, bad: Symbol)
    requires Corrupted(sym, bad)
    ensures bad.len == sym.len && |bad.data| == |sym.data|
  {
  }
}
