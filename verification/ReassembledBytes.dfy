/** The bytes an accepted set comes to, whatever it holds: each the last symbol's that covers it, else zero. */
module ReassembledBytes {
  import opened Types
  import opened Fragmentation
  import opened Acceptance

  /** Symbol s, placed at this stride, covers byte b. */
  predicate CoversByte(s: Symbol, stride: nat, b: nat) {
    s.index * stride <= b < s.index * stride + s.len
  }

  /** Byte b once the first i symbols are placed, in their order. */
  ghost function ByteAfter(syms: seq<Symbol>, stride: nat, i: nat, b: nat): byte
    requires i <= |syms| && Sized(syms)
  {
    if i == 0 then 0
    else if CoversByte(syms[i - 1], stride, b) then syms[i - 1].data[b - syms[i - 1].index * stride]
    else ByteAfter(syms, stride, i - 1, b)
  }

  /** The end of the symbol that reaches furthest among the first i. */
  ghost function Reach(syms: seq<Symbol>, stride: nat, i: nat): nat
    requires i <= |syms|
  {
    if i == 0 then 0
    else
      var before, end := Reach(syms, stride, i - 1), syms[i - 1].index * stride + syms[i - 1].len;
      if end > before then end else before
  }

  ghost predicate Placed(syms: seq<Symbol>, stride: nat, i: nat, buf: seq<byte>, len: nat)
    requires i <= |syms| && Sized(syms)
  {
    len == Reach(syms, stride, i) <= |buf| && forall b :: 0 <= b < |buf| ==> buf[b] == ByteAfter(syms, stride, i, b)
  }

  lemma PlacedNext(syms: seq<Symbol>, stride: nat, i: nat, buf: seq<byte>, len: nat)
    requires i < |syms| && Sized(syms) && Placed(syms, stride, i, buf, len)
    requires Offset(syms[i].index, stride) + syms[i].len <= |buf|
    ensures var end := Offset(syms[i].index, stride) + syms[i].len;
      Placed(syms, stride, i + 1, Overwrite(buf, Offset(syms[i].index, stride), syms[i].data[..syms[i].len]),
             if end > len then end else len)
  {
    var at := Offset(syms[i].index, stride);
    var buf' := Overwrite(buf, at, syms[i].data[..syms[i].len]);
    forall b | 0 <= b < |buf'| ensures buf'[b] == ByteAfter(syms, stride, i + 1, b) {
      if at <= b < at + syms[i].len { assert buf'[b] == syms[i].data[..syms[i].len][b - at]; }
    }
  }

  lemma {:induction false} PlaceGives(syms: seq<Symbol>, stride: nat, i: nat, buf: seq<byte>, len: nat)
    requires i <= |syms| && Sized(syms) && Placed(syms, stride, i, buf, len)
    requires PlaceFrom(syms, stride, i, buf, len).Packet?
    ensures var p := PlaceFrom(syms, stride, i, buf, len).bytes;
      && |p| == Reach(syms, stride, |syms|)
      && forall b :: 0 <= b < |p| ==> p[b] == ByteAfter(syms, stride, |syms|, b)
    decreases |syms| - i
  {
    hide Overwrite, ByteAfter, Reach;
    if i < |syms| {
      PlacedNext(syms, stride, i, buf, len);
      var at := Offset(syms[i].index, stride);
      var end := at + syms[i].len;
      PlaceGives(syms, stride, i + 1, Overwrite(buf, at, syms[i].data[..syms[i].len]), if end > len then end else len);
    }
  }

  /**
   An accepted set with a symbol that is not the last: the first of these sets the stride, every symbol is copied to its
   index times the stride, in order, over zeros, and the packet ends where the symbol that reaches furthest ends.
   */
  lemma BytesAre(syms: seq<Symbol>, max: nat, f: nat)
    requires Sized(syms) && Reassemble(syms, max).Packet? && StrideAt(syms, f, max)
    ensures var p, stride := Reassemble(syms, max).bytes, syms[f].len;
      && |p| == Reach(syms, stride, |syms|) <= max
      && forall b :: 0 <= b < |p| ==> p[b] == ByteAfter(syms, stride, |syms|, b)
  {
    InferFinds(syms, f, 0, max);
    StartPlaced(syms, syms[f].len, max);
    hide ByteAfter, Reach, InferStride;
    PlaceGives(syms, syms[f].len, 0, Zeros(max), 0);
    PlacedShort(syms, syms[f].len, 0, Zeros(max), 0);
  }

  /** The first loop stops at symbol f. */
  lemma {:induction false} InferFinds(syms: seq<Symbol>, f: nat, i: nat, max: nat)
    requires StrideAt(syms, f, max) && i <= f
    ensures InferStride(syms, syms[0].packetId, syms[0].total, i) == Found(syms[f].len)
    decreases f - i
  {
    assert Consistent(syms, i) && (i < f ==> Last(syms, i));
    if i < f { InferFinds(syms, f, i + 1, max); }
  }

  lemma StartPlaced(syms: seq<Symbol>, stride: nat, max: nat)
    requires Sized(syms)
    ensures Placed(syms, stride, 0, Zeros(max), 0)
  {
  }

  lemma {:induction false} PlacedShort(syms: seq<Symbol>, stride: nat, i: nat, buf: seq<byte>, len: nat)
    requires i <= |syms| && Sized(syms) && len <= |buf| && PlaceFrom(syms, stride, i, buf, len).Packet?
    ensures |PlaceFrom(syms, stride, i, buf, len).bytes| <= |buf|
    decreases |syms| - i
  {
    hide Overwrite;
    if i < |syms| {
      var at := Offset(syms[i].index, stride);
      var end := at + syms[i].len;
      PlacedShort(syms, stride, i + 1, Overwrite(buf, at, syms[i].data[..syms[i].len]), if end > len then end else len);
    }
  }

  /** An accepted set of last symbols only comes to the first of them. */
  lemma LastBytes(syms: seq<Symbol>, max: nat)
    requires Sized(syms) && Reassemble(syms, max).Packet? && OnlyLastSymbols(syms, max)
    ensures Reassemble(syms, max).bytes == syms[0].data[..syms[0].len]
  {
    StrideFound(syms, 0);
  }

  lemma PacketFits(syms: seq<Symbol>, max: nat)
    requires Sized(syms) && Reassemble(syms, max).Packet?
    ensures |Reassemble(syms, max).bytes| <= max
  {
    match InferStride(syms, syms[0].packetId, syms[0].total, 0)
    case Found(stride) => PlacedShort(syms, stride, 0, Zeros(max), 0);
    case OnlyLast =>
  }
}
