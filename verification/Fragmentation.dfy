/** Splitting a packet into symbols (src/packet_fragmenter.c) and joining them (src/packet_reassembler.c). */
module Fragmentation {
  import opened Types
  import opened Arithmetic

  const UINT16_MAX := 0xFFFF

  // ---------------------------------------------------------------------------
  // Fragmenting
  // ---------------------------------------------------------------------------

  /** The number of fragments: ceiling division. */
  function Count(len: nat, size: nat): nat
    requires size > 0
  {
    (len + size - 1) / size
  }

  function Min(a: nat, b: nat): nat {
    if a <= b then a else b
  }

  /** The payload length of fragment i. */
  function Share(len: nat, size: nat, i: nat): nat {
    if i * size <= len then Min(size, len - i * size) else 0
  }

  /** Fragment i of a packet: its slice, zero-filled to the symbol size. */
  function Fragment(p: seq<byte>, id: uint32, size: nat, i: nat): (f: Symbol)
    requires 0 < size <= MAX_SYMBOL_DATA_SIZE
    requires Count(|p|, size) <= UINT16_MAX && i < Count(|p|, size)
    ensures |f.data| == size
  {
    CountBounds(|p|, size, i);
    var len := Share(|p|, size, i);
    Symbol(id, i, i, Count(|p|, size), len, 0, p[i * size..i * size + len] + Zeros(size - len))
  }

  /** fragment_packet's output; None is its -1. */
  datatype Fragments = None | Some(syms: seq<Symbol>)

  predicate Fragmentable(len: nat, size: nat, max: nat) {
    0 < size <= MAX_SYMBOL_DATA_SIZE && Count(len, size) <= UINT16_MAX && Count(len, size) <= max
  }

  function FragmentAll(p: seq<byte>, id: uint32, size: nat, max: nat): Fragments {
    if !Fragmentable(|p|, size, max) then None
    else Some(seq(Count(|p|, size), i requires 0 <= i < Count(|p|, size) => Fragment(p, id, size, i)))
  }

  /** Every fragment starts inside the packet, and only the last may be short. */
  lemma CountBounds(len: nat, size: nat, i: nat)
    requires 0 < size && i < Count(len, size)
    ensures i * size < len
    ensures i + 1 < Count(len, size) ==> (i + 1) * size < len && Share(len, size, i) == size
    ensures i + 1 == Count(len, size) ==> len <= (i + 1) * size && Share(len, size, i) == len - i * size
    ensures Share(len, size, i) <= size && 0 < Share(len, size, i)
  {
    var n := Count(len, size);
    var r := (len + size - 1) % size;
    assert len + size - 1 == size * n + r;
    Distribute(size, i);
    assert size * (i + 1) == (i + 1) * size && size * i == i * size;
    MulMono(size, i + 1, n);
    if i + 1 < n {
      MulMono(size, i + 2, n);
      Distribute(size, i + 1);
      assert size * (i + 2) == size * (i + 1) + size;
    }
  }

  /** An empty packet has no fragment. */
  lemma CountZero(size: nat)
    requires size > 0
    ensures Count(0, size) == 0
  {
    SmallMod(size - 1, size);
    assert size - 1 == size * ((size - 1) / size) + (size - 1) % size;
  }

  /** Fragments fit a bound exactly when the packet does. */
  lemma CountWithin(len: nat, size: nat, k: nat)
    requires size > 0
    ensures Count(len, size) <= k <==> len <= k * size
  {
    var n := Count(len, size);
    if n > 0 {
      CountBounds(len, size, n - 1);
      assert n * size == size * n && k * size == size * k;
      if n <= k {
        MulMono(size, n, k);
      } else {
        MulMono(size, k, n - 1);
        assert (n - 1) * size == size * (n - 1);
      }
    } else {
      CountPositive(len, size);
      assert k * size == size * k;
      MulMono(size, 0, k);
    }
  }

  lemma CountPositive(len: nat, size: nat)
    requires size > 0
    ensures len > 0 ==> Count(len, size) > 0
  {
  }

  method FragmentPacket(p: seq<byte>, id: uint32, size: uint16, out: array<Symbol>, max: uint16)
    returns (n: int)
    requires max <= out.Length
    modifies out
    ensures match FragmentAll(p, id, size, max)
      case None => n == -1 && out[..] == old(out[..])
      case Some(f) => n == |f| <= max && out[..n] == f && out[n..] == old(out[n..])
  {
    if size == 0 || size > MAX_SYMBOL_DATA_SIZE { return -1; }
    var total := (|p| + size - 1) / size;
    if total > UINT16_MAX { return -1; }
    if total > max { return -1; }
    ghost var f := FragmentAll(p, id, size, max).syms;
    if |p| == 0 {
      CountZero(size);
      return 0;
    }
    var offset := 0;
    for i := 0 to total
      invariant offset == if i < total then i * size else |p|
      invariant out[..i] == f[..i]
      invariant out[total..] == old(out[total..])
    {
      hide Fragment;
      CountBounds(|p|, size, i);
      var remaining := |p| - offset;
      var len := if remaining > size then size else remaining;
      FragmentIs(p, id, size, i);
      out[i] := Symbol(id, i, i, total, len, 0, p[offset..offset + len] + Zeros(size - len));
      assert out[i] == f[i];
      assert (i + 1) * size == i * size + size;
      offset := offset + len;
    }
    return total;
  }

  lemma FragmentIs(p: seq<byte>, id: uint32, size: nat, i: nat)
    requires 0 < size <= MAX_SYMBOL_DATA_SIZE
    requires Count(|p|, size) <= UINT16_MAX && i < Count(|p|, size)
    ensures i * size < |p|
    ensures var len := Min(size, |p| - i * size);
      Fragment(p, id, size, i)
        == Symbol(id, i, i, Count(|p|, size), len, 0, p[i * size..i * size + len] + Zeros(size - len))
  {
    CountBounds(|p|, size, i);
  }

  // ---------------------------------------------------------------------------
  // Reassembling
  // ---------------------------------------------------------------------------

  datatype Reassembled = Rejected | Packet(bytes: seq<byte>)

  /** What the first loop finds: a malformed symbol, only last symbols, or a stride. */
  datatype Stride = Malformed | OnlyLast | Found(stride: uint16)

  function InferStride(syms: seq<Symbol>, id: uint32, total: uint16, i: nat): Stride
    requires i <= |syms|
    decreases |syms| - i
  {
    if i == |syms| then OnlyLast
    else if syms[i].index >= total || syms[i].packetId != id || syms[i].total != total then Malformed
    else if syms[i].index != total - 1 then Found(syms[i].len)
    else InferStride(syms, id, total, i + 1)
  }

  /** Overwrites buf at an offset: memcpy. */
  function Overwrite(buf: seq<byte>, offset: nat, b: seq<byte>): (r: seq<byte>)
    requires offset + |b| <= |buf|
    ensures |r| == |buf|
  {
    buf[..offset] + b + buf[offset + |b|..]
  }

  function Offset(index: nat, stride: nat): nat {
    index * stride
  }

  /** The second loop from symbol i on: the buffer and length it reaches, or Rejected. */
  function PlaceFrom(syms: seq<Symbol>, stride: nat, i: nat, buf: seq<byte>, len: nat): (r: Reassembled)
    requires i <= |syms| && len <= |buf|
    requires forall j :: 0 <= j < |syms| ==> syms[j].len <= |syms[j].data|
    decreases |syms| - i
  {
    if i == |syms| then Packet(buf[..len])
    else
      var offset := Offset(syms[i].index, stride);
      var end := offset + syms[i].len;
      if end > |buf| then Rejected
      else PlaceFrom(syms, stride, i + 1, Overwrite(buf, offset, syms[i].data[..syms[i].len]),
                     if end > len then end else len)
  }

  function Reassemble(syms: seq<Symbol>, max: nat): Reassembled
    requires forall j :: 0 <= j < |syms| ==> syms[j].len <= |syms[j].data|
  {
    if |syms| == 0 || syms[0].total == 0 || |syms| != syms[0].total then Rejected
    else match InferStride(syms, syms[0].packetId, syms[0].total, 0)
      case Malformed => Rejected
      case OnlyLast => if syms[0].len > max then Rejected else Packet(syms[0].data[..syms[0].len])
      case Found(stride) => if stride == 0 then Rejected else PlaceFrom(syms, stride, 0, Zeros(max), 0)
  }

  method ReassemblePacket(syms: seq<Symbol>, out: array<byte>) returns (n: int)
    requires forall j :: 0 <= j < |syms| ==> syms[j].len <= |syms[j].data|
    modifies out
    ensures match Reassemble(syms, out.Length)
      case Rejected => n == -1
      case Packet(p) => n == |p| <= out.Length && out[..n] == p
  {
    if |syms| == 0 { return -1; }
    var id, total := syms[0].packetId, syms[0].total;
    if total == 0 { return -1; }
    if |syms| != total { return -1; }
    var base: uint16, found := 0, false;
    var i := 0;
    while i < |syms| && !found
      invariant 0 <= i <= |syms|
      invariant found ==> InferStride(syms, id, total, 0) == Found(base)
      invariant !found ==> InferStride(syms, id, total, 0) == InferStride(syms, id, total, i)
      decreases |syms| - i, !found
    {
      if syms[i].index >= total || syms[i].packetId != id || syms[i].total != total { return -1; }
      if syms[i].index != total - 1 {
        base, found := syms[i].len, true;
      } else {
        i := i + 1;
      }
    }
    if !found {
      if syms[0].len > out.Length { return -1; }
      Copy(out, 0, syms[0].data[..syms[0].len]);
      return syms[0].len;
    }
    if base == 0 { return -1; }
    Copy(out, 0, Zeros(out.Length));
    assert out[..] == Zeros(out.Length);
    n := PlaceSymbols(syms, base, out);
  }

  lemma PlaceEnd(syms: seq<Symbol>, stride: nat)
    requires forall j :: 0 <= j < |syms| ==> syms[j].len <= |syms[j].data|
    ensures forall buf: seq<byte>, len: nat :: len <= |buf| ==> PlaceFrom(syms, stride, |syms|, buf, len) == Packet(buf[..len])
  {
  }

  lemma PlaceStep(syms: seq<Symbol>, stride: nat, i: nat, buf: seq<byte>, len: nat)
    requires i < |syms| && len <= |buf|
    requires forall j :: 0 <= j < |syms| ==> syms[j].len <= |syms[j].data|
    ensures var offset := Offset(syms[i].index, stride);
      var end := offset + syms[i].len;
      PlaceFrom(syms, stride, i, buf, len) ==
        if end > |buf| then Rejected
        else PlaceFrom(syms, stride, i + 1, Overwrite(buf, offset, syms[i].data[..syms[i].len]),
                       if end > len then end else len)
  {
    hide Overwrite, Offset;
  }

  /** The placement loop of reassemble_packet. */
  method PlaceSymbols(syms: seq<Symbol>, base: uint16, out: array<byte>) returns (n: int)
    requires forall j :: 0 <= j < |syms| ==> syms[j].len <= |syms[j].data|
    modifies out
    ensures match PlaceFrom(syms, base, 0, old(out[..]), 0)
      case Rejected => n == -1
      case Packet(p) => n == |p| <= out.Length && out[..n] == p
  {
    hide Overwrite, PlaceFrom;
    PlaceEnd(syms, base);
    var len := 0;
    for i := 0 to |syms|
      invariant 0 <= len <= out.Length
      invariant PlaceFrom(syms, base, 0, old(out[..]), 0) == PlaceFrom(syms, base, i, out[..], len)
    {
      var offset := Offset(syms[i].index, base);
      var end := offset + syms[i].len;
      PlaceStep(syms, base, i, out[..], len);
      if end > out.Length { return -1; }
      Copy(out, offset, syms[i].data[..syms[i].len]);
      if end > len { len := end; }
    }
    n := len;
  }

  /** memcpy. */
  method Copy(out: array<byte>, offset: nat, b: seq<byte>)
    requires offset + |b| <= out.Length
    modifies out
    ensures out[..] == Overwrite(old(out[..]), offset, b)
  {
    forall i | 0 <= i < |b| { out[offset + i] := b[i]; }
  }

  // ---------------------------------------------------------------------------
  // Round trip
  // ---------------------------------------------------------------------------

  /** syms carries p: the fragments of p in some order, under any common packet id. */
  ghost predicate Carries(syms: seq<Symbol>, p: seq<byte>, size: nat) {
    && 0 < size <= MAX_SYMBOL_DATA_SIZE && 0 < |p|
    && |syms| == Count(|p|, size) <= UINT16_MAX
    && (forall i {:trigger syms[i]} :: 0 <= i < |syms| ==> IsFragment(syms[i], p, size))
    && (forall i :: 0 <= i < |syms| ==> syms[i].packetId == syms[0].packetId)
    && (forall i, j {:trigger syms[i].index, syms[j].index} ::
          0 <= i < j < |syms| ==> syms[i].index != syms[j].index)
  }

  /** s holds the payload and position of one of p's fragments. */
  ghost predicate IsFragment(s: Symbol, p: seq<byte>, size: nat)
    requires 0 < size <= MAX_SYMBOL_DATA_SIZE && Count(|p|, size) <= UINT16_MAX
  {
    && s.index < Count(|p|, size) && s.total == Count(|p|, size)
    && s.len == Share(|p|, size, s.index)
    && s.index * size + s.len <= |p| && s.len <= |s.data|
    && s.data[..s.len] == p[s.index * size..s.index * size + s.len]
  }

  lemma FragmentCarriesSlice(p: seq<byte>, id: uint32, size: nat, i: nat)
    requires 0 < size <= MAX_SYMBOL_DATA_SIZE
    requires Count(|p|, size) <= UINT16_MAX && i < Count(|p|, size)
    ensures IsFragment(Fragment(p, id, size, i), p, size)
  {
    CountBounds(|p|, size, i);
  }

  /** Every index of the packet occurs among the symbols: they are as many, and distinct. */
  lemma EveryIndexOccurs(syms: seq<Symbol>, p: seq<byte>, size: nat, q: nat) returns (j: nat)
    requires Carries(syms, p, size) && q < |syms|
    ensures j < |syms| && syms[j].index == q
  {
    hide IsFragment, Count, Share;
    IndicesBelow(syms, p, size);
    var s := set i | 0 <= i < |syms| :: syms[i].index as int;
    DistinctIndices(syms, |syms|);
    SetBound(s, |syms|);
    assert q in s;
    j :| 0 <= j < |syms| && syms[j].index == q;
  }

  lemma IndicesBelow(syms: seq<Symbol>, p: seq<byte>, size: nat)
    requires Carries(syms, p, size)
    ensures forall i :: 0 <= i < |syms| ==> syms[i].index < |syms|
  {
    forall i | 0 <= i < |syms| ensures syms[i].index < |syms| { assert IsFragment(syms[i], p, size); }
  }

  lemma {:induction false} DistinctIndices(syms: seq<Symbol>, n: nat)
    requires n <= |syms|
    requires forall i, j {:trigger syms[i].index, syms[j].index} ::
               0 <= i < j < |syms| ==> syms[i].index != syms[j].index
    ensures |(set i | 0 <= i < n :: syms[i].index as int)| == n
  {
    var s := set i | 0 <= i < n :: syms[i].index as int;
    if n > 0 {
      DistinctIndices(syms, n - 1);
      var s' := set i | 0 <= i < n - 1 :: syms[i].index as int;
      assert s == s' + {syms[n - 1].index as int};
    }
  }

  /** Byte b of the packet belongs to symbol s. */
  predicate InShare(s: Symbol, size: nat, b: nat) {
    s.index * size <= b < s.index * size + size
  }

  /** The first n symbols have been written: their positions hold the packet's bytes. */
  ghost predicate Placed(syms: seq<Symbol>, p: seq<byte>, size: nat, n: nat, buf: seq<byte>, len: nat)
    requires n <= |syms| && size > 0 && |p| <= |buf|
  {
    && len <= |p|
    && (forall j, b {:trigger syms[j].index, buf[b]} ::
          0 <= j < n && 0 <= b < |p| && InShare(syms[j], size, b) ==> buf[b] == p[b])
    && (forall j {:trigger syms[j].index} :: 0 <= j < n ==> syms[j].index * size + syms[j].len <= len)
  }

  /** Writing one fragment puts its share of the packet in place and harms nothing already right. */
  lemma WriteShare(s: Symbol, p: seq<byte>, size: nat, buf: seq<byte>, b: nat)
    requires 0 < size <= MAX_SYMBOL_DATA_SIZE && Count(|p|, size) <= UINT16_MAX
    requires IsFragment(s, p, size) && |p| <= |buf| && b < |p|
    ensures s.index * size + s.len <= |p|
    ensures InShare(s, size, b) || buf[b] == p[b]
            ==> Overwrite(buf, s.index * size, s.data[..s.len])[b] == p[b]
  {
    hide Count, Share;
    var offset := s.index * size;
    if InShare(s, size, b) { ShareCovers(|p|, size, s.index, b); }
    if offset <= b < offset + s.len {
      assert s.data[..s.len][b - offset] == p[offset..offset + s.len][b - offset];
    }
  }

  lemma PlaceOne(syms: seq<Symbol>, p: seq<byte>, size: nat, n: nat, buf: seq<byte>, len: nat)
    requires Carries(syms, p, size) && n < |syms| && |p| <= |buf|
    requires Placed(syms, p, size, n, buf, len)
    ensures var s := syms[n];
      var end := s.index * size + s.len;
      && s.len <= |s.data| && end <= |buf|
      && Placed(syms, p, size, n + 1, Overwrite(buf, s.index * size, s.data[..s.len]),
                if end > len then end else len)
  {
    CarriesOne(syms, p, size, n);
    hide Count, Carries, Share, InShare, Overwrite;
    var s := syms[n];
    var after := Overwrite(buf, s.index * size, s.data[..s.len]);
    forall j, b | 0 <= j < n + 1 && 0 <= b < |p| && InShare(syms[j], size, b)
      ensures after[b] == p[b]
    {
      WriteShare(s, p, size, buf, b);
      if j < n { assert syms[j].index == syms[j].index && buf[b] == p[b]; }
    }
  }

  lemma CarriesOne(syms: seq<Symbol>, p: seq<byte>, size: nat, n: nat)
    requires Carries(syms, p, size) && n < |syms|
    ensures 0 < size <= MAX_SYMBOL_DATA_SIZE && Count(|p|, size) <= UINT16_MAX
    ensures IsFragment(syms[n], p, size)
  {
  }

  /** A fragment covers its whole stretch of the packet. */
  lemma ShareCovers(len: nat, size: nat, i: nat, b: nat)
    requires size > 0 && i < Count(len, size) && i * size <= b < i * size + size && b < len
    ensures b < i * size + Share(len, size, i)
  {
    CountBounds(len, size, i);
  }

  lemma {:induction false} PlacesPacket(syms: seq<Symbol>, p: seq<byte>, size: nat, i: nat, buf: seq<byte>, len: nat)
    requires Carries(syms, p, size) && i <= |syms| && |p| <= |buf|
    requires Placed(syms, p, size, i, buf, len)
    requires forall j :: 0 <= j < |syms| ==> syms[j].len <= |syms[j].data|
    ensures PlaceFrom(syms, size, i, buf, len) == Packet(p)
    decreases |syms| - i
  {
    hide Carries, Placed, Overwrite;
    if i < |syms| {
      PlaceOne(syms, p, size, i, buf, len);
      var s := syms[i];
      var end := s.index * size + s.len;
      PlacesPacket(syms, p, size, i + 1, Overwrite(buf, s.index * size, s.data[..s.len]),
                   if end > len then end else len);
    } else {
      AllPlaced(syms, p, size, buf, len);
    }
  }

  lemma AllPlaced(syms: seq<Symbol>, p: seq<byte>, size: nat, buf: seq<byte>, len: nat)
    requires Carries(syms, p, size) && |p| <= |buf|
    requires Placed(syms, p, size, |syms|, buf, len)
    ensures buf[..len] == p
  {
    hide Count, Share, Carries, Placed;
    forall b | 0 <= b < |p| ensures buf[b] == p[b] { ByteIsPlaced(syms, p, size, buf, len, b); }
    LengthIsReached(syms, p, size, buf, len);
  }

  lemma LengthIsReached(syms: seq<Symbol>, p: seq<byte>, size: nat, buf: seq<byte>, len: nat)
    requires Carries(syms, p, size) && |p| <= |buf|
    requires Placed(syms, p, size, |syms|, buf, len)
    ensures len == |p|
  {
    var n := |syms|;
    CountPositive(|p|, size);
    CountBounds(|p|, size, n - 1);
    var last := EveryIndexOccurs(syms, p, size, n - 1);
    CarriesOne(syms, p, size, last);
    hide Count, Share, Carries;
    assert syms[last].index * size + syms[last].len <= len;
  }

  lemma ByteIsPlaced(syms: seq<Symbol>, p: seq<byte>, size: nat, buf: seq<byte>, len: nat, b: nat)
    requires Carries(syms, p, size) && |p| <= |buf| && b < |p|
    requires Placed(syms, p, size, |syms|, buf, len)
    ensures buf[b] == p[b]
  {
    hide Share;
    CountWithin(|p|, size, |syms|);
    DivBound(size, |syms|, b);
    hide Count;
    var j := EveryIndexOccurs(syms, p, size, b / size);
    assert InShare(syms[j], size, b);
  }

  /** The stride found is the symbol size, or the packet is a single symbol. */
  lemma {:induction false} StrideIsSize(syms: seq<Symbol>, p: seq<byte>, size: nat, i: nat)
    requires Carries(syms, p, size) && i <= |syms|
    requires i < |syms| || |syms| == 1
    requires forall j :: 0 <= j < i ==> syms[j].index == |syms| - 1
    ensures InferStride(syms, syms[0].packetId, |syms|, i)
         == if |syms| == 1 then OnlyLast else Found(size)
    decreases |syms| - i
  {
    hide Count, Share;
    if i < |syms| {
      assert IsFragment(syms[i], p, size);
      CountBounds(|p|, size, syms[i].index);
      if syms[i].index == |syms| - 1 {
        StrideIsSize(syms, p, size, i + 1);
      }
    }
  }

  /** Reassembling a packet's fragments, in any order, returns the packet. */
  lemma RoundTrip(syms: seq<Symbol>, p: seq<byte>, size: nat, max: nat)
    requires Carries(syms, p, size) && |p| <= max
    ensures forall j :: 0 <= j < |syms| ==> syms[j].len <= |syms[j].data|
    ensures Reassemble(syms, max) == Packet(p)
  {
    CountPositive(|p|, size);
    assert IsFragment(syms[0], p, size);
    forall j | 0 <= j < |syms| ensures syms[j].len <= |syms[j].data| { assert IsFragment(syms[j], p, size); }
    StrideIsSize(syms, p, size, 0);
    if |syms| == 1 {
      CountBounds(|p|, size, 0);
      assert syms[0].data[..syms[0].len] == p[0..|p|] == p;
    } else {
      PlacesPacket(syms, p, size, 0, Zeros(max), 0);
    }
  }

  /** In particular, any permutation of what fragment_packet produced. */
  lemma PermutationRoundTrip(p: seq<byte>, id: uint32, size: nat, most: nat, syms: seq<Symbol>, max: nat)
    requires 0 < |p| <= max
    requires FragmentAll(p, id, size, most).Some?
    requires multiset(syms) == multiset(FragmentAll(p, id, size, most).syms)
    ensures forall j :: 0 <= j < |syms| ==> syms[j].len <= |syms[j].data|
    ensures Reassemble(syms, max) == Packet(p)
  {
    var f := FragmentAll(p, id, size, most).syms;
    assert |syms| == |multiset(syms)| == |multiset(f)| == |f|;
    forall i | 0 <= i < |syms|
      ensures IsFragment(syms[i], p, size) && syms[i].packetId == id
    {
      assert syms[i] in multiset(f);
      var j :| 0 <= j < |f| && f[j] == syms[i];
      FragmentCarriesSlice(p, id, size, j);
    }
    PermutationDistinct(syms, f);
    RoundTrip(syms, p, size, max);
  }

  lemma PermutationDistinct(syms: seq<Symbol>, f: seq<Symbol>)
    requires multiset(syms) == multiset(f)
    requires forall i :: 0 <= i < |f| ==> f[i].index == i
    ensures forall i, j {:trigger syms[i].index, syms[j].index} ::
              0 <= i < j < |syms| ==> syms[i].index != syms[j].index
  {
    forall i, j | 0 <= i < j < |syms| ensures syms[i].index != syms[j].index {
      if syms[i].index == syms[j].index {
        assert syms[i] in multiset(f) && syms[j] in multiset(f);
        var a :| 0 <= a < |f| && f[a] == syms[i];
        var b :| 0 <= b < |f| && f[b] == syms[j];
        assert a == b;
        CountsTwice(syms, i, j);
        CountsOnce(f, a);
        assert false;
      }
    }
  }

  lemma CountsTwice(s: seq<Symbol>, i: nat, j: nat)
    requires i < j < |s| && s[i] == s[j]
    ensures multiset(s)[s[i]] >= 2
  {
    assert s == s[..j] + [s[j]] + s[j + 1..];
    assert s[i] == s[..j][i];
    assert s[i] in multiset(s[..j]);
  }

  lemma CountsOnce(f: seq<Symbol>, a: nat)
    requires a < |f| && forall i :: 0 <= i < |f| ==> f[i].index == i
    ensures multiset(f)[f[a]] == 1
  {
    assert f == f[..a] + [f[a]] + f[a + 1..];
    assert f[a] !in f[..a] && f[a] !in f[a + 1..];
  }

  /**
   Validation stops at the first non-last symbol, so a set that repeats an index, and lacks
   another, is accepted.
   */
  lemma RepeatedIndexAccepted()
    ensures var a := Symbol(1, 0, 0, 2, 1, 0, [7]);
      Reassemble([a, a], 10) == Packet([7])
  {
    var a := Symbol(1, 0, 0, 2, 1, 0, [7]);
    var syms := [a, a];
    assert InferStride(syms, 1, 2, 0) == Found(1);
    var b := Overwrite(Zeros(10), 0, [7]);
    assert a.data[..a.len] == [7];
    assert PlaceFrom(syms, 1, 0, Zeros(10), 0) == PlaceFrom(syms, 1, 1, b, 1);
    var c := Overwrite(b, 0, [7]);
    assert PlaceFrom(syms, 1, 1, b, 1) == PlaceFrom(syms, 1, 2, c, 1);
    assert c[..1] == [7];
  }
}
