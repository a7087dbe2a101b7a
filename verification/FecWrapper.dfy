/** The FEC wrapper (src/fec_wrapper.c): which symbols are fed to the decoder, in which order, and when it stops. */
module FecWrapper {
  import opened Types

  // ---------------------------------------------------------------------------
  // The codec, as an unknown pair of functions on what has been fed so far
  // ---------------------------------------------------------------------------

  datatype Fed = Fed(fecId: uint32, data: seq<byte>)

  datatype Answer = Success | NeedMore | Failure

  datatype Recovery = Recovered(bytes: seq<byte>) | NotRecovered

  datatype Codec = Codec(
    encode: (seq<byte>, nat) -> seq<byte>,
    answer: seq<Fed> -> Answer,
    recover: seq<Fed> -> Recovery)

  /** One decoding session: fed until it succeeds, and never again. */
  class Decoder {
    const codec: Codec
    var fed: seq<Fed>
    var done: bool

    constructor (codec: Codec)
      ensures this.codec == codec && fed == [] && !done
    {
      this.codec := codec;
      fed := [];
      done := false;
    }

    method Feed(fecId: uint32, data: seq<byte>) returns (a: Answer)
      requires !done
      modifies this
      ensures fed == old(fed) + [Fed(fecId, data)]
      ensures a == codec.answer(fed) && done == a.Success?
    {
      fed := fed + [Fed(fecId, data)];
      a := codec.answer(fed);
      done := a.Success?;
    }

    method Recover() returns (r: Recovery)
      requires done
      ensures r == codec.recover(fed)
    {
      r := codec.recover(fed);
    }
  }

  // ---------------------------------------------------------------------------
  // Counting and ordering
  // ---------------------------------------------------------------------------

  /** The C cast of a fec_id to int. */
  function AsInt(x: uint32): int {
    if x < 0x8000_0000 then x else x - 0x1_0000_0000
  }

  /** A hole is marked by packet id zero. */
  predicate Present(s: Symbol) {
    s.packetId != 0
  }

  predicate IsSource(s: Symbol, k: nat) {
    AsInt(s.fecId) < k
  }

  function CountValid(symbols: seq<Symbol>, i: nat): (count: nat)
    requires i <= |symbols|
    ensures count <= i
  {
    if i == 0 then 0 else CountValid(symbols, i - 1) + if Present(symbols[i - 1]) then 1 else 0
  }

  /** The present positions below i, sources or repairs, in ascending order. */
  function Positions(symbols: seq<Symbol>, k: nat, source: bool, i: nat): (p: seq<nat>)
    requires i <= |symbols|
    ensures forall j :: 0 <= j < |p| ==>
              p[j] < i && Present(symbols[p[j]]) && IsSource(symbols[p[j]], k) == source
    ensures forall a, b :: 0 <= a < b < |p| ==> p[a] < p[b]
  {
    if i == 0 then []
    else
      var p := Positions(symbols, k, source, i - 1);
      if Present(symbols[i - 1]) && IsSource(symbols[i - 1], k) == source then p + [i - 1] else p
  }

  function FeedOrder(symbols: seq<Symbol>, k: nat): (order: seq<nat>)
    ensures forall j :: 0 <= j < |order| ==> order[j] < |symbols|
  {
    Positions(symbols, k, true, |symbols|) + Positions(symbols, k, false, |symbols|)
  }

  method CountValidSymbols(symbols: seq<Symbol>) returns (count: nat)
    ensures count == CountValid(symbols, |symbols|)
  {
    count := 0;
    for i := 0 to |symbols|
      invariant count == CountValid(symbols, i)
    {
      if symbols[i].packetId != 0 {
        count := count + 1;
      }
    }
  }

  /** fec_build_feed_order: two passes over the symbols. */
  method BuildFeedOrder(symbols: seq<Symbol>, k: nat, out: array<nat>) returns (feeds: nat, repairs: nat)
    requires out.Length == |symbols|
    modifies out
    ensures feeds == |FeedOrder(symbols, k)| <= out.Length && out[..feeds] == FeedOrder(symbols, k)
    ensures repairs == |Positions(symbols, k, false, |symbols|)|
  {
    var pos := 0;
    for i := 0 to |symbols|
      invariant pos <= i && out[..pos] == Positions(symbols, k, true, i)
    {
      if symbols[i].packetId != 0 && AsInt(symbols[i].fecId) < k {
        out[pos] := i;
        pos := pos + 1;
      }
    }
    ghost var sources := out[..pos];
    repairs := 0;
    for i := 0 to |symbols|
      invariant |sources| <= pos && repairs == pos - |sources|
      invariant pos == |sources| + |Positions(symbols, k, false, i)|
      invariant pos <= |symbols| && out[..pos] == sources + Positions(symbols, k, false, i)
    {
      if symbols[i].packetId != 0 && AsInt(symbols[i].fecId) >= k {
        RoomLeft(symbols, k, i);
        out[pos] := i;
        pos := pos + 1;
        repairs := repairs + 1;
      }
    }
    feeds := pos;
  }

  /** How many of the first i symbols are present and of the kind. */
  function CountWith(symbols: seq<Symbol>, k: nat, source: bool, i: nat): (count: nat)
    requires i <= |symbols|
    ensures count == |Positions(symbols, k, source, i)|
  {
    if i == 0 then 0
    else CountWith(symbols, k, source, i - 1)
         + if Present(symbols[i - 1]) && IsSource(symbols[i - 1], k) == source then 1 else 0
  }

  lemma {:induction false} SourcesAndRepairs(symbols: seq<Symbol>, k: nat, i: nat)
    requires i <= |symbols|
    ensures CountWith(symbols, k, true, i) + CountWith(symbols, k, false, i) == CountValid(symbols, i)
  {
    if i > 0 { SourcesAndRepairs(symbols, k, i - 1); }
  }

  /** Passing a repair leaves room for it: the sources ahead cannot fill its place. */
  lemma RoomLeft(symbols: seq<Symbol>, k: nat, i: nat)
    requires i < |symbols| && Present(symbols[i]) && !IsSource(symbols[i], k)
    ensures |Positions(symbols, k, true, |symbols|)| + |Positions(symbols, k, false, i)| < |symbols|
  {
    SourcesAndRepairs(symbols, k, |symbols|);
    CountGrows(symbols, k, i + 1, |symbols|);
  }

  lemma {:induction false} CountGrows(symbols: seq<Symbol>, k: nat, i: nat, j: nat)
    requires i <= j <= |symbols|
    ensures CountWith(symbols, k, false, i) <= CountWith(symbols, k, false, j)
  {
    if i < j { CountGrows(symbols, k, i, j - 1); }
  }

  /** Every present position of the kind is listed. */
  lemma {:induction false} Listed(symbols: seq<Symbol>, k: nat, source: bool, i: nat, p: nat)
    requires p < i <= |symbols| && Present(symbols[p]) && IsSource(symbols[p], k) == source
    ensures p in Positions(symbols, k, source, i)
  {
    if p < i - 1 { Listed(symbols, k, source, i - 1, p); }
  }

  /** The feed order lists exactly the present positions, each once, sources before repairs. */
  lemma FeedOrderTheorem(symbols: seq<Symbol>, k: nat)
    ensures var order := FeedOrder(symbols, k);
      && |order| == CountValid(symbols, |symbols|)
      && (forall p :: p in order <==> 0 <= p < |symbols| && Present(symbols[p]))
      && (forall a, b :: 0 <= a < b < |order| ==> order[a] != order[b])
      && (forall a, b :: 0 <= a < b < |order| && IsSource(symbols[order[b]], k) ==> IsSource(symbols[order[a]], k))
      && (forall a, b :: 0 <= a < b < |order| && IsSource(symbols[order[a]], k) == IsSource(symbols[order[b]], k) ==>
            order[a] < order[b])
  {
    SourcesAndRepairs(symbols, k, |symbols|);
    var s, r := Positions(symbols, k, true, |symbols|), Positions(symbols, k, false, |symbols|);
    forall p | 0 <= p < |symbols| && Present(symbols[p])
      ensures p in s + r
    {
      Listed(symbols, k, IsSource(symbols[p], k), |symbols|, p);
    }
  }

  // ---------------------------------------------------------------------------
  // Decoding a block
  // ---------------------------------------------------------------------------

  datatype Decoded = Ok(bytes: seq<byte>) | Error | TooManyHoles

  function Feeds(symbols: seq<Symbol>, order: seq<nat>): (f: seq<Fed>)
    requires forall j :: 0 <= j < |order| ==> order[j] < |symbols|
    ensures |f| == |order|
  {
    seq(|order|, j requires 0 <= j < |order| => Fed(symbols[order[j]].fecId, symbols[order[j]].data))
  }

  /** Feeding from position i on, until the decoder stops asking: its last answer and how much it was fed. */
  function FeedFrom(codec: Codec, feeds: seq<Fed>, i: nat): (r: (Answer, nat))
    requires i <= |feeds|
    ensures i <= r.1 <= |feeds|
    decreases |feeds| - i
  {
    if i == |feeds| then (NeedMore, i)
    else match codec.answer(feeds[..i + 1])
      case NeedMore => FeedFrom(codec, feeds, i + 1)
      case other => (other, i + 1)
  }

  /** fec_decode_block on a block's symbol array. */
  function Decode(codec: Codec, k: nat, symbols: seq<Symbol>): Decoded {
    var valid, n := CountValid(symbols, |symbols|), |symbols|;
    var missing, m := if n > valid then n - valid else 0, if n > k then n - k else 0;
    if valid < k then Error
    else if n > k && missing > m then TooManyHoles
    else
      var feeds := Feeds(symbols, FeedOrder(symbols, k));
      var (last, fed) := FeedFrom(codec, feeds, 0);
      if !last.Success? then Error
      else match codec.recover(feeds[..fed])
        case Recovered(bytes) => Ok(bytes)
        case NotRecovered => Error
  }

  method DecodeBlock(codec: Codec, k: nat, symbols: seq<Symbol>) returns (result: Decoded)
    ensures result == Decode(codec, k, symbols)
  {
    hide CountValid, FeedOrder, Positions;
    var n := |symbols|;
    var valid := CountValidSymbols(symbols);
    var missing := if n > valid then n - valid else 0;
    var m := if n > k then n - k else 0;
    if valid < k { return Error; }
    if n > k && missing > m { return TooManyHoles; }
    var order := new nat[n];
    var count, repairs := BuildFeedOrder(symbols, k, order);
    ghost var feeds := Feeds(symbols, FeedOrder(symbols, k));
    var decoder := new Decoder(codec);
    var fed := 0;
    while fed < count && !decoder.done
      invariant fed <= count && order[..count] == FeedOrder(symbols, k)
      invariant decoder.codec == codec && decoder.fed == feeds[..fed]
      invariant !decoder.done ==> FeedFrom(codec, feeds, 0) == FeedFrom(codec, feeds, fed)
      invariant decoder.done ==> FeedFrom(codec, feeds, 0) == (Success, fed)
      decreases count - fed
    {
      var sym := symbols[order[fed]];
      assert order[fed] == order[..count][fed];
      var a := decoder.Feed(sym.fecId, sym.data);
      assert feeds[..fed + 1] == feeds[..fed] + [feeds[fed]];
      fed := fed + 1;
      if a.Failure? { return Error; }
    }
    if !decoder.done { return Error; }
    var r := decoder.Recover();
    match r
    case Recovered(bytes) => result := Ok(bytes);
    case NotRecovered => result := Error;
  }

  /** The hole guard never fires: too many holes is too few symbols, which is caught first. */
  lemma TooManyHolesUnreachable(codec: Codec, k: nat, symbols: seq<Symbol>)
    ensures Decode(codec, k, symbols) != TooManyHoles
  {
  }

  // ---------------------------------------------------------------------------
  // What decoding comes to, in terms of the codec's answers
  // ---------------------------------------------------------------------------

  /** The cast keeps the value modulo 2 to the 32 and is a 32-bit signed number. */
  lemma AsIntIs(x: uint32)
    ensures -0x8000_0000 <= AsInt(x) < 0x8000_0000 && (AsInt(x) - x) % 0x1_0000_0000 == 0
  {
  }

  lemma {:induction false} ValidCounted(symbols: seq<Symbol>, i: nat)
    requires i <= |symbols|
    ensures CountValid(symbols, i) == |set p | 0 <= p < i && symbols[p].packetId != 0|
  {
    var valid := set p | 0 <= p < i && symbols[p].packetId != 0;
    if i == 0 {
      assert valid == {};
    } else {
      ValidCounted(symbols, i - 1);
      var before := set p | 0 <= p < i - 1 && symbols[p].packetId != 0;
      assert valid == if symbols[i - 1].packetId != 0 then before + {i - 1} else before;
    }
  }

  /** The decoder asks for more after each of the first n - 1 feeds, and not after the n-th. */
  ghost predicate StopsAt(codec: Codec, feeds: seq<Fed>, n: nat) {
    && 1 <= n <= |feeds| && codec.answer(feeds[..n]) != NeedMore
    && forall j :: 1 <= j < n ==> codec.answer(feeds[..j]) == NeedMore
  }

  lemma StopsOnce(codec: Codec, feeds: seq<Fed>, m: nat, n: nat)
    requires StopsAt(codec, feeds, m) && StopsAt(codec, feeds, n)
    ensures m == n
  {
  }

  lemma {:induction false} FeedStops(codec: Codec, feeds: seq<Fed>, i: nat)
    requires i <= |feeds| && forall j :: 1 <= j <= i ==> codec.answer(feeds[..j]) == NeedMore
    ensures var (last, fed) := FeedFrom(codec, feeds, i);
      if last == NeedMore then fed == |feeds| && forall j :: 1 <= j <= |feeds| ==> codec.answer(feeds[..j]) == NeedMore
      else StopsAt(codec, feeds, fed) && last == codec.answer(feeds[..fed])
    decreases |feeds| - i
  {
    if i < |feeds| && codec.answer(feeds[..i + 1]) == NeedMore { FeedStops(codec, feeds, i + 1); }
  }

  /**
   A block decodes exactly when at least k of its symbols are present, the first answer other than a request for more is
   a success, and what was fed by then recovers; every other block is an error.
   */
  lemma DecodeOutcome(codec: Codec, k: nat, symbols: seq<Symbol>, bytes: seq<byte>)
    ensures var feeds := Feeds(symbols, FeedOrder(symbols, k));
      Decode(codec, k, symbols) == Ok(bytes) <==>
        && CountValid(symbols, |symbols|) >= k
        && exists n: nat :: StopsAt(codec, feeds, n) && codec.answer(feeds[..n]) == Success
                       && codec.recover(feeds[..n]) == Recovered(bytes)
    ensures Decode(codec, k, symbols).Ok? || Decode(codec, k, symbols) == Error
  {
    hide FeedOrder, CountValid;
    var feeds := Feeds(symbols, FeedOrder(symbols, k));
    FeedStops(codec, feeds, 0);
    forall m: nat, n: nat | StopsAt(codec, feeds, m) && StopsAt(codec, feeds, n) ensures m == n { StopsOnce(codec, feeds, m, n); }
  }

  // ---------------------------------------------------------------------------
  // An ideal codec
  // ---------------------------------------------------------------------------

  /** The feeds are k-byte-block symbols of one source block, under distinct ids below n. */
  ghost predicate FedFrom(codec: Codec, n: nat, src: seq<byte>, feeds: seq<Fed>) {
    && (forall j :: 0 <= j < |feeds| ==> feeds[j].fecId < n && feeds[j].data == codec.encode(src, feeds[j].fecId))
    && (forall i, j {:trigger feeds[i].fecId, feeds[j].fecId} ::
          0 <= i < j < |feeds| ==> feeds[i].fecId != feeds[j].fecId)
  }

  /** Source symbols are the source bytes, repair symbols are whole symbols. */
  ghost predicate Systematic(codec: Codec, k: nat, n: nat, size: nat) {
    forall src: seq<byte>, id: nat :: |src| == k * size && id < n ==>
      && |codec.encode(src, id)| == size
      && (id < k ==> 0 <= id * size <= (id + 1) * size <= |src|
                     && codec.encode(src, id) == src[id * size..(id + 1) * size])
  }

  /** Any k distinct symbols of a block determine it; fewer do not. */
  ghost predicate Ideal(codec: Codec, k: nat, n: nat, size: nat) {
    && Systematic(codec, k, n, size)
    && forall src, feeds :: |src| == k * size && FedFrom(codec, n, src, feeds) ==>
         && (|feeds| < k ==> codec.answer(feeds) == NeedMore)
         && (|feeds| == k ==> codec.answer(feeds) == Success && codec.recover(feeds) == Recovered(src))
  }

  lemma FedPrefix(codec: Codec, n: nat, src: seq<byte>, feeds: seq<Fed>, i: nat)
    requires FedFrom(codec, n, src, feeds) && i <= |feeds|
    ensures FedFrom(codec, n, src, feeds[..i])
  {
    forall a, b | 0 <= a < b < i ensures feeds[..i][a].fecId != feeds[..i][b].fecId {
      assert feeds[a].fecId != feeds[b].fecId;
    }
  }

  /** Fed with symbols of one block, an ideal decoder succeeds at the k-th and not before. */
  lemma {:induction false} IdealStops(codec: Codec, k: nat, n: nat, size: nat, src: seq<byte>, feeds: seq<Fed>, i: nat)
    requires Ideal(codec, k, n, size) && |src| == k * size && FedFrom(codec, n, src, feeds)
    requires i < k <= |feeds|
    ensures FeedFrom(codec, feeds, i) == (Success, k)
    ensures codec.recover(feeds[..k]) == Recovered(src)
    decreases k - i
  {
    FedPrefix(codec, n, src, feeds, i + 1);
    FedPrefix(codec, n, src, feeds, k);
    if i + 1 < k { IdealStops(codec, k, n, size, src, feeds, i + 1); }
  }

  /** The present symbols sit at their own ids and carry the encoding of src. */
  ghost predicate Encodes(codec: Codec, src: seq<byte>, symbols: seq<Symbol>) {
    forall f :: 0 <= f < |symbols| && Present(symbols[f]) ==>
      symbols[f].fecId == f && symbols[f].data == codec.encode(src, f)
  }

  /** With an ideal codec a block of at least k present symbols decodes to its source bytes. */
  lemma DecodesSource(codec: Codec, k: nat, size: nat, src: seq<byte>, symbols: seq<Symbol>)
    requires 1 <= k && Ideal(codec, k, |symbols|, size) && |src| == k * size
    requires Encodes(codec, src, symbols) && CountValid(symbols, |symbols|) >= k
    ensures Decode(codec, k, symbols) == Ok(src)
  {
    hide Ideal, CountValid, FeedOrder;
    var order := FeedOrder(symbols, k);
    FeedOrderTheorem(symbols, k);
    var feeds := Feeds(symbols, order);
    forall j | 0 <= j < |feeds|
      ensures feeds[j].fecId < |symbols| && feeds[j].data == codec.encode(src, feeds[j].fecId)
      ensures feeds[j].fecId == order[j]
    {
      assert order[j] in order;
    }
    forall i, j | 0 <= i < j < |feeds| ensures feeds[i].fecId != feeds[j].fecId {
      assert order[i] != order[j];
    }
    IdealStops(codec, k, |symbols|, size, src, feeds, 0);
  }

  /** Otherwise the block is refused. */
  lemma TooFewRefused(codec: Codec, k: nat, symbols: seq<Symbol>)
    requires CountValid(symbols, |symbols|) < k
    ensures Decode(codec, k, symbols) == Error
  {
  }
}
