/** An ideal codec exists: with one repair symbol, the bytewise sum of the source symbols restores any one of them. */
module ParityCodec {
  import opened Types
  import opened Arithmetic
  import opened FecWrapper
  import Acceptance

  /** Byte b of source symbol i. */
  function At(src: seq<byte>, size: nat, i: nat, b: nat): byte
    requires b < size && i * size + size <= |src|
  {
    src[i * size + b]
  }

  lemma InSource(k: nat, size: nat, i: nat)
    requires i < k
    ensures 0 <= i * size && i * size + size <= k * size && (i + 1) * size == i * size + size
  {
    MulMono(size, i + 1, k);
    Distribute(size, i);
    assert size * (i + 1) == (i + 1) * size && size * k == k * size && size * i == i * size;
  }

  /** The sum of column b over the first n source symbols. */
  function Parity(src: seq<byte>, k: nat, size: nat, n: nat, b: nat): byte
    requires |src| == k * size && n <= k && b < size
  {
    if n == 0 then 0
    else
      InSource(k, size, n - 1);
      (Parity(src, k, size, n - 1, b) + At(src, size, n - 1, b)) % 0x100
  }

  /** Symbol id: a slice of the source, or the parity symbol. */
  function Encode(k: nat, size: nat, src: seq<byte>, id: nat): (s: seq<byte>)
    ensures |src| == k * size && id <= k ==> |s| == size
  {
    if |src| != k * size || id > k then []
    else if id == k then seq(size, b requires 0 <= b < size => Parity(src, k, size, k, b))
    else InSource(k, size, id); src[id * size..id * size + size]
  }

  /** The feeds are symbols of src, under distinct ids. */
  ghost predicate Feeds(k: nat, size: nat, src: seq<byte>, feeds: seq<Fed>) {
    && |src| == k * size
    && (forall j :: 0 <= j < |feeds| ==> feeds[j].fecId <= k && feeds[j].data == Encode(k, size, src, feeds[j].fecId))
    && (forall i, j {:trigger feeds[i].fecId, feeds[j].fecId} ::
          0 <= i < j < |feeds| ==> feeds[i].fecId != feeds[j].fecId)
  }

  ghost function Restore(k: nat, size: nat, feeds: seq<Fed>): Recovery {
    if exists src :: Feeds(k, size, src, feeds) then
      var src :| Feeds(k, size, src, feeds);
      Recovered(src)
    else NotRecovered
  }

  ghost function Parities(k: nat, size: nat): Codec {
    Codec((src, id) => Encode(k, size, src, id),
          feeds => if |feeds| < k then NeedMore else Success,
          feeds => Restore(k, size, feeds))
  }

  // ---------------------------------------------------------------------------
  // k symbols determine the source
  // ---------------------------------------------------------------------------

  ghost function Ids(feeds: seq<Fed>, n: nat): set<int>
    requires n <= |feeds|
  {
    set j | 0 <= j < n :: feeds[j].fecId as int
  }

  lemma {:induction false} IdsCount(feeds: seq<Fed>, n: nat)
    requires n <= |feeds|
    requires forall i, j {:trigger feeds[i].fecId, feeds[j].fecId} ::
               0 <= i < j < |feeds| ==> feeds[i].fecId != feeds[j].fecId
    ensures |Ids(feeds, n)| == n
  {
    if n == 0 {
      assert Ids(feeds, 0) == {};
    } else {
      IdsCount(feeds, n - 1);
      assert Ids(feeds, n) == Ids(feeds, n - 1) + {feeds[n - 1].fecId as int};
      assert feeds[n - 1].fecId as int !in Ids(feeds, n - 1);
    }
  }

  /** With k symbols fed, at most one id up to k is missing. */
  lemma OthersFed(k: nat, size: nat, src: seq<byte>, feeds: seq<Fed>, i: nat, e: nat)
    requires Feeds(k, size, src, feeds) && |feeds| == k && i <= k && e <= k && i != e
    requires e !in Ids(feeds, k)
    ensures i in Ids(feeds, k)
  {
    IdsCount(feeds, k);
    var all := Acceptance.Below(k + 1) - {e as int};
    assert |all| == k;
    assert forall x :: x in Ids(feeds, k) ==> x in all;
    Acceptance.SubsetFull(Ids(feeds, k), all);
  }

  /** A symbol that was fed is the same for both sources. */
  lemma FedSame(k: nat, size: nat, a: seq<byte>, b: seq<byte>, feeds: seq<Fed>, i: nat)
    requires Feeds(k, size, a, feeds) && Feeds(k, size, b, feeds) && |feeds| == k && i in Ids(feeds, k)
    ensures Encode(k, size, a, i) == Encode(k, size, b, i)
  {
    var j :| 0 <= j < k && feeds[j].fecId as int == i;
  }

  lemma EncodedByte(k: nat, size: nat, src: seq<byte>, i: nat, c: nat)
    requires |src| == k * size && i < k && c < size
    ensures i * size + size <= |src| && Encode(k, size, src, i)[c] == At(src, size, i, c)
  {
    InSource(k, size, i);
  }

  /** Two sums modulo 256 that are d apart are d + x - y apart after x and y are added to them. */
  lemma SumsApart(p: int, q: int, x: int, y: int, d: int)
    requires (p - q - d) % 0x100 == 0
    ensures ((p + x) % 0x100 - (q + y) % 0x100 - (d + x - y)) % 0x100 == 0
  {
    var u, v, w := (p - q - d) / 0x100, (p + x) / 0x100, (q + y) / 0x100;
    assert p - q - d == 0x100 * u;
    assert p + x == 0x100 * v + (p + x) % 0x100;
    assert q + y == 0x100 * w + (q + y) % 0x100;
    assert (p + x) % 0x100 - (q + y) % 0x100 - (d + x - y) == 0x100 * (u - v + w);
  }

  /** How far the sums of two sources may be apart after n symbols, when only symbol e differs. */
  function Apart(a: seq<byte>, b: seq<byte>, size: nat, e: nat, c: nat, n: nat): int
    requires |a| == |b| && c < size && e * size + size <= |a|
  {
    if n <= e then 0 else At(a, size, e, c) - At(b, size, e, c)
  }

  lemma OneSymbolApart(k: nat, size: nat, a: seq<byte>, b: seq<byte>, e: nat, c: nat, n: nat)
    requires |a| == |b| == k * size && n < k && e < k && c < size
    requires n * size + size <= k * size && e * size + size <= k * size
    requires n != e ==> Encode(k, size, a, n) == Encode(k, size, b, n)
    ensures Apart(a, b, size, e, c, n + 1) == Apart(a, b, size, e, c, n) + At(a, size, n, c) - At(b, size, n, c)
  {
    EncodedByte(k, size, a, n, c);
    EncodedByte(k, size, b, n, c);
  }

  /** Two sources that differ in at most one symbol have column sums that differ by as much. */
  lemma {:induction false} ParityDifference(k: nat, size: nat, a: seq<byte>, b: seq<byte>, e: nat, c: nat, n: nat)
    requires |a| == |b| == k * size && n <= k && e < k && c < size && e * size + size <= k * size
    requires forall i: nat :: i < k && i != e ==> Encode(k, size, a, i) == Encode(k, size, b, i)
    ensures (Parity(a, k, size, n, c) - Parity(b, k, size, n, c) - Apart(a, b, size, e, c, n)) % 0x100 == 0
  {
    if n > 0 {
      hide Encode, At, Apart;
      ParityDifference(k, size, a, b, e, c, n - 1);
      InSource(k, size, n - 1);
      OneSymbolApart(k, size, a, b, e, c, n - 1);
      SumsApart(Parity(a, k, size, n - 1, c), Parity(b, k, size, n - 1, c),
                At(a, size, n - 1, c), At(b, size, n - 1, c), Apart(a, b, size, e, c, n - 1));
    }
  }

  /** Bytes that are a multiple of 256 apart are equal. */
  lemma BytesEqual(x: byte, y: byte)
    requires (x - y) % 0x100 == 0
    ensures x == y
  {
  }

  lemma ParityByte(k: nat, size: nat, src: seq<byte>, c: nat)
    requires |src| == k * size && c < size
    ensures |Encode(k, size, src, k)| == size && Encode(k, size, src, k)[c] == Parity(src, k, size, k, c)
  {
  }

  /** The symbol that is missing follows from all others. */
  lemma MissingByte(k: nat, size: nat, a: seq<byte>, b: seq<byte>, e: nat, c: nat)
    requires |a| == |b| == k * size && e < k && c < size
    requires forall i: nat :: i <= k && i != e ==> Encode(k, size, a, i) == Encode(k, size, b, i)
    ensures Encode(k, size, a, e)[c] == Encode(k, size, b, e)[c]
  {
    InSource(k, size, e);
    ParityDifference(k, size, a, b, e, c, k);
    ParityByte(k, size, a, c);
    ParityByte(k, size, b, c);
    EncodedByte(k, size, a, e, c);
    EncodedByte(k, size, b, e, c);
    hide Encode, Parity, At;
    assert Encode(k, size, a, k) == Encode(k, size, b, k);
    BytesEqual(At(a, size, e, c), At(b, size, e, c));
  }

  lemma SymbolSame(k: nat, size: nat, a: seq<byte>, b: seq<byte>, feeds: seq<Fed>, e: nat)
    requires Feeds(k, size, a, feeds) && Feeds(k, size, b, feeds) && |feeds| == k && e < k
    ensures Encode(k, size, a, e) == Encode(k, size, b, e)
  {
    hide Encode;
    if e in Ids(feeds, k) {
      FedSame(k, size, a, b, feeds, e);
    } else {
      forall i: nat | i <= k && i != e ensures Encode(k, size, a, i) == Encode(k, size, b, i) {
        OthersFed(k, size, a, feeds, i, e);
        FedSame(k, size, a, b, feeds, i);
      }
      forall c: nat | c < size ensures Encode(k, size, a, e)[c] == Encode(k, size, b, e)[c] {
        MissingByte(k, size, a, b, e, c);
      }
    }
  }

  lemma SourceDetermined(k: nat, size: nat, a: seq<byte>, b: seq<byte>, feeds: seq<Fed>)
    requires Feeds(k, size, a, feeds) && Feeds(k, size, b, feeds) && |feeds| == k
    ensures a == b
  {
    forall x | 0 <= x < |a| ensures a[x] == b[x] {
      if size == 0 { assert false; }
      DivBound(size, k, x);
      var i, c := x / size, x % size;
      SymbolSame(k, size, a, b, feeds, i);
      EncodedByte(k, size, a, i, c);
      EncodedByte(k, size, b, i, c);
      assert a[i * size + c] == b[i * size + c];
    }
  }

  /** The hypothesis of the decoding theorems can be met. */
  lemma ParityIsIdeal(k: nat, size: nat)
    ensures Ideal(Parities(k, size), k, k + 1, size)
  {
    var codec := Parities(k, size);
    forall src: seq<byte>, id: nat | |src| == k * size && id < k + 1
      ensures |codec.encode(src, id)| == size
      ensures id < k ==> 0 <= id * size <= (id + 1) * size <= |src| && codec.encode(src, id) == src[id * size..(id + 1) * size]
    {
      if id < k { InSource(k, size, id); }
    }
    forall src, feeds | |src| == k * size && FedFrom(codec, k + 1, src, feeds) && |feeds| == k
      ensures codec.recover(feeds) == Recovered(src)
    {
      assert Feeds(k, size, src, feeds);
      var other :| Feeds(k, size, other, feeds) && Restore(k, size, feeds) == Recovered(other);
      SourceDetermined(k, size, src, other, feeds);
    }
  }
}
