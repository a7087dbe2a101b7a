/** What a block handed over by the deinterleaver means to the FEC wrapper. */
module ReadyBlocks {
  import opened Types
  import opened DeinterleaverSpec
  import opened FecWrapper

  lemma {:induction false} MarksArePresent(c: Config, s: Slot, i: nat)
    requires SlotOk(c, s) && s.state != Empty && i <= c.n
    ensures CountValid(s.block.symbols, i) == if s.id != 0 then CountMarks(s.mask, i) else 0
  {
    if i > 0 { MarksArePresent(c, s, i - 1); }
  }

  /** The wrapper counts exactly the symbols the deinterleaver stored, unless the block id is zero. */
  lemma ValidCountAgrees(c: Config, s: Slot)
    requires SlotOk(c, s) && s.state != Empty
    ensures CountValid(s.block.symbols, c.n) == if s.id != 0 then s.valid else 0
  {
    MarksArePresent(c, s, c.n);
  }

  /** A Ready block is fed to the decoder exactly when its id is not zero; then it is fed every stored symbol. */
  lemma ReadyIsFed(c: Config, s: Slot)
    requires ValidConfig(c) && SlotOk(c, s) && s.state == Ready
    ensures CountValid(s.block.symbols, c.n) >= c.k <==> s.id != 0
    ensures s.id != 0 ==> |FeedOrder(s.block.symbols, c.k)| == s.valid == s.block.count
    ensures s.id != 0 ==> forall p :: p in FeedOrder(s.block.symbols, c.k) <==> 0 <= p < c.n && s.mask[p]
  {
    ValidCountAgrees(c, s);
    FeedOrderTheorem(s.block.symbols, c.k);
  }

  /** Sources come first: the first positions fed are exactly the received source positions. */
  lemma SourcesFirst(c: Config, s: Slot, j: nat)
    requires ValidConfig(c) && SlotOk(c, s) && s.state == Ready && s.id != 0
    requires j < |FeedOrder(s.block.symbols, c.k)|
    ensures FeedOrder(s.block.symbols, c.k)[j] < c.k <==>
            j < |Positions(s.block.symbols, c.k, true, c.n)|
  {
    var order := FeedOrder(s.block.symbols, c.k);
    FeedOrderTheorem(s.block.symbols, c.k);
    assert order[j] in order;
    assert s.mask[order[j]] by { MarkedPresent(c, s, order[j]); }
  }

  lemma MarkedPresent(c: Config, s: Slot, f: nat)
    requires SlotOk(c, s) && s.state != Empty && f < c.n && Present(s.block.symbols[f])
    ensures s.mask[f] && s.block.symbols[f].fecId == f
  {
  }

  /** With an ideal codec every Ready block that holds symbols of src decodes to src. */
  lemma ReadyDecodes(c: Config, s: Slot, codec: Codec, src: seq<byte>)
    requires ValidConfig(c) && SlotOk(c, s) && s.state == Ready && s.id != 0
    requires Ideal(codec, c.k, c.n, c.size) && |src| == c.k * c.size
    requires forall f :: 0 <= f < c.n && s.mask[f] ==> s.block.symbols[f].data == codec.encode(src, f)
    ensures Decode(codec, c.k, s.block.symbols) == Ok(src)
  {
    hide Ideal, Decode;
    ReadyIsFed(c, s);
    forall f | 0 <= f < c.n && Present(s.block.symbols[f])
      ensures s.block.symbols[f].fecId == f && s.block.symbols[f].data == codec.encode(src, f)
    {
      MarkedPresent(c, s, f);
    }
    DecodesSource(codec, c.k, c.size, src, s.block.symbols);
  }
}
