/** The block builder (src/block_builder.c): collects symbols until a block of k is full or times out. */
module BlockBuilding {
  import opened Types

  const TWO_TO_64 := 0x1_0000_0000_0000_0000

  /** The builder as a value: the symbols of the open block and when the first of them came. */
  datatype Builder = Builder(id: nat, syms: seq<Symbol>, first: int)

  const EmptyBuilder := Builder(1, [], 0)

  /** The next value of the 64-bit block id; zero is never used again. */
  function NextId(id: nat): nat {
    if id != 0 then (id + 1) % TWO_TO_64 else 1
  }

  function BlankSymbol(size: nat): Symbol {
    Symbol(0, 0, 0, 0, 0, 0, Zeros(size))
  }

  function Add(b: Builder, sym: Symbol, now: int): Builder {
    Builder(b.id, b.syms + [sym], if b.syms == [] then now else b.first)
  }

  /** The symbols with zero symbols appended up to k. */
  function PadTo(syms: seq<Symbol>, k: nat, size: nat): (p: seq<Symbol>)
    requires |syms| <= k
    ensures |p| == k
  {
    syms + seq(k - |syms|, _ => BlankSymbol(size))
  }

  function Reset(b: Builder): Builder {
    Builder(NextId(b.id), [], 0)
  }

  predicate TimedOut(b: Builder, timeout: int, now: int) {
    b.syms != [] && now - b.first >= timeout
  }

  class BlockBuilder {
    const k: nat
    const size: nat
    const symbols: array<Symbol>
    var blockId: nat
    var symbolCount: int
    var firstActivity: int

    ghost predicate Valid()
      reads this
    {
      1 <= k == symbols.Length && 0 < size && 0 <= symbolCount <= k
    }

    ghost function View(): Builder
      requires Valid()
      reads this, symbols
    {
      Builder(blockId, symbols[..symbolCount], firstActivity)
    }

    constructor (k: nat, size: nat)
      requires 1 <= k && 0 < size
      ensures Valid() && fresh(symbols) && this.k == k && this.size == size && View() == EmptyBuilder
    {
      this.k, this.size := k, size;
      symbols := new Symbol[k](_ => BlankSymbol(size));
      blockId, symbolCount, firstActivity := 1, 0, 0;
    }

    /** block_builder_init: no builder for invalid parameters. */
    static method Init(k: int, size: int) returns (bb: BlockBuilder?)
      ensures bb == null <==> k <= 0 || size <= 0
      ensures bb != null ==> fresh(bb) && fresh(bb.symbols) && bb.Valid() && bb.k == k && bb.size == size
                             && bb.View() == EmptyBuilder
    {
      if k <= 0 || size <= 0 { return null; }
      bb := new BlockBuilder(k, size);
    }

    /** block_builder_add_symbol: 1 when the block became full, -1 when it already was. */
    method AddSymbol(sym: Symbol, now: int) returns (rc: int)
      requires Valid()
      modifies this`symbolCount, this`firstActivity, symbols
      ensures Valid()
      ensures if |old(View()).syms| == k then rc == -1 && View() == old(View())
              else View() == Add(old(View()), sym, now) && rc == if |View().syms| == k then 1 else 0
      ensures old(symbolCount) < k ==>
        && symbols[..symbolCount] == old(symbols[..symbolCount]) + [sym]
        && firstActivity == if old(symbolCount) == 0 then now else old(firstActivity)
    {
      if symbolCount >= k { return -1; }
      symbols[symbolCount] := sym;
      symbolCount := symbolCount + 1;
      if symbolCount == 1 { firstActivity := now; }
      return if symbolCount == k then 1 else 0;
    }

    /** block_builder_check_timeout. */
    method CheckTimeout(timeout: int, now: int) returns (rc: int)
      requires Valid()
      ensures rc == if timeout < 0 then -1 else if TimedOut(View(), timeout, now) then 1 else 0
      ensures rc == 1 <==> timeout >= 0 && symbolCount > 0 && now - firstActivity >= timeout
    {
      if timeout < 0 { return -1; }
      if symbolCount <= 0 { return 0; }
      return if now - firstActivity >= timeout then 1 else 0;
    }

    /** block_builder_finalize_with_padding: stale symbols of an earlier block become zero. */
    method FinalizeWithPadding()
      requires Valid()
      modifies this`symbolCount, symbols
      ensures Valid()
      ensures View() == old(View()).(syms := PadTo(old(View()).syms, k, size))
      ensures symbolCount == k && symbols[..old(symbolCount)] == old(symbols[..symbolCount])
      ensures forall i :: old(symbolCount) <= i < k ==> symbols[i] == Symbol(0, 0, 0, 0, 0, 0, Zeros(size))
    {
      var count := symbolCount;
      ghost var kept := symbols[..count];
      for i := count to k
        invariant symbolCount == count && symbols[..count] == kept
        invariant forall j :: count <= j < i ==> symbols[j] == BlankSymbol(size)
      {
        symbols[i] := BlankSymbol(size);
      }
      symbolCount := k;
      assert symbols[..k] == PadTo(kept, k, size);
    }

    /** block_builder_reset: the symbols are left as they are. */
    method ResetBlock()
      requires Valid()
      modifies this`symbolCount, this`blockId, this`firstActivity
      ensures Valid() && View() == Reset(old(View()))
      ensures symbolCount == 0 && (0 < old(blockId) < TWO_TO_64 - 1 ==> blockId == old(blockId) + 1)
    {
      symbolCount := 0;
      blockId := if blockId != 0 then (blockId + 1) % TWO_TO_64 else 1;
      firstActivity := 0;
    }
  }
}
