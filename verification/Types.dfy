/** The value types shared by every stage of the data plane (include/types.h). */
module Types {
  type byte = x: int | 0 <= x < 0x100
  type uint16 = x: int | 0 <= x < 0x1_0000
  type uint32 = x: int | 0 <= x < 0x1_0000_0000

  /** Ceiling on K + M: the inline capacity of a block. */
  const MAX_SYMBOLS_PER_BLOCK := 256
  /** Ceiling on the payload bytes of one symbol. */
  const MAX_SYMBOL_DATA_SIZE := 9000

  /** The atomic unit of the pipeline. `data` holds the first symbol_size bytes of the C array. */
  datatype Symbol = Symbol(
    packetId: uint32,
    fecId: uint32,
    index: uint16,
    total: uint16,
    len: uint16,
    crc: uint32,
    data: seq<byte>)

  /** `n` zero bytes: the effect of memset. */
  function Zeros(n: nat): (z: seq<byte>)
    ensures |z| == n && forall i :: 0 <= i < n ==> z[i] == 0
  {
    seq(n, _ => 0)
  }

  /** Elapsed time, clamped at zero as both elapsed_ms helpers do. */
  function Elapsed(start: int, end: int): (d: nat) {
    if end < start then 0 else end - start
  }
}
