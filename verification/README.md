# FSO gateway data plane: a verified model

The gateway bridges two Ethernet LANs over a free-space optical link that loses symbols in bursts.
The transmitter cuts LAN packets into fragments, packs whole packets into blocks of k source symbols,
adds m repair symbols with an erasure code, and spreads `depth` blocks over a window that is sent column
by column, so that a burst on the link is shared among the blocks. The receiver collects symbols by block,
decides when a block is worth decoding, decodes it, and rebuilds the packets.

This project models that data plane in Dafny and proves what it is for. The source is imperative, so the
model is too: the interleaver, the deinterleaver, the block builder, both pipelines, the checksum table
and the burst statistics are classes whose arrays and fields the methods change in place, with the
source's loops. Each method is proved equal to a specification function on values, and the theorems are
about those functions and about runs of them.

## Main results

- `EndToEnd.FifoTheorem`: over a lossless link, what comes out at the far LAN is exactly what went in.
- `LossyFifo.LossyFifoTheorem`, `LossyWindows.WindowRestored`: over a link that loses any symbols, at most m
  of every row of a window, such as a burst of m * depth of them, the receiver decodes exactly the blocks that
  were sent, each once, to their source bytes, reports one success for each and nothing else, and every packet
  that lost nothing gets through, in order.
- `BurstBound.BurstTheorem`, `BurstBound.BurstLimitIsExact`, `TxComposition.WireBurst`: such a burst costs
  every block at most m symbols, anywhere on the wire of any run, and a longer one can cost more;
  `BurstThresholds.RowThreshold` says how long a burst may be for each row.
- `TxComposition.CompositionTheorem`: over every run, packets of any length included, no push is rejected,
  no call fails, and every block has exactly one row of one window.
- `TxScheduleRuns.ScheduleTheorem`: when and why, over every run: a block is sealed only because it holds k
  fragments, or its first one came 2 ms ago, or the next packet does not fit; a window is sent only because it
  is full or its first block was sealed 5 ms ago; the wire is those windows, and nothing waits longer.
- `TxPacking.PackingTheorem`: whole packets in numbered blocks, nothing lost, when packets fit in a block.
- `DeinterleaverRuns.BoundedRedecoding`, `DeinterleaverLedger.Conservation`,
  `DeinterleaverReady.ReadyUnchanged` and the `DeinterleaverMap` refinement: the slot machine over all runs.
- `DeinterleaverAges.TickByAge`, `RxAges.OnceYoung`, `RxOutcomes.CallOutcome`: a block with too few symbols is
  given up exactly at the configured age, reported once, whatever the call receives, and no overdue block is
  left; `RxOutcomes.DrainInOrder` and `RxOutcomes.FramesCounted` say what a drain decodes, in which order, and
  what the counters count over every run.
- `RxGrouping.GroupingTheorem`, `RxIntegrity.SurvivorsIff`, `RxJoined.JoinedIff`,
  `RxConditions.StalePadding`: exactly when a decoded block yields the packets that arrived whole and nothing
  else, whatever was lost and whatever earlier blocks left in its slot. The code does not always meet this:
  `FailingRuns.MixedRun` and `FailingRuns.LeftoverRun` are runs of frames, from the receiver's start, after
  which it has sent a packet that nobody took. `LossTraces.PipelineTraced` says what earlier blocks can leave.
- `CrcDivision.CrcIsRemainder`, `SymbolCrc.ChecksumRemainder`, `SymbolCrc.CorruptionDetected`: the checksum is
  the complemented remainder of polynomial division, and what it detects; `ChecksumAnswers.CheckValue` is the
  standard check value.
- `Fragmentation.PermutationRoundTrip`, `Wire.RoundTrip`: the codecs are inverses, and exactly when;
  `Wire.FrameFields` and `ReassembledBytes.BytesAre` say which bytes they produce.
- `Acceptance.AcceptedIff`, `Acceptance.AcceptedComplete`: exactly which sets of fragments reassembly
  accepts, and when an accepted set is complete.
- `BurstStatistics.StatisticsTheorem`, `BurstStatistics.BucketTheorem`, `ConcurrentStatistics.QuietCounts`,
  `SampleValues.QuietValues`: the
  counters describe the maximal loss runs, and no interleaving of threads corrupts them.

## Layout

| modules | source |
|---|---|
| `Types`, `Bytes`, `Arithmetic` | include/types.h and shared arithmetic |
| `Interleaving`, `InterleaverOutcomes`, `InterleaverWindows`, `BurstBound`, `BurstThresholds` | src/interleaver.c |
| `DeinterleaverSpec`, `DeinterleaverInvariant`, `Deinterleaving`, `DeinterleaverMap`, `DeinterleaverRuns`, `DeinterleaverSchedules`, `DeinterleaverReady`, `DeinterleaverReports`, `DeinterleaverLedger`, `DeinterleaverAges`, `DeinterleaverOutcomes` | src/deinterleaver.c |
| `WindowRecovery` | both, under loss |
| `Crc32c`, `CrcDivision`, `SymbolCrc`, `ChecksumAnswers` | src/symbol.c |
| `Fragmentation`, `Acceptance`, `ReassembledBytes`, `Wire` | src/packet_fragmenter.c, src/packet_reassembler.c, the wire format of both pipelines |
| `FecWrapper`, `ReadyBlocks`, `ParityCodec` | src/fec_wrapper.c |
| `BlockBuilding`, `TxSpec`, `WholeBlocks`, `TxHistory`, `TxPacking`, `TxClock`, `TxComposition`, `LongPackets`, `TxSchedule`, `TxScheduleRuns`, `TxOutcomes`, `TxPipelines` | src/block_builder.c, src/tx_pipeline.c |
| `RxGrouping`, `RxLosses`, `RxSurvivors`, `RxIntegrity`, `RxConditions`, `RxMixing`, `RxJoined`, `RxFailures`, `RxSpec`, `RxAges`, `RxOutcomes`, `RxSizes`, `RxPipelines` | src/rx_pipeline.c |
| `WindowDelivery`, `WindowRuns`, `EndToEnd` | both pipelines together, without loss |
| `LossDecoding`, `FirstWindow`, `LossPackets`, `LossyWindow`, `LossyDrain`, `LossyRuns`, `LossyWindows`, `LossyFifo`, `LossTraces`, `FailingRuns` | both pipelines together, under loss |
| `BurstStatistics`, `ConcurrentStatistics`, `SampleValues` | src/stats.c |

`dafny verify dfyconfig.toml` checks the whole project.

## Conventions and hypotheses

- Time is an integer number of nanoseconds passed to every operation. An operation reads the clock once.
- A symbol's `data` is the first symbol_size bytes of the C array; nothing reads or writes the rest.
- The erasure code is a `Codec` of three functions: encode, the decoder's answer to what it was fed so far,
  and recovery. Theorems that need it to work state `FecWrapper.Ideal`: the code is systematic, and any k
  distinct symbols of a block, and no fewer, determine it. This idealises Wirehair, which may ask for a
  little more than k. `ParityCodec.ParityIsIdeal` shows that the hypothesis can be met.
- `FifoTheorem` and `LossyFifoTheorem` ask that each packet has at most k fragments (`InBounds`), that block
  ids stay below 2^32 (the id field on the wire is 32 bits wide, the builder's counter 64), and that packets fit
  the receiver's 9200-byte buffer, as everything does that fits the transmitter's. `CompositionTheorem`,
  `WireBurst`, `NothingWaits` and `ScheduleTheorem` need only the bound on ids.
- `LossyFifoTheorem` asks that each window loses at most m symbols of a row, that the others arrive in order,
  that no frame or poll comes when a block with symbols still to come is due (as old as the age limit, or with k
  symbols and the stabilization time past its last one), and that the receiver polls once after every block
  that arrived has been quiet long enough, before the next window begins. Events within one stabilization time
  meet the condition on time (`LossyWindows.PromptHeard`), a burst of at most m * depth symbols that on losses
  (`WindowRecovery.SpanTolerable`).
- What the LAN interface delivers is one of nothing, something not forwarded, or a packet. Frames on the
  link are byte sequences.

## Where code and comments disagree

The model follows the code.

- include/types.h:66 calls the checksum IEEE 802.3; the table in src/symbol.c is that of CRC-32C (RFC 3720,
  section 12.1), see `CrcDivision.PolyDigits`.
- include/interleaver.h:8-11 says a burst erases at most one symbol per block; src/gateway.c:137 counts on
  m * depth, which is the exact limit (`BurstBound.BurstLimitIsExact`).
- src/tx_pipeline.c:347-348 says every packet fits in one block; lines 202-206 allow more fragments than
  that, and `TxPacking.StraddlersExist` says exactly when some accepted packet does not fit.
- include/deinterleaver.h:103 describes a priority 4 that drops the symbol when all slots are ready; ready
  slots are evicted first, so allocation always succeeds (`DeinterleaverInvariant.AllocAlwaysSucceeds`).
- The counter of blocks failed by timeout, the recycling of a stabilized block and the decoder's result
  TOO_MANY_HOLES cannot occur, because more than m holes is the same as fewer than k symbols
  (`DeinterleaverLedger.TimeoutCounterUnused`, `DeinterleaverInvariant.DiscardsOnlyUnrecoverable`,
  `FecWrapper.TooManyHolesUnreachable`).
- The reassembler does not validate the whole set (`Fragmentation.RepeatedIndexAccepted`); an accepted set is
  complete exactly when its indices are distinct and below the total (`Acceptance.AcceptedComplete`).
- Restoring a block's bytes does not restore the metadata of lost source positions, so a packet needs its
  own fragments to arrive (`RxIntegrity.SurvivorsIff`).
- A slot that is emptied keeps index, total and length of its symbols (src/deinterleaver.c:227-230), and the
  grouping loop reads them at lost positions. So a block received whole but for padding can yield a packet too many
  (`RxFailures.LeftoverPacket`).
- The loop flushes a buffered packet only at a symbol of index 0 (src/rx_pipeline.c:457-503), so neighbouring
  packets that lost fragments can be joined (`RxFailures.MixedPacket`); `RxJoined.JoinedIff` says exactly when.

## Model

| member | source | states |
|---|---|---|
| `EndToEnd.FifoTheorem` | src/tx_pipeline.c:261-404 | End to end: for every run of packets of at most k fragments, block ids below 2^32, a clock that never goes back, an ideal codec and a lossless link that delivers each window in order within the receiver's stabilization time (idle polls anywhere in between), the packets sent to the far LAN after the two final idle flushes are exactly the packets taken, byte for byte and in order |
| `EndToEnd.FlushedRun` | src/tx_pipeline.c:280-303 | After any run of packets of at most k fragments, an idle call later than the block timeout and one later than the flush timeout leave nothing in the builder and nothing in the interleaver, and every packet taken is in a sent block; for packets of any length see `LongPackets.NothingWaits` |
| `EndToEnd.IdleEmptiesBuilder` | src/tx_pipeline.c:280-303 | An idle call at least the block timeout after every earlier timestamp empties the builder without losing a packet |
| `EndToEnd.IdleSendsAll` | src/tx_pipeline.c:535-555 | An idle call at least the flush timeout after every earlier timestamp, with an empty builder, sends everything that waited in the interleaver |
| `EndToEnd.BlockYields` | src/rx_pipeline.c:339-577 | A block received whole decodes to its source bytes and yields exactly the packets it was packed with |
| `EndToEnd.SentTransmittable` | src/tx_pipeline.c:535-555 | Every window the transmitter sends has distinct non-zero keys on its block rows, key 0 on its padding rows, and payload lengths the receiver accepts |
| `EndToEnd.WindowYields` | src/rx_pipeline.c:200-327 | A sent window delivered to an empty receiver sends the packets of its blocks in block order and leaves the receiver empty again |
| `EndToEnd.WindowsYield` | src/rx_pipeline.c:200-327 | The same for any number of windows one after the other |
| `WindowRuns.WindowTheorem` | src/rx_pipeline.c:200-327 | Any transmittable window delivered as frames, with polls between them, to an empty receiver: each row is decoded exactly when its last column arrives, in row order, and the receiver ends empty |
| `WindowRuns.CleanParses` | src/rx_pipeline.c:244-316 | A frame that begins with a clean symbol, whatever follows it in the buffer, parses to that symbol, or to padding exactly when it is an erasure |
| `WindowRuns.IdleStep` | src/rx_pipeline.c:219-228 | A poll without a frame within the stabilization time changes neither the blocks in hand nor what was sent |
| `WindowDelivery.TakeCell` | src/rx_pipeline.c:318-326 | The next cell of a row is added to that row's block; the last one completes it, decodes it at once and removes it |
| `WindowDelivery.TakePadding` | src/rx_pipeline.c:273-283 | A padding cell (packet_id 0, payload_len 0) changes nothing but the erasure counter |
| `WindowDelivery.RoomFor` | src/deinterleaver.c:262-429 | While a window is being received there are never more blocks in hand than rows, so no block is evicted |
| `BurstBound.BurstTheorem` | src/interleaver.c:512-555 | In the concatenation of any number of drained windows, a run of at most m * depth consecutive lost symbols removes at most m symbols of any block, also across a window boundary |
| `BurstBound.BurstLimitIsExact` | src/gateway.c:133-139 | Inside one window, whether full or flushed with padding rows: a burst removes at most m symbols of every block if and only if it is at most m * depth symbols long, when the row it starts in holds a block (padding rows share key 0 and are no block) |
| `BurstThresholds.RowThreshold` | src/interleaver.c:512-555 | Inside one window, wherever the burst starts, in a padding row too: a block keeps within m losses if and only if the burst is at most m * depth symbols longer than the stretch before it reaches that block's row |
| `BurstThresholds.HitsThreshold` | src/interleaver.c:512-555 | Consecutive positions meet a residue modulo d at most m times exactly up to m * d positions after the first one that has it |
| `BurstBound.BurstIsHits` | src/interleaver.c:512-555 | Inside one window a burst takes from a block exactly the positions it meets of that block's row |
| `BurstBound.StreamRow` | src/interleaver.c:512-555 | Stream position p of any window carries the key of that window's row p mod depth |
| `BurstBound.HitsBound` | src/interleaver.c:512-555 | At most m * d consecutive positions meet any one residue modulo d at most m times |
| `BurstBound.HitsMore` | src/interleaver.c:512-555 | More than m * d consecutive positions meet the residue of the first one more than m times |
| `BurstBound.PushKeyed` | src/interleaver.c:358-457 | A push keeps every cell under its own row's key and its own column |
| `BurstBound.TickKeyed` | src/interleaver.c:214-247 | A forced flush writes padding under the row's own key and column |
| `TxComposition.WireBurst` | src/tx_pipeline.c:261-404 | On the wire of every run with block ids below 2^32, packets of any length included, any at most m * depth consecutive symbols carry at most m symbols of any one block, also across windows |
| `LossDecoding.LossDecodes` | src/deinterleaver.c:653-919 | Any losses from a sent window, the rest received in time in any order: after the quiet period every block whose row lost at most m symbols is ready, holds only its own symbols that were not lost, and decodes to exactly the bytes it was encoded from |
| `LossDecoding.PacketsNeedFragments` | src/rx_pipeline.c:428-455 | The special case of lost positions without metadata: the packets sent from a decoded block are exactly those packed into it if and only if every position that carries a fragment was received, however much the decoder restored; the general statement is `RxIntegrity.SurvivorsIff` |
| `FirstWindow.FirstLoss` | src/rx_pipeline.c:339-577 | In the first window after the receiver starts, where slots hold nothing yet: the packets of the block in row r, of which at most m symbols were lost, are all rebuilt if and only if no position f of the row that carries a fragment was lost (f * depth + r); for later windows see `LossPackets.LossSends` |
| `FirstWindow.ReceiveBlank` | src/deinterleaver.c:213-236 | Receiving a window in time recycles no slot, so cells never stored in a slot stay blank |
| `LossPackets.RunTraced` | src/deinterleaver.c:213-236 | Over every run of the deinterleaver, what a position that was not received holds: nothing, or what a symbol pushed earlier with the same fec_id left there, its packet_id cleared |
| `LossPackets.UnreceivedCells` | src/deinterleaver.c:213-236 | In every active block of every run a position not received has packet_id 0 and a length within the symbol size, and is blank or left over from an earlier push |
| `LossPackets.SlotPackets` | src/rx_pipeline.c:339-577 | Any ready block, whatever its slot held before: every packet whose fragments were all received is sent, in order, and nothing else is if and only if the stored metadata makes no other group that reassembly accepts |
| `LossPackets.SlotPadding` | src/rx_pipeline.c:339-577 | Any ready block that received every fragment: exactly its packets are sent if and only if what earlier blocks left at its lost padding positions makes no group that reassembly accepts |
| `LossPackets.LossSends` | src/rx_pipeline.c:339-577 | In any window that reaches an idle receiver, for a block whose row lost at most m symbols: its packets that lost nothing are sent, in order, and nothing else exactly when the stored metadata makes no other accepted group |
| `LossTraces.PipelineTraced` | src/deinterleaver.c:213-236 | Over every run of the receive pipeline: in every slot it holds and in every slot it decoded, a position not received holds nothing, or what a symbol carried by an earlier frame with the same fec_id left there |
| `LossyDrain.DrainLog` | src/rx_pipeline.c:339-577 | The slots the drain loop hands to the decoder are exactly the ready blocks, each once, with what they hold; it sends what those slots yield and leaves every other block as it is |
| `LossyDrain.DrainReports` | src/rx_pipeline.c:339-577 | Those slots are slots of the deinterleaver as it stands when the loop begins, and the loop makes exactly one final callback for each, with its decoding result |
| `DeinterleaverReports.TickReports` | src/deinterleaver.c:864-919 | A tick after which every block that was active still is makes no final callback |
| `DeinterleaverReports.PushReports` | src/deinterleaver.c:653-787 | A push that takes no block away makes no final callback |
| `LossyRuns.PushCell` | src/rx_pipeline.c:318-326 | The next surviving cell of a hit window, when no block with symbols still to come is due, is stored under its block and evicts nothing; the block is ready then exactly when all its n cells have come |
| `LossyRuns.DrainThrough` | src/rx_pipeline.c:339-577 | A drain decodes what is ready, from the slots it is in, and nothing else |
| `LossyRuns.FrameThrough` | src/rx_pipeline.c:318-326 | A frame of a surviving cell: afterwards the receiver holds or has decoded exactly what came of each block, what the run has sent is what the decoded slots yield, and its final callbacks are theirs |
| `LossyRuns.PollThrough` | src/rx_pipeline.c:219-228 | A poll when no block with symbols still to come is due discards no block of the window and decodes only blocks of which everything came |
| `LossyRuns.PollEmpties` | src/rx_pipeline.c:219-228 | A poll after every block of the window has been quiet long enough empties the receiver |
| `LossyWindows.HearsThrough` | src/rx_pipeline.c:200-327 | Frames of what is left of a window, with polls between them: the slots that the run decodes hold exactly the cells of a row that were not lost, no row twice, and what is sent and reported is theirs; every other block is held with exactly what came of it |
| `LossyWindows.WindowRestored` | src/rx_pipeline.c:200-327 | A window that loses any symbols, at most m of every row, heard as frames with polls between: the slots that the run decodes are those of the window's blocks, one for each, with exactly the symbols that were not lost; the final callbacks are one success for each and no other; what is sent is what those slots yield; and the receiver is empty again |
| `LossyWindows.PromptHeard` | src/rx_pipeline.c:200-327 | Events within one stabilization time, and a poll two such times after the first, meet the conditions on time of the theorem before |
| `LossyFifo.RestoredSends` | src/rx_pipeline.c:352-576 | A block decoded with what was left of it comes to its source bytes, sends the packets that lost nothing, in order, and nothing else exactly when the metadata in that slot makes no other accepted group |
| `LossyFifo.WindowsRestored` | src/rx_pipeline.c:200-327 | The same for any number of windows one after the other, each with losses of its own |
| `LossyFifo.LossyFifoTheorem` | src/tx_pipeline.c:261-404 | LAN to LAN over a link that loses any symbols, at most m of a row: for every run of packets of at most k fragments and block ids below 2^32, an ideal codec and windows heard in order and in time, what was put on the wire is a history that holds the packets taken, whole and in order; the slots that the receiver decodes are those of its blocks, window by window, one for each; the final callbacks are one success for each and no other; what is sent is what those slots yield; and each of them yields its packets that lost nothing, in order and as often, and no others exactly when its metadata makes no other accepted group |
| `WindowRecovery.ReceiveTheorem` | src/deinterleaver.c:653-787 | Whatever arrives of a window within the quiet period, in any order, with duplicates and padding: nothing is evicted and every block holds exactly the first arrival at each fec_id |
| `WindowRecovery.RecoveryTheorem` | src/deinterleaver.c:653-919 | After a tick past the quiet period a block is ready if and only if at least k of its symbols arrived, and then holds exactly its first arrivals |
| `WindowRecovery.WindowRecovered` | src/deinterleaver.c:653-919 | Deinterleaving inverts interleaving, whatever was lost and in whatever order the rest arrives, duplicates included: after the quiet period a block is ready if and only if at least k symbols of its row were not lost, and then holds exactly those |
| `WindowRecovery.BurstRecovered` | src/deinterleaver.c:653-919 | In particular after a burst of at most m * depth lost symbols every block of the window is ready with exactly the symbols the burst spared, at least k of them |
| `WindowRecovery.SpanTolerable` | src/interleaver.c:512-555 | A burst of at most m * depth symbols takes at most m columns of every row |
| `WindowRecovery.LostColumns` | src/interleaver.c:512-555 | A burst of at most m * depth transmitted symbols takes at most m columns of any row |
| `WindowRecovery.GatheredIsSpared` | src/interleaver.c:512-555 | For any set of lost positions, what the receiver gathers under a block's key is exactly the row's cells at the positions that were not lost |
| `Interleaving.Interleaver.constructor` | src/interleaver.c:253-339 | A new interleaver holds an empty window |
| `Interleaving.Interleaver.Create` | src/interleaver.c:253-339 | No object exactly for a depth or block size below 1, a block size above the ceiling, a symbol size of 0 or less, or a negative timeout; otherwise an empty window with that geometry |
| `Interleaving.Interleaver.ResetWindow` | src/interleaver.c:131-153 | After a reset the window is empty although the matrix is not cleared: no cell of an earlier window can be observed |
| `Interleaving.Interleaver.FindRowForBlockKey` | src/interleaver.c:159-174 | Finds the first assigned row with the key, or -1 when none has it |
| `Interleaving.Interleaver.AssignRowForBlockKey` | src/interleaver.c:176-200 | The key takes the next row in arrival order, or -1 and no change when all rows are taken |
| `Interleaving.Interleaver.ResolveRow` | src/interleaver.c:202-212 | The key's row, an existing one or the next free one; the window's clock starts with its first row |
| `Interleaving.Interleaver.PushSymbol` | src/interleaver.c:358-457 | The array implementation changes the abstract window and returns a code exactly as the specification Push, error cases included |
| `Interleaving.Interleaver.StoreNewCell` | src/interleaver.c:410-457 | Storing a cell adds exactly that cell, and the window becomes ready exactly when every row is then full |
| `Interleaving.Interleaver.ForceFillRow` | src/interleaver.c:214-247 | Every missing cell of the row becomes padding under the row's key, received cells and all other rows stay as they are |
| `Interleaving.Interleaver.TickWindow` | src/interleaver.c:459-506 | The in-place flush equals the specification Tick: padding only once a waiting window has reached the timeout |
| `Interleaving.Interleaver.PopReadySymbol` | src/interleaver.c:512-555 | Hands out the cell at the drain position and advances as the specification Pop, -1 and no change when not ready |
| `Interleaving.Interleaver.SymbolsPending` | src/interleaver.c:566-576 | Equals the specification's count of cells not yet drained |
| `Interleaving.PushKeeps` | src/interleaver.c:358-457 | Every push keeps the window well formed: at most depth rows, columns below n, ready exactly when every row is complete |
| `InterleaverOutcomes.PushOutcome` | src/interleaver.c:358-457 | A push is rejected without effect exactly when the window is being drained, the column is out of range, or a new block finds no row; a repeated cell is ignored; any other is stored in its block's row or a new one, the first of a window sets its time, and it returns 1 and readies the window exactly when every cell is there |
| `InterleaverOutcomes.TickOutcome` | src/interleaver.c:459-506 | A tick flushes exactly when flushing is on, the window is not ready, some row has all its cells, and the window is old enough; then every cell is the one that was there or blank padding under the row's key, key 0 for rows without a block |
| `BurstBound.PushDistinct` | src/interleaver.c:159-212 | Every push keeps the keys of the rows distinct: a block has at most one row |
| `Interleaving.TickKeeps` | src/interleaver.c:459-506 | A tick keeps the window well formed and returns 1 exactly when it makes the window ready |
| `Interleaving.PopKeeps` | src/interleaver.c:512-555 | A pop keeps the window well formed |
| `Interleaving.FilledRows` | src/interleaver.c:214-247 | A forced flush leaves exactly depth rows, all complete |
| `Interleaving.CompleteIffFull` | src/interleaver.c:434-454 | The counter of complete rows reaches depth exactly when every cell of the matrix has been received |
| `InterleaverWindows.FillTheorem` | src/interleaver.c:358-457 | For every arrival order of symbols of at most depth blocks, duplicates included, the window holds the first arrival of each (key, fec_id) with rows in order of first arrival, and the push that brings the depth * n-th distinct symbol is the one that returns 1 |
| `InterleaverWindows.DrainTheorem` | src/interleaver.c:512-555 | Draining a ready window emits item i from row i mod depth, column i div depth, for all depth * n items |
| `InterleaverWindows.PopAdvances` | src/interleaver.c:512-576 | Each pop takes the item at the current position, lowers the pending count by one, and only the last pop returns 1 and restores the initial state |
| `InterleaverWindows.FillThenDrain` | src/interleaver.c:358-555 | Filled with all symbols of depth blocks in any order, the drain emits the first arrival of each (key, fec_id), each exactly once |
| `InterleaverWindows.CompleteIffTotal` | src/interleaver.c:434-454 | A window is complete exactly when it holds depth * n distinct cells |
| `DeinterleaverSpec.OldestIsOldest` | src/deinterleaver.c:262-300 | The scan picks a slot of the state such that no other is older, and the first of equally old ones |
| `DeinterleaverInvariant.InitKeeps` | src/deinterleaver.c:546-613 | A new deinterleaver satisfies the invariant |
| `DeinterleaverInvariant.PushKeeps` | src/deinterleaver.c:653-787 | Every push keeps the invariant: unique active ids, valid_symbols = set bits = symbol_count, 1 <= valid < n while filling, valid >= k while ready, stored symbols under their own id and position, blank ids elsewhere |
| `DeinterleaverInvariant.TickKeeps` | src/deinterleaver.c:864-919 | A tick keeps the invariant and treats every slot independently of the others |
| `DeinterleaverInvariant.MarkKeeps` | src/deinterleaver.c:828-858 | mark_result keeps the invariant |
| `DeinterleaverInvariant.AllocAlwaysSucceeds` | src/deinterleaver.c:262-429 | alloc_slot always finds a slot; it takes a free one if there is one, evicts the oldest ready one before any filling one, and the oldest filling one only when all slots are filling (so the header's Priority 4 cannot occur) |
| `DeinterleaverInvariant.DiscardsOnlyUnrecoverable` | src/deinterleaver.c:436-540 | The freeze logic discards a block exactly when it has fewer than k symbols and has reached the age limit, promotes it exactly when it has k and is complete, quiet or aged, and never reports a bare timeout |
| `DeinterleaverInvariant.TickBoundsFilling` | src/deinterleaver.c:864-919 | After a tick every filling slot is untouched, younger than the limit the tick was given and, once it has k symbols, still within its quiet period; with the configured age written out, see `DeinterleaverAges.TickLeavesYoung` |
| `DeinterleaverAges.TickByAge` | src/deinterleaver.c:864-919 | A tick with a negative override, with the configured age written out: a slot of fewer than k symbols is emptied and reported once as TooManyHoles, in slot order, and counted, exactly when its age is at least max_age (1.0e15 ms when none is configured); one of k or more becomes ready exactly when complete, quiet, or that old; every other slot and counter is unchanged |
| `DeinterleaverAges.TickLeavesYoung` | src/deinterleaver.c:864-919 | Afterwards every filling slot is younger than max_age, or than 1.0e15 ms when max_age is not positive, and one of k symbols is not quiet |
| `DeinterleaverAges.PushByAge` | src/deinterleaver.c:737-787 | A new symbol is stored at its fec_id with the time of the push, the time of the first one is kept, and the block is then given up, promoted or kept by the configured age, with 1 returned exactly when promoted |
| `DeinterleaverAges.PushStarts` | src/deinterleaver.c:718-787 | The first symbol of a block starts a slot at the time of the push and changes no other slot |
| `DeinterleaverOutcomes.PushOutcome` | src/deinterleaver.c:653-787 | Where a pushed symbol goes: counted as an erasure, rejected with -1, counted late when its block is ready, counted as a duplicate when its position is there, else stored with no drop counted; 1 is returned exactly when its block is ready then |
| `DeinterleaverOutcomes.SlotTaken` | src/deinterleaver.c:262-429 | A new block takes the first free slot, else the first of the oldest ready ones, else the first of the oldest filling ones |
| `DeinterleaverOutcomes.NewBlockEvicts` | src/deinterleaver.c:262-429 | A new block pushes one out exactly when as many are in hand as there are slots, and it is counted as ready if any is, else as filling |
| `DeinterleaverOutcomes.MarkOutcome` | src/deinterleaver.c:828-858 | Acknowledging a ready block removes it with one callback that tells the result, moves no counter and returns 0; otherwise nothing changes and -1 is returned |
| `DeinterleaverOutcomes.ChangesCounted` | src/deinterleaver.c:864-919 | The number a tick returns is the number of slots whose state changed |
| `DeinterleaverInvariant.TickZeroSettles` | src/deinterleaver.c:864-919 | tick(0.0) leaves no filling slot |
| `DeinterleaverMap.BlockAt` | src/deinterleaver.c:239-251 | Because active ids are unique, the slot array is a map from block id to block contents |
| `DeinterleaverMap.MarkCount` | src/deinterleaver.c:133-141 | The number of set mask bits is the number of symbols the block holds |
| `DeinterleaverMap.FreeSlot` | src/deinterleaver.c:262-300 | A free slot exists exactly when fewer blocks than slots are active |
| `DeinterleaverMap.GoneIsVictim` | src/deinterleaver.c:300-429 | An allocation evicts nothing unless all slots are in use, and then the oldest ready block, or the oldest filling one when none is ready |
| `DeinterleaverMap.PushRefines` | src/deinterleaver.c:653-787 | A push of an acceptable symbol is delivery into a map from block id to received symbols, after that eviction |
| `DeinterleaverMap.TickRefines` | src/deinterleaver.c:864-919 | A tick settles every block of the map on its own and adds none |
| `DeinterleaverMap.MarkRefines` | src/deinterleaver.c:828-858 | mark_result removes a ready block and returns 0, or changes nothing and returns -1 |
| `DeinterleaverReady.ReadyUnchanged` | src/deinterleaver.c:653-919 | No operation changes a ready block: it disappears only by its own acknowledgement, or as the oldest ready block when a new block arrives and every slot is in use |
| `DeinterleaverRuns.StepKeeps` | src/deinterleaver.c:653-956 | Every operation keeps the invariant |
| `DeinterleaverRuns.BoundedRedecoding` | src/deinterleaver.c:653-858 | In every run in which no (block_id, fec_id) is pushed twice, a block is promoted to ready at most floor(n / k) times, hence at most once when 2k > n, whatever late symbols, evictions and acknowledgements occur |
| `DeinterleaverSchedules.BoundAttained` | src/deinterleaver.c:653-858 | The bound is reached for every configuration: some run with an ordered clock and without repeated pushes, with ticks that let a positive stabilization period pass, promotes a block exactly floor(n / k) times |
| `DeinterleaverRuns.StepBound` | src/deinterleaver.c:653-919 | Each promotion uses up k collected symbols, and only a push of a symbol of the block adds one |
| `DeinterleaverLedger.Conservation` | src/deinterleaver.c:162-175 | Over every run: slots allocated = filling now + promoted + discarded + evicted while filling; promoted = ready now + decoded + failed + evicted while ready; and every incarnation of a block is reported by exactly one final callback, when it ends |
| `DeinterleaverLedger.PushesAccounted` | src/deinterleaver.c:653-787 | Over every run every pushed symbol is stored, counted in exactly one drop counter, or rejected with -1 |
| `DeinterleaverLedger.PushDrops` | src/deinterleaver.c:653-787 | One push raises exactly one drop counter unless it stores or rejects the symbol; a rejection returns -1 and changes nothing |
| `DeinterleaverLedger.TimeoutCounterUnused` | src/deinterleaver.c:436-540 | In every run the counter of blocks failed by timeout stays 0: every discard has too many holes |
| `Deinterleaving.Deinterleaver.constructor` | src/deinterleaver.c:546-613 | A new object stands for the initial state |
| `Deinterleaving.Deinterleaver.Create` | src/deinterleaver.c:546-613 | No object exactly for invalid parameters, k >= n included; otherwise the initial state |
| `Deinterleaving.Deinterleaver.FindSlotAny` | src/deinterleaver.c:239-251 | The first active slot with the id, or none |
| `Deinterleaving.Deinterleaver.PickSlot` | src/deinterleaver.c:262-300 | One pass over the slots finds the first free, else the oldest ready, else the oldest filling slot |
| `Deinterleaving.Deinterleaver.AllocSlot` | src/deinterleaver.c:262-429 | Allocation in place equals the specification, eviction callbacks and counters included |
| `Deinterleaving.Deinterleaver.FinalizeAndResetSlot` | src/deinterleaver.c:162-211 | Reports the outcome once, then empties the slot and keeps its stale cells |
| `Deinterleaving.Deinterleaver.MaybeFreezeSlot` | src/deinterleaver.c:436-540 | The source's sequence of tests on one slot equals the specification and tells whether its state changed |
| `Deinterleaving.Deinterleaver.PushSymbol` | src/deinterleaver.c:653-787 | push_symbol in place equals the specification Push, return code included |
| `Deinterleaving.Deinterleaver.GetReadyBlock` | src/deinterleaver.c:793-822 | The first ready slot, without changing anything |
| `Deinterleaving.Deinterleaver.MarkResult` | src/deinterleaver.c:828-858 | mark_result in place equals the specification Mark |
| `Deinterleaving.Deinterleaver.TickSlots` | src/deinterleaver.c:864-919 | tick in place equals the specification Tick, whose outcome `DeinterleaverAges.TickByAge` states, and returns the number of slots whose state it changed |
| `Deinterleaving.Deinterleaver.ReadyCount` | src/deinterleaver.c:935-943 | The number of ready slots, positive exactly when get_ready_block would find one |
| `Deinterleaving.Deinterleaver.IncCrcDrop` | src/deinterleaver.c:952-956 | Only the checksum drop counter grows, by one |
| `Crc32c.TableStepIsByteStep` | src/symbol.c:57-94 | One table lookup equals eight single-bit steps of the polynomial register, for every register and byte |
| `Crc32c.BitwiseConcat` | src/symbol.c:148-169 | Running over header then payload equals one pass over their concatenation |
| `Crc32c.SameInputKeepsApart` | src/symbol.c:83-94 | Each update step is injective: different registers stay different under equal input |
| `Crc32c.BurstDetected` | src/symbol.c:83-94 | Two strings of equal length that differ only within four consecutive bytes leave different registers |
| `CrcDivision.RegisterDivides` | src/symbol.c:57-76 | The shift register performs long division by the generator polynomial |
| `CrcDivision.PolyDigits` | src/symbol.c:57-76 | The table's reflected constant 0x82F63B78 is the Castagnoli generator of RFC 3720, section 12.1 |
| `CrcDivision.CrcIsRemainder` | src/symbol.c:57-94 | The register after any byte string is the remainder of the message polynomial, times x^32 plus the initial register, divided by the generator |
| `SymbolCrc.CrcTable.BuildTable` | src/symbol.c:57-76 | The table built holds eight register steps of every byte value |
| `SymbolCrc.CrcTable.Update` | src/symbol.c:83-94 | The table-driven loop over any bytes equals the bit-serial register |
| `SymbolCrc.CrcTable.Compute` | src/symbol.c:100-111 | CRC-32C of the bytes, the table built on first use: the complement of the result is the remainder of the message divided by the generator from a register of ones |
| `SymbolCrc.CrcTable.ComputeValue` | src/symbol.c:148-169 | The checksum of header followed by payload, with the same property |
| `SymbolCrc.ChecksumRemainder` | src/symbol.c:100-111 | For every byte string the complement of its checksum is that remainder |
| `ChecksumAnswers.CheckValue` | src/symbol.c:100-111 | The checksum of the ASCII digits 1 to 9 is 0xE3069283 |
| `SymbolCrc.HeaderFields` | src/symbol.c:122-145 | The 14 checksummed header bytes, read as base-256 numbers with the most significant byte first, are packet_id, fec_id, symbol_index, total_symbols and payload_len |
| `SymbolCrc.CrcTable.Stamp` | src/symbol.c:202-208 | A stamped symbol passes verification and differs from the original only in its checksum |
| `SymbolCrc.CrcTable.Verify` | src/symbol.c:210-216 | True exactly when the stored checksum is that of header and payload |
| `SymbolCrc.CorruptionDetected` | src/symbol.c:119-216 | Changing packet_id alone, fec_id alone, symbol_index and total_symbols, or payload bytes within four consecutive bytes of a verified symbol always makes verification fail |
| `SymbolCrc.PaddingUnprotected` | src/symbol.c:148-169 | Bytes beyond the payload length never influence verification |
| `Fragmentation.FragmentPacket` | src/packet_fragmenter.c:47-134 | Either -1 with the output untouched, exactly when the packet cannot be fragmented, or the fragments in order and the rest of the output untouched |
| `Fragmentation.CountBounds` | src/packet_fragmenter.c:81-90 | Every fragment starts inside the packet, all but the last are full, and the last carries exactly what is left |
| `Fragmentation.CountWithin` | src/packet_fragmenter.c:81-90 | A packet needs at most k fragments exactly when it has at most k * size bytes |
| `Fragmentation.ReassemblePacket` | src/packet_reassembler.c:33-145 | The method computes the specified reassembly or rejects, with all writes inside the output buffer |
| `Fragmentation.PlaceSymbols` | src/packet_reassembler.c:111-145 | The placement loop in place equals the specification: offset index * stride, length the furthest end written |
| `ReassembledBytes.BytesAre` | src/packet_reassembler.c:64-145 | What any accepted set with a symbol that is not its last comes to: the first such symbol sets the stride, each byte is that of the last symbol in the list that covers it, else zero, and the packet ends where the symbol reaching furthest ends |
| `ReassembledBytes.LastBytes` | src/packet_reassembler.c:64-109 | An accepted set of last symbols only comes to the payload of its first |
| `Fragmentation.StrideIsSize` | src/packet_reassembler.c:64-109 | For a packet's fragments in any order the inferred stride is the symbol size, or the packet is a single symbol |
| `Fragmentation.RoundTrip` | src/packet_reassembler.c:33-145 | Any set of symbols carrying every fragment of a packet once, in any order, reassembles to exactly the packet |
| `Fragmentation.PermutationRoundTrip` | src/packet_reassembler.c:33-145 | Any permutation of what fragment_packet produced reassembles to exactly the packet, for every symbol size and non-empty packet that fits |
| `Fragmentation.RepeatedIndexAccepted` | src/packet_reassembler.c:85-89 | A concrete set that repeats an index and lacks another is accepted: validation stops at the first non-last symbol; when a set is accepted and when complete is said by `Acceptance` |
| `Acceptance.AcceptedIff` | src/packet_reassembler.c:64-145 | For every set of symbols and every buffer size: the set is accepted if and only if it has the announced non-zero number of symbols and either every symbol is a consistent last one and the first fits the buffer, or the symbols up to the first that is not a last one are consistent, that one's length is positive, and every index times it plus the symbol's length fits the buffer |
| `Acceptance.CoversIff` | src/packet_reassembler.c:85-89 | A set of symbols covers every index if and only if its indices are distinct and below their number |
| `Acceptance.AcceptedComplete` | src/packet_reassembler.c:85-145 | An accepted set is complete if and only if its indices are distinct and below the announced total, which a caller can check first |
| `Bytes.RoundTrip16` | src/tx_pipeline.c:561-612 | 16-bit fields are read back unchanged |
| `Bytes.RoundTrip32` | src/tx_pipeline.c:561-612 | 32-bit fields are read back unchanged |
| `Bytes.BigEndian16` | src/tx_pipeline.c:575-591 | The two bytes written denote the number in base 256, most significant byte first, and any two are read as the number they denote so |
| `Bytes.BigEndian32` | src/tx_pipeline.c:575-591 | The same for four bytes |
| `Wire.SerialiseInto` | src/tx_pipeline.c:561-612 | The frame in the buffer is the literal Ethernet header, then at bytes 14-17, 18-21, 22-23, 24-25, 26-27 and 28-31, most significant byte first, packet_id, fec_id, symbol_index, total_symbols, payload_len and crc, then payload_len data bytes |
| `Wire.FrameFields` | src/tx_pipeline.c:561-612 | The specification frame has those bytes |
| `Wire.ParseFrame` | src/rx_pipeline.c:244-316 | Parsing in place equals the specification on the received bytes: wrong EtherType, short, oversized, truncated, padding, checksum failure, accepted |
| `Wire.ParseOutcomes` | src/rx_pipeline.c:244-316 | Each outcome of parsing in terms of the frame's own bytes: which frames are no symbol, too short, padding, too long, truncated, failing, or accepted, and the numbers the symbol then carries |
| `Wire.FieldsRoundTrip` | src/rx_pipeline.c:264-271 | All six header fields survive serialising and parsing |
| `Wire.ParseSerialised` | src/rx_pipeline.c:244-316 | Parsing a serialised frame with any trailing bytes yields the symbol with its unsent bytes zeroed, and a stamped checksum still verifies; interleaver padding is recognised before the checksum |
| `Wire.RoundTrip` | src/rx_pipeline.c:244-316 | The symbol itself comes back if and only if its data is zero beyond the payload length |
| `Wire.BuilderPaddingSurvives` | src/rx_pipeline.c:273-283 | Block-builder padding (packet_id not 0, payload_len 0) survives as a valid symbol |
| `Wire.CorruptFrameDropped` | src/rx_pipeline.c:306-316 | A corrupted frame of a verified symbol is dropped by the checksum check when checksums are on, unless it now looks like padding |
| `FecWrapper.Decoder.Feed` | src/fec_wrapper.c:350-379 | One more symbol is fed, allowed only before Success; the protocol state follows the codec's answer |
| `FecWrapper.Decoder.Recover` | src/fec_wrapper.c:392-406 | Recovery is allowed only after Success and depends on what was fed |
| `FecWrapper.CountValidSymbols` | src/fec_wrapper.c:96-111 | The number of positions with a non-zero packet_id |
| `FecWrapper.BuildFeedOrder` | src/fec_wrapper.c:113-149 | Two passes write the source positions, then the repair positions, into the output |
| `FecWrapper.FeedOrderTheorem` | src/fec_wrapper.c:113-149 | The feed order lists exactly the present positions, each once, all sources before all repairs, ascending within each kind |
| `FecWrapper.DecodeBlock` | src/fec_wrapper.c:268-436 | The guards, the feed loop and recovery compute the specified outcome, and the decoder is never called again after Success |
| `FecWrapper.DecodeOutcome` | src/fec_wrapper.c:268-436 | For any codec: a block decodes to these bytes exactly when at least k symbols are present, the first answer other than a request for more is a success, and what was fed by then recovers them; every other block is an error |
| `FecWrapper.ValidCounted` | src/fec_wrapper.c:96-111 | The count is the number of positions with a non-zero packet_id |
| `FecWrapper.AsIntIs` | src/fec_wrapper.c:113-149 | The cast to a signed int keeps the value modulo 2^32 and lies between -2^31 and 2^31 - 1 |
| `FecWrapper.TooManyHolesUnreachable` | src/fec_wrapper.c:311-328 | The result TOO_MANY_HOLES cannot occur: too many holes means too few symbols, which is refused first |
| `FecWrapper.TooFewRefused` | src/fec_wrapper.c:311-318 | Fewer than k present symbols are refused |
| `FecWrapper.IdealStops` | src/fec_wrapper.c:350-379 | An ideal decoder fed with symbols of one block succeeds at the k-th and not before |
| `FecWrapper.DecodesSource` | src/fec_wrapper.c:268-436 | With an ideal codec any block of at least k present symbols decodes to its source bytes |
| `ParityCodec.ParityIsIdeal` | src/fec_wrapper.c:268-436 | The hypothesis on the codec can be met: with one repair symbol, bytewise sums make an ideal codec for every k and symbol size |
| `ReadyBlocks.ValidCountAgrees` | src/fec_wrapper.c:96-111 | For a slot with non-zero id the wrapper counts exactly valid_symbols; for id 0 it counts none |
| `ReadyBlocks.ReadyIsFed` | src/fec_wrapper.c:300-379 | A ready block passes the guards if and only if its id is not 0, and is then fed exactly the received positions |
| `ReadyBlocks.SourcesFirst` | src/fec_wrapper.c:113-149 | The positions fed first are exactly the received source positions |
| `ReadyBlocks.ReadyDecodes` | src/fec_wrapper.c:268-436 | With an ideal codec every ready block holding symbols of a source decodes to that source |
| `BlockBuilding.BlockBuilder.constructor` | src/block_builder.c:51-97 | A new builder is empty and starts with block id 1 |
| `BlockBuilding.BlockBuilder.Init` | src/block_builder.c:51-97 | No builder exactly for invalid parameters |
| `BlockBuilding.BlockBuilder.AddSymbol` | src/block_builder.c:99-151 | Appends the symbol and returns 1 exactly when that fills the block; the first symbol sets the time to now and later ones leave it; a full builder returns -1 and does not change |
| `BlockBuilding.BlockBuilder.CheckTimeout` | src/block_builder.c:153-184 | 1 exactly when a non-empty builder has waited for the timeout, -1 for a negative timeout |
| `BlockBuilding.BlockBuilder.FinalizeWithPadding` | src/block_builder.c:186-226 | The block becomes its symbols followed by zero symbols, stale ones overwritten |
| `BlockBuilding.BlockBuilder.ResetBlock` | src/block_builder.c:228-244 | The builder becomes empty with the next id, although the symbols are not cleared |
| `WholeBlocks.PushWhole` | src/tx_pipeline.c:480-496 | Pushing a whole encoded block into a window of whole blocks rejects nothing, adds exactly the block's row, and makes the window ready exactly when it was the last row |
| `WholeBlocks.TickWhole` | src/tx_pipeline.c:535-555 | A tick on whole rows flushes only after the timeout and then adds only padding rows |
| `WholeBlocks.PaddingIsErased` | src/interleaver.c:214-247 | Every padding cell of an unassigned row has packet_id 0, payload_len 0 and zero data, so the receiver never stores one |
| `TxHistory.InitiallyReflects` | src/tx_pipeline.c:104-240 | A new pipeline stands for the empty history |
| `TxHistory.EncodeReflects` | src/tx_pipeline.c:410-501 | encode_and_drain never fails: it seals the builder's packets as the next numbered block, and sends the window exactly when it is full |
| `TxHistory.DrainReflects` | src/tx_pipeline.c:507-533 | A drain sends exactly the window's blocks in drain order and empties the window, or does nothing |
| `TxPacking.FlushReflects` | src/tx_pipeline.c:349-360 | A flush seals the builder's packets, padded with zero symbols, as one block |
| `TxPacking.TickReflects` | src/tx_pipeline.c:535-555 | A timed flush sends the open blocks and loses no packet |
| `TxPacking.AddReflects` | src/tx_pipeline.c:362-379 | The fragment loop puts all fragments of a packet of at most k fragments into one block and closes it if that fills it |
| `TxPacking.StepReflects` | src/tx_pipeline.c:261-404 | One call of run_once on a packet of at most k fragments adds exactly that packet to the history; what holds for packets of any length is `TxComposition.StepComposed` |
| `TxPacking.PackingTheorem` | src/tx_pipeline.c:261-404 | Over every run of packets of at most k fragments and ids below 2^32: the blocks are numbered 1, 2, 3, ... and hold whole packets that are together, in order, exactly the packets taken (a longer packet is split, see `LongPackets.LongPacketTaken`; the interleaver's part holds for any length, see `TxComposition.CompositionTheorem`) |
| `TxPacking.PacketPosition` | src/tx_pipeline.c:362-379 | Fragment i of a block's packet sits at consecutive positions of that block, under the block's id and its own fec_id |
| `TxPacking.UnusedPosition` | src/block_builder.c:186-226 | Positions after the last fragment carry no payload and zero data, under the block's id |
| `TxPacking.StraddlersExist` | src/tx_pipeline.c:202-206 | Some accepted packet needs more than k fragments if and only if the longest packet does: the comment at lines 347-348 holds only then |
| `TxPacking.LongPacketSplits` | src/tx_pipeline.c:362-379 | From an empty builder, a packet of more than k fragments is split: its first k fragments are sealed as a block of their own; for any builder see `LongPackets.LongPacketTaken` |
| `LongPackets.LongPacketTaken` | src/tx_pipeline.c:343-379 | run_once on a packet of more than k fragments, whatever waits in the builder: the open block is closed first, the packet's first k fragments are sealed as a block of their own without failure, and the loop goes on with the rest |
| `LongPackets.NothingWaits` | src/tx_pipeline.c:280-303 | After every run with block ids below 2^32, packets of any length included, the two late idle calls leave nothing in the builder and nothing in the interleaver |
| `TxComposition.TickComposed` | src/tx_pipeline.c:535-555 | At every tick every row is complete or unassigned, and a flush sends a complete window |
| `TxComposition.CloseComposed` | src/tx_pipeline.c:410-501 | encode_and_drain: no push is rejected, and the block takes exactly one row, waiting or sent |
| `TxComposition.AddComposed` | src/tx_pipeline.c:362-379 | The fragment loop over any number of fragments does not fail and leaves fewer than k symbols in the builder |
| `TxComposition.StepComposed` | src/tx_pipeline.c:261-404 | One call of run_once on a packet of any length does not fail and keeps the composition invariant |
| `TxComposition.CompositionTheorem` | src/tx_pipeline.c:261-404 | Over every run with block ids below 2^32, packets of any length included: between calls the interleaver is not ready and holds whole blocks, the builder holds fewer than k symbols, the wire is the concatenation of complete windows in which every block has exactly one row, and run_once never returns -1 |
| `TxScheduleRuns.ScheduleTheorem` | src/tx_pipeline.c:261-404 | Over every run with block ids below 2^32, packets of any length: the fragments in the order they came are cut into blocks numbered from 1, whose rows hold exactly those fragments, zero padding and repairs; each is sealed, at the time of a call, because it holds k fragments, or its first one came at least 2 ms before, or the packet just arriving has too many to join, and a packet is divided only if it has more than k; windows are sent because they hold depth blocks or their first was sealed at least 5 ms before; the wire is those windows; the builder remembers when its first fragment came; and after a successful call with a packet or an idle input nothing that waits is older than 2 ms in the builder and 5 ms in the interleaver |
| `TxScheduleRuns.StepScheduled` | src/tx_pipeline.c:261-404 | One call of run_once, whatever it is given, keeps that schedule, continues the log with its own time, and leaves an open block younger than 2 ms and a waiting window younger than 5 ms |
| `TxScheduleRuns.AddScheduled` | src/tx_pipeline.c:362-379 | The fragment loop over any number of fragments never fails and keeps the schedule: every fragment joins a block, a block is sealed for one of its reasons, inside a packet only if that has more than k fragments, fewer than k wait in the end, and an open block keeps the time of its first fragment |
| `TxSchedule.RoomKept` | src/tx_pipeline.c:343-360 | A packet that fits in what is left of the open block changes nothing: it shares the block |
| `TxSchedule.RoomScheduled` | src/tx_pipeline.c:343-360 | Afterwards a packet of at most k fragments fits in what is left of the open block, and at most one block was sealed, for one of the reasons of the schedule |
| `TxSchedule.TimeoutScheduled` | src/tx_pipeline.c:381-397 | Afterwards the open block is younger than 2 ms, counted from its first fragment, and at most one block was sealed |
| `TxSchedule.TickScheduled` | src/tx_pipeline.c:535-555 | The builder is untouched, a window is sent only for one of the reasons of the schedule, and afterwards the first block that waits was sealed less than 5 ms ago |
| `TxSchedule.CloseScheduled` | src/tx_pipeline.c:410-501 | Sealing a block for one of the reasons of the schedule never fails: its row, numbered, joins those that wait, a full window is sent, and the builder starts the next block |
| `TxOutcomes.BlockSymbolIs` | src/tx_pipeline.c:431-467 | Symbol i of a block: packet_id is the block id and fec_id is i; a source keeps index, total, length and data; a repair has index i, total k + m, the full length and what the encoder makes of all sources end to end; with checksums on, it verifies |
| `TxOutcomes.LeftoverSent` | src/tx_pipeline.c:469-478 | Symbols left in a full window go out before the new block is pushed |
| `TxOutcomes.TakenIff` | src/tx_pipeline.c:202-206 | A packet is taken exactly when it needs at most 65535 fragments and no more than k, or than 9000 bytes need |
| `TxOutcomes.PacketsNumbered` | src/tx_pipeline.c:326-341 | Over every run the packet counter is the number of packets taken, modulo 2^32, failed calls included |
| `TxClock.RunClocked` | src/tx_pipeline.c:261-404 | A call leaves no timestamp later than its own time |
| `TxClock.RunsClocked` | src/tx_pipeline.c:261-404 | Over every run with an ordered clock no stored timestamp is in the future |
| `TxPipelines.TxPipeline.constructor` | src/tx_pipeline.c:104-240 | A new object stands for the initial state with nothing sent |
| `TxPipelines.TxPipeline.SendSymbol` | src/tx_pipeline.c:561-612 | Exactly the serialised frame of the symbol is sent |
| `TxPipelines.TxPipeline.DrainInterleaver` | src/tx_pipeline.c:507-533 | The pop loop sends exactly the drain of the window and ends with an empty window |
| `TxPipelines.TxPipeline.TickAndDrainInterleaver` | src/tx_pipeline.c:535-555 | In place it equals the specification TickAndDrain |
| `TxPipelines.TxPipeline.GatherSource` | src/tx_pipeline.c:431-435 | The source buffer is the builder's data, end to end |
| `TxPipelines.TxPipeline.SealSources` | src/tx_pipeline.c:443-467 | In place every source takes the block's id and its position and keeps index, total, length and data |
| `TxPipelines.TxPipeline.MakeRepairs` | src/tx_pipeline.c:437-467 | The repairs are those of the specification: ids k to n - 1, length symbol_size, data from the encoder |
| `TxPipelines.TxPipeline.PushSymbols` | src/tx_pipeline.c:480-496 | The push loop equals the specification up to the first rejected symbol |
| `TxPipelines.TxPipeline.EncodeAndDrainBlock` | src/tx_pipeline.c:410-501 | encode_and_drain in place equals the specification |
| `TxPipelines.TxPipeline.FlushOnTimeout` | src/tx_pipeline.c:381-397 | The timeout check flushes exactly when the builder has timed out |
| `TxPipelines.TxPipeline.MakeRoomFor` | src/tx_pipeline.c:343-360 | Equals the specification MakeRoom; a packet that fits in what is left of the open block leaves the whole state unchanged |
| `TxPipelines.TxPipeline.AddFragments` | src/tx_pipeline.c:362-379 | The fragment loop in place equals the specification AddFrom |
| `TxPipelines.TxPipeline.RunOnceOn` | src/tx_pipeline.c:261-404 | run_once in place equals the specification RunOnce, 0 or -1 included (what that does to blocks and windows is `TxScheduleRuns.StepScheduled`); the frames sent are always the serialised wire symbols |
| `RxGrouping.RebuiltFragment` | src/rx_pipeline.c:428-455 | Stored metadata and decoded bytes of a source position rebuild exactly the fragment that was packed there |
| `RxGrouping.GroupingTheorem` | src/rx_pipeline.c:425-571 | For a decoded block of whole packets whose k source positions all arrived, any repairs missing, exactly those packets are sent in order and nothing for padding |
| `RxLosses.LossCosts` | src/rx_pipeline.c:425-571 | Where lost positions hold no metadata: if a fragment's position was lost, fewer packets are sent than the block carries |
| `RxLosses.PacketsSurviveIff` | src/rx_pipeline.c:425-571 | Where lost positions hold no metadata: the packets sent are those packed if and only if no lost position carried a fragment |
| `RxLosses.JoinCounts` | src/rx_pipeline.c:457-543 | Joining one symbol reassembles at most one packet, and only by completing a group |
| `RxSurvivors.GroupsMatch` | src/rx_pipeline.c:425-571 | The loop over the source positions produces exactly the groups that the stored metadata alone determines, each reassembled from the decoded bytes |
| `RxSurvivors.GroupAccepted` | src/rx_pipeline.c:425-571 | Whether a group is accepted is decided by its metadata alone |
| `RxIntegrity.PacketGroup` | src/rx_pipeline.c:425-571 | The positions of a packet received whole reassemble to that packet |
| `RxIntegrity.GenuineIsPacket` | src/rx_pipeline.c:425-571 | An accepted group made of one stretch of received positions is one whole packet |
| `RxIntegrity.SurvivorsIff` | src/rx_pipeline.c:425-571 | For any losses and any metadata left at lost positions: the packets whose fragments were all received are sent, in order; nothing else is sent if and only if the stored metadata makes no other accepted group, and otherwise more is sent than arrived |
| `RxJoined.JoinedIff` | src/rx_pipeline.c:457-543 | Where lost positions hold no length: exactly the packets received whole are sent if and only if no packet of which a part was received, and which starts a group (its first fragment came, or what came last before it was a whole packet), is followed by packets that all lost their first fragments and that have, together with it, at least as many fragments left as it had; provided that no packet so followed kept only its last fragment |
| `RxJoined.NoneJoinedSuffices` | src/rx_pipeline.c:457-543 | One half of it, for any blank losses: without such packets exactly the packets received whole are sent, in order |
| `RxJoined.JoinedSpoils` | src/rx_pipeline.c:457-543 | The other half: with such packets, the first of them not with its last fragment alone, more is sent than arrived whole, whatever else was lost |
| `RxJoined.LedAccepted` | src/packet_reassembler.c:64-145 | A set that starts with a fragment other than the last of its packet is accepted whatever packets the others are from |
| `RxMixing.Passed` | src/rx_pipeline.c:457-543 | Past a packet in which no group is complete, its received fragments have been added to what was buffered |
| `RxJoined.HeadsSuffice` | src/rx_pipeline.c:425-571 | In particular, if every packet that lost its first fragment lost all its fragments, exactly the packets received whole are sent, in order |
| `RxFailures.MixedPacket` | src/rx_pipeline.c:457-543 | A concrete block for which that condition fails: of [1, 2] and [3, 4] the last fragment of one and the first of the other are lost, and [1, 4] is sent, which nobody took |
| `FailingRuns.MixedRun` | src/rx_pipeline.c:200-327 | A run of frames that reaches that block: from its start the receiver is sent what is left of it and has then sent [1, 4] |
| `RxConditions.StalePadding` | src/deinterleaver.c:213-236 | For any block all of whose fragments were received: exactly its packets are sent if and only if what earlier blocks left at its lost padding positions makes no accepted group |
| `RxJoined.BlankPadding` | src/rx_pipeline.c:425-571 | In particular exactly its packets are sent when the lost padding positions hold no length |
| `RxFailures.LeftoverPacket` | src/deinterleaver.c:213-236 | A concrete block for which that fails: [5] arrived whole, and [0] is sent as well because its slot still held the metadata of an earlier symbol |
| `FailingRuns.LeftoverRun` | src/deinterleaver.c:213-236 | A run of frames that reaches that block: a block received whole comes first in the same slot, and the receiver has sent its packets, then [5] and [0] |
| `RxSpec.MarkLowersReady` | src/deinterleaver.c:828-858 | Acknowledging a ready block leaves exactly one ready block fewer, by uniqueness of active ids |
| `RxSpec.DrainsAll` | src/rx_pipeline.c:339-577 | The outer loop ends, and then no block is ready |
| `RxOutcomes.DrainInOrder` | src/rx_pipeline.c:358-576 | The loop decodes exactly the ready blocks, in the order of their slots, empties those slots, and leaves every other slot and every counter as it was |
| `RxOutcomes.CallOutcome` | src/rx_pipeline.c:200-327 | Whatever a call receives, the blocks overdue at its time are given up first, each reported, even the one its frame belongs to; a call without a symbol or idle input then sends and reports nothing more, and any other leaves no block ready |
| `RxOutcomes.FramesCounted` | src/rx_pipeline.c:236-327 | Over every run crc_drop_fail is the number of frames whose symbol fails verification, and the erasure counter the number of padding frames |
| `RxOutcomes.FourWindowsFit` | src/rx_pipeline.c:144-150 | With fewer than 4 * depth blocks in hand no symbol pushes a block out |
| `RxAges.OnceYoung` | src/rx_pipeline.c:200-327 | After any call no unfinished block is 50 ms old, and none of k symbols has been quiet for 2 ms |
| `RxSizes.PacketsWithin` | src/rx_pipeline.c:477-503 | Over every run no packet sent is empty or longer than 9200 bytes |
| `RxPipelines.RxPipeline.constructor` | src/rx_pipeline.c:85-176 | A new object stands for the initial state |
| `RxPipelines.RxPipeline.FlushBefore` | src/rx_pipeline.c:457-503 | A symbol of index 0, or a complete group, flushes what is buffered before the symbol is buffered |
| `RxPipelines.RxPipeline.FlushAfter` | src/rx_pipeline.c:516-543 | A group the symbol completes is flushed at once |
| `RxPipelines.RxPipeline.JoinSymbol` | src/rx_pipeline.c:457-543 | The buffer and the packets sent after one symbol are those of the specification Join |
| `RxPipelines.RxPipeline.GroupSymbols` | src/rx_pipeline.c:425-571 | The loop over the k source positions sends exactly the specified groups, the final one included |
| `RxPipelines.RxPipeline.HandleReady` | src/rx_pipeline.c:352-576 | One round decodes, regroups, sends and acknowledges as specified, in the failing case too |
| `RxPipelines.RxPipeline.DrainReadyBlocks` | src/rx_pipeline.c:339-577 | drain_ready_blocks ends and equals the specification |
| `RxPipelines.RxPipeline.TakeFrame` | src/rx_pipeline.c:236-327 | Parse, then push and drain, count a checksum failure, or drop without effect |
| `RxPipelines.RxPipeline.RunOnceOn` | src/rx_pipeline.c:200-327 | run_once in place equals the specification: always a tick, then the frame or the drain |
| `BurstStatistics.BurstStats.UpdateMax` | src/stats.c:84-97 | Without contention the maximum becomes the larger of itself and the candidate |
| `BurstStatistics.BurstStats.BucketBurst` | src/stats.c:99-116 | Exactly one bucket grows, that of the length |
| `BurstStatistics.BurstStats.Classify` | src/stats.c:155-163 | A burst longer than a configured, non-zero span is counted as critical and as exceeding, any other as recoverable |
| `BurstStatistics.BurstStats.StoreSample` | src/stats.c:118-135 | The sample is appended, or counted as dropped when all slots are taken |
| `BurstStatistics.BurstStats.CloseCurrentBurst` | src/stats.c:137-164 | The current burst is closed into every counter as specified, the counter of bursts exceeding the span included, once, and nothing happens when there is none |
| `BurstStatistics.BurstStats.RecordSymbol` | src/stats.c:441-452 | A loss lengthens the current burst, a received symbol closes it |
| `BurstStatistics.BurstStats.FinalizeBurst` | src/stats.c:454-457 | Closes the current burst |
| `BurstStatistics.RunsAreMaximal` | src/stats.c:137-164 | The runs used to judge the counters are exactly the maximal runs of losses of the stream, in order and apart |
| `BurstStatistics.StatisticsTheorem` | src/stats.c:137-164 | For every stream, then a final close: burst count, length sum, maximum, buckets, samples and the critical, exceeding and recoverable counts are those of the stream's maximal loss runs, the lengths sum to the symbols lost, and recoverable + critical = bursts |
| `BurstStatistics.BucketTheorem` | src/stats.c:99-116 | For every stream, then a final close: the buckets count the maximal loss runs of length 1, 2-5, 6-10, 11-50, 51-100, 101-500 and 501 or more, the critical ones are those longer than a configured span, and the others are recoverable |
| `ConcurrentStatistics.RunSound` | src/stats.c:84-164 | Under every schedule of any number of threads, every atomic operation and the load of the span a step of its own, spurious compare-and-swap failures included: all counters and the work still owed to them account for every burst taken |
| `ConcurrentStatistics.QuietCounts` | src/stats.c:137-164 | Once all threads have returned, every counter is that of the bursts taken, critical = exceeding, recorded + dropped = bursts, and lost = current + sum |
| `ConcurrentStatistics.QuietBuckets` | src/stats.c:99-116 | Once all threads have returned, the buckets count the bursts taken within those bounds, and the critical ones are those longer than a configured span |
| `ConcurrentStatistics.QuietSamples` | src/stats.c:84-135 | Once all threads have returned the maximum is the longest burst taken, and exactly the slots below recorded are written, each handed out once |
| `ConcurrentStatistics.StepSlots` | src/stats.c:118-135 | Every step keeps each sample slot with at most one writer, never a written one |
| `SampleValues.QuietValues` | src/stats.c:118-135 | Once all threads have returned no length is in more slots than bursts of it were taken, and in exactly as many while the slots suffice for all bursts |

## Left out

- LossDecoding.PacketsNeedFragments: the case of lost positions without metadata; `RxIntegrity.SurvivorsIff` and `LossPackets.SlotPackets` are about any metadata.
- FirstWindow.FirstLoss: the first window, whose slots hold nothing yet; `LossPackets.LossSends` and `LossyFifo.LossyFifoTheorem` are about every window.
- RxLosses.LossCosts: the case of lost positions without metadata; with stale metadata more packets can be sent than arrived (`RxIntegrity.SurvivorsIff`).
- RxLosses.PacketsSurviveIff: the case of lost positions without metadata; for stale metadata see `RxConditions.StalePadding`.
- EndToEnd.FifoTheorem: a lossless link, in order within a window, and packets of at most k fragments: a longer packet is split over blocks, which the receiver decodes and regroups one by one.
- EndToEnd.FlushedRun: packets of at most k fragments, because only they are whole in one block; `LongPackets.NothingWaits` has no such bound.
- TxPacking.PackingTheorem: packets of at most k fragments, because a longer one is in no block whole; `TxComposition.CompositionTheorem` has no such bound.
- TxPacking.StepReflects: packets of at most k fragments, likewise; `TxComposition.StepComposed` has no such bound.
- TxOutcomes.BlockSymbolIs: for an encoder that returns a symbol of another size, the data is not described, as the code has no such case.
- TxPacking.LongPacketSplits: the fragment loop on an empty builder; `LongPackets.LongPacketTaken` is about run_once on any.
- RxJoined.JoinedIff: does not say which packets are sent when a joined group starts with a packet of which only the last fragment was received. Such a group may be refused for its totals, and the fragments after it then start a group in the middle of a packet; `RxIntegrity.SurvivorsIff` covers it on metadata.
- WindowRecovery.WindowRecovered: direct pushes of one window and one final tick; `LossyWindows.WindowRestored` and `LossyFifo.WindowsRestored` are about frames, polls and drains over many windows.
- WindowRecovery.BurstRecovered: likewise.
- LossDecoding.LossDecodes: likewise.
- LossyFifo.LossyFifoTheorem: windows do not overlap in time: the receiver has polled past one window's quiet period before the next begins. The order of a hit window's blocks is not stated as a whole: those complete come first, and each drain goes in slot order (`RxOutcomes.DrainInOrder`).
- SymbolCrc.CorruptionDetected: covers changes of one identifier, of both index fields, or within four consecutive payload bytes; a changed payload length, which moves the checksum's end, is not covered.
- FecWrapper.DecodeBlock: the scan capacity is the block's n symbols; the branch that raises it to a larger symbol_count (src/fec_wrapper.c:296-298) has no caller.
- Deinterleaving.Deinterleaver.AllocSlot: the snapshot of the evicted slot handed to the eviction callback is not described.
- TxPipelines.TxPipeline.SendSymbol: a send that fails is not described; a frame handed to the interface counts as sent.
- TxPipelines.TxPipeline.MakeRepairs: the encoder's error return is not described.
- TxPipelines.TxPipeline.EncodeAndDrainBlock: the encoder's error return is not described.
- ConcurrentStatistics.RunSound: atomic operations are interleaved one at a time; reordering between different counters that relaxed atomics would permit is not described, and counters are unbounded rather than 64 bits wide.
- Deinterleaver counters are unbounded.
- Two clock readings inside one call are taken to be equal, and a failing clock is not described.
- Failing allocation, NULL arguments and logging.
- The bit packing of received masks into bytes, and the interleaver's `occupied` flag, which nothing reads.
- The inside of the Wirehair library, and the self test of src/fec_wrapper.c:438-511, whose symbols all carry packet_id 0 and so count as holes.
- Proxy-ARP, ARP learning and the LAN address filter: such packets are not forwarded, or passed on unchanged.
- Interfaces, sockets, DPDK, threads, configuration, the control server and the web interface.
- Hardware statistics, packet and block counters, decode telemetry, percentages and percentiles.
- The unused header helper of src/fso_protocol.c.
