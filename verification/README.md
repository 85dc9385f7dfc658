# Containers and action helpers of the flight software framework

This project models three stateful parts of the framework and proves what they are for, for all inputs and
over whole runs.

**Byte ring buffer** (`RingBufferModel.dfy`, `RingBufferAmounts.dfy`, `RingBufferRuns.dfy`, `RingBufferBase.dfy`,
`SimpleRingBuffer.dfy`).
The reference is a ring into which bytes are put one at a time (`PutAll`). `Absorb` is the closed form of
its effect: contents `q` and data `d` become the last `(|q| + |d|) mod size` bytes of `q ++ d`. The class, with
its two-part copies and its reservations that run past the last cell and are copied back, is proved equal to
the reference. Amounts reach the pointers as 32-bit integers (`PutAll32`, `Drop32`). `Mod` is the remainder written
as repeated subtraction, and `ModIsRemainder` ties it to `%`.

**Indexed ring store** (`RingStoreModel.dfy`, `RingStoreRuns.dfy`, `RingStoreLosses.dfy`, `RingStoreGeometry.dfy`,
`RingStoreDump.dfy`, `RingStoreContents.dfy`, `RingStoreCodec.dfy`, `IndexedRingMemoryArray.dfy`,
`RingStoreClients.dfy`). The ring of blocks is read in *age order*: the block after
the write block first, the write block last. Opening the next block then rotates that order. The reference for
whole runs is a journal that keeps every block ever opened; the store is proved to hold its latest blocks.
A dump is described by the list of addresses still to be read, from whose front every `AddReadSize` takes what
was read. With the memory behind the addresses added, clients that check the space, write and append, and later dump,
get back the end of all the data accepted, and without overwrite all of it. Iterators are indices; `floor` of a
quotient is integer division.

**Fixed map and action protocol.** `FixedMapModel.dfy`, `FixedMapCodec.dfy` and `FixedMap.dfy` prove the map
against an abstract map of bounded size, and the loop that erases through its own iterator. `ActionMessages.dfy`,
`ActionWorld.dfy`, `ActionRuns.dfy`, `ActionDelivery.dfy`, `ActionFates.dfy` and `ActionHelpers.dfy` prove who owns the
slots of the IPC store, that receivers are given the bytes the sender handed over, that no message is dealt with twice,
and that a busy helper executes nothing else: the calls of the helpers act on the store and the messages not yet dealt
with, and every outcome of the store, the queues and the owners is an argument of the call.

`BinaryTree.dfy` proves the pointer structure of the binary tree against shapes, with the pointers of the heap
read off into a map. `VarLenField.dfy` covers the variable-length field of the CFDP headers, and
`Serialization.dfy` the fixed-width encodings and the room checks of the serialize adapter.

## Properties the code does not have

Each is stated with the exact condition under which the code does have it.

- A reservation confirmed while excess bytes of an abandoned one are still recorded damages the first cells,
  unless it runs past the last cell itself (`StaleExcessIff`).
- The amounts of the byte ring are `size_t`, but pass through a 32-bit parameter on their way to the pointers. An
  accepted write moves the write pointer past all its data if and only if there are less than 2^32 bytes
  (`AcceptedWriteIsWholeIff`); 2^32 bytes written to an empty ring are all lost (`WriteOf2To32BytesIsLost`).
- The space check of a ring store sees less than the room left if and only if the only block is empty, or a block
  other than the last is so empty that the sum in the check wraps in 32 bits (`SpaceCheckIsExactIff`,
  `SpaceCheckWraps`).
- A read size that wraps the read offset in 32 bits moves a dump back within its block instead of on
  (`IndexedRingMemoryArray.AddReadSize`).
- Without overwrite packets can be lost: a block that reports packets but no bytes counts as writable. A run loses
  packets if and only if `writeNext` opens such a block in it (`NothingIsLostIff`, `PacketWithoutBytesIsLost`); a caller
  avoids that by never appending packets without bytes, as long as no block's size wraps (`PairedRunKeepsAllPackets`).
- `FixedMap::serialize` can report success without having written a key, and `deSerialize` without having read one,
  because the result of the key is overwritten by that of the value. Neither can happen if and only if values are at
  least as wide as keys (`FixedMapCodec.SuccessMeansCompleteIff`, `ReadingSuccessMeansCompleteIff`,
  `UnreadKeyGoesUnnoticed`).
- `FixedMap::deSerialize` can leave slots that are no map: an announced number of entries above the capacity is taken
  over before it is checked, keys are not compared (`DuplicateKeyGoesUnnoticed`), and a stream that ends early turns
  stale slots into entries (`ShortStreamRevivesStaleSlots`). A map is left if and only if the number is within the
  capacity and the keys at their places in the stream, followed by those of the old slots behind its end, are
  distinct (`LeavesAMapIff`).
- The serialized size of a `FixedMap` is summed in 32 bits. With values at least as wide as keys, serializing with that
  much room succeeds if and only if the sum has not wrapped (`FixedMaps.RoundTrip`).
- `IndexedRingMemoryArray::serialize` reports success without the additional information if and only if that
  alone does not fit (`RingStoreCodec.SuccessMeansCompleteIff`, `AdditionalInfoIsLost`).
- `commandAction` keeps the slot when the data fails to serialize into it. Slots and messages are in bijection
  after a run if and only if that did not happen in it (`OwnedAfterRunIff`, `FailedCommandLeaks`), and a slot kept is
  never freed (`LeakedSlotsAreNeverFreed`).
- A variable-length field of a width other than 1, 2 and 4 is accepted and reads as zero
  (`VarLenField.SetValue`, `EightBytesReadAsZero`); a one-byte field is read without being consumed, whatever the size counter says, and the
  counter goes up (`VarLenField.DeSerialize`).

## Model

| member | source | states |
|---|---|---|
| RingBufferModel.SpacesSumToSizeMinusOne | src/fsfw/container/RingBufferBase.h:23-27 | for any pointers in range, readable data and free space add up to size - 1 |
| RingBufferModel.ReadSpaceAfterWrite | src/fsfw/container/RingBufferBase.h:53 | advancing the write pointer raises the readable amount by as much, modulo the size |
| RingBufferModel.ReadSpaceAfterRead | src/fsfw/container/RingBufferBase.h:54-56 | advancing a read pointer by no more than is readable lowers the readable amount by exactly that |
| RingBufferModel.WriteKeepsReaderIff | src/fsfw/container/RingBufferBase.h:67-74 | a write leaves a reader all its unread data if and only if it fits in the free space that reader sees |
| RingBufferModel.AdmittedWriteOverrunsNoReaderAhead | src/fsfw/container/RingBufferBase.h:67-74 | a write admitted for reader 0 overruns no reader with at most as much unread data |
| RingBufferBases.RingBufferBase.constructor | src/fsfw/container/RingBufferBase.h:11-16 | all pointers start at the start address |
| RingBufferBases.RingBufferBase.GetAvailableReadData | src/fsfw/container/RingBufferBase.h:23 | the amount by which the read pointer has to advance to meet the write pointer, always less than the size |
| RingBufferBases.RingBufferBase.AvailableWriteSpace | src/fsfw/container/RingBufferBase.h:24-27 | with the unread data it makes size - 1 |
| RingBufferBases.RingBufferBase.Clear | src/fsfw/container/RingBufferBase.h:33-38 | afterwards no reader has unread data |
| RingBufferBases.RingBufferBase.ReadData | src/fsfw/container/RingBufferBase.h:58-65 | takes the amount from one reader's unread data or fails, and leaves the other readers alone |
| RingBufferBases.RingBufferBase.WriteData | src/fsfw/container/RingBufferBase.h:67-74 | admission by reader 0 or by overwrite mode; pointers stay in range; without overwrite no reader ahead of reader 0 loses data |
| RingBufferBases.RingBufferBase.SetRead | src/fsfw/container/RingBufferBase.h:78-82 | positions out of range are ignored |
| RingBufferBases.RingBufferBase.SetWrite | src/fsfw/container/RingBufferBase.h:86 | pointers stay in range if and only if the position is in range |
| RingBufferModel.AbsorbInChunks | src/fsfw/container/SimpleRingBuffer.cpp:53-81 | absorbing data in two chunks is absorbing it at once, for any lengths |
| RingBufferModel.PutAllReadable | src/fsfw/container/SimpleRingBuffer.cpp:53-81 | after writing data to contents q, of any length, the readable bytes are the last (q + data) mod size bytes of q ++ data |
| RingBufferModel.DropReadable | src/fsfw/container/SimpleRingBuffer.cpp:120-135 | deleting n bytes removes the n oldest readable bytes and nothing else |
| RingBufferRuns.RunReadsLastWritten | src/fsfw/container/SimpleRingBuffer.cpp:30-135 | after any run of writes, confirmed reservations, reads, deletes and clears, in either mode, in which every amount that reaches a pointer fits in 32 bits, the readable bytes are the last (write - read) mod size bytes written since the last clear |
| RingBufferRuns.RunIsLosslessWithoutOverwrite | src/fsfw/container/SimpleRingBuffer.cpp:30-135 | without overwrite, over any such run, what was taken followed by what is readable is what was written |
| RingBufferRuns.SmallRingKeepsBoth | src/fsfw/container/SimpleRingBuffer.cpp:30-135 | both over any run at all, if the ring and its excess bytes have less than 2^32 bytes |
| RingBufferRuns.HasRoomIff | src/fsfw/container/RingBufferBase.h:24-27 | there is room for exactly as many bytes as keep the readable contents shorter than the ring |
| RingBufferAmounts.PutAll32Iff | src/fsfw/container/RingBufferBase.h:53 | with the amount cut to 32 bits a write is the write of all the data if and only if the cut amount is the same modulo the size |
| RingBufferAmounts.AcceptedWriteIsWholeIff | src/fsfw/container/SimpleRingBuffer.cpp:53-81 | for an accepted write, if and only if there are less than 2^32 bytes |
| RingBufferAmounts.DropIsWholeIff | src/fsfw/container/SimpleRingBuffer.cpp:120-135 | the same for the bytes deleted |
| RingBufferAmounts.WriteOf2To32BytesIsLost | src/fsfw/container/SimpleRingBuffer.cpp:53-81 | an input that fails: 2^32 bytes fit in an empty ring and none of them is readable |
| RingBufferRuns.FreshRingIsEmpty | src/fsfw/container/RingBufferBase.h:33-38 | a constructed or cleared ring meets both run invariants whatever its cells contain |
| RingBufferRuns.WriteInChunks | src/fsfw/container/SimpleRingBuffer.cpp:53-81 | a write accepted whole is accepted in chunks with the same ring as result; without overwrite also the other way round |
| RingBufferRuns.CopiesAreWrite | src/fsfw/container/SimpleRingBuffer.cpp:68-75 | the one or two copies leave the cells that writing byte by byte leaves |
| RingBufferRuns.ReadableInPieces | src/fsfw/container/SimpleRingBuffer.cpp:98-103 | the one or two pieces copied out are the oldest readable bytes in order |
| RingBufferRuns.ReserveFillConfirmIsWrite | src/fsfw/container/SimpleRingBuffer.cpp:30-51 | reserve, fill, confirm leaves the ring that writing byte by byte leaves, the pointer moved by the amount in 32 bits, also for amounts larger than the ring |
| RingBufferRuns.StaleExcessIff | src/fsfw/container/SimpleRingBuffer.cpp:30-51 | with excess bytes of an earlier reservation still recorded, that holds for all contents if and only if none are recorded or the reservation runs past the last cell |
| SimpleRingBuffers.SimpleRingBuffer.constructor | src/fsfw/container/SimpleRingBuffer.cpp:8-16 | starts empty; the room for excess bytes used is at most one ring |
| SimpleRingBuffers.SimpleRingBuffer.OnBuffer | src/fsfw/container/SimpleRingBuffer.cpp:18-26 | the same on the caller's buffer |
| SimpleRingBuffers.SimpleRingBuffer.GetFreeElement | src/fsfw/container/SimpleRingBuffer.cpp:30-44 | accepted if and only if the readable bytes and the amount stay below the size (or old data may be overwritten) and what runs past the last cell, with what is still recorded, fits the excess bytes; what excess it then records, and that the region lies within size + maxExcessBytes |
| SimpleRingBuffers.SimpleRingBuffer.ConfirmBytesWritten | src/fsfw/container/SimpleRingBuffer.cpp:46-51 | excess bytes go to the first cells, the write pointer advances by the amount in 32 bits, no excess stays recorded |
| SimpleRingBuffers.SimpleRingBuffer.MoveExcessBytesToStart | src/fsfw/container/SimpleRingBuffer.cpp:113-118 | the whole buffer after the copy |
| SimpleRingBuffers.SimpleRingBuffer.WriteData | src/fsfw/container/SimpleRingBuffer.cpp:53-81 | without overwrite accepted if and only if readable bytes and amount stay below the size, with overwrite if and only if the amount does; then the ring is that of byte-wise writing with the pointer moved by the amount in 32 bits, and for less than 2^32 bytes the contents are the closed form; otherwise unchanged |
| SimpleRingBuffers.SimpleRingBuffer.ReadData | src/fsfw/container/SimpleRingBuffer.cpp:83-109 | the requested, or if asked the remaining, oldest readable bytes reach the caller and their number is reported; the rest of the caller's memory is untouched, and the bytes leave the ring only if asked |
| SimpleRingBuffers.SimpleRingBuffer.DeleteData | src/fsfw/container/SimpleRingBuffer.cpp:120-135 | removes the requested or, if asked, the remaining oldest bytes, their number in 32 bits, and reports how many; with more requested than there are, nothing stays readable; or fails without a change |
| SimpleRingBuffers.ReserveFillConfirm | unittests/container/RingBufferTest.cpp:153-160 | the client's three steps are accepted if and only if readable bytes and amount stay below the size (or may overwrite) and the region ends within the excess bytes; then they amount to a byte-wise write, with the pointer moved by the amount in 32 bits |
| RingStoreModel.OpenNextRotates | src/fsfw/container/IndexedRingMemoryArray.h:448-459 | opening the next block gives up the oldest block, empties it and makes it the newest |
| RingStoreModel.TotalIsSum | src/fsfw/container/IndexedRingMemoryArray.h:571-587 | the totals are the sums of the sizes and of the stored packets |
| RingStoreRuns.RunHoldsLatest | src/fsfw/container/IndexedRingMemoryArray.h:398-459 | over any run of appends, clears of the write block and writeNext the blocks after the write block are ordered by age: they are the latest blocks of a journal that forgets none |
| RingStoreRuns.FirstNonEmptyIsOldest | src/fsfw/container/IndexedRingMemoryArray.h:358-372 | the first non-empty block after the write block is the oldest block with data that the store holds |
| RingStoreRuns.JournalHasAllAppends | src/fsfw/container/IndexedRingMemoryArray.h:398-408 | every appended byte and packet is in the journal or was cleared, counted in 32 bits |
| RingStoreRuns.Conservation | src/fsfw/container/IndexedRingMemoryArray.h:398-459 | over any run of all calls that change a block, from a fresh store, bytes (and packets) appended are those held plus those of overwritten blocks plus those cleared, in 32 bits |
| RingStoreRuns.NothingLostWithoutOverwrite | src/fsfw/container/IndexedRingMemoryArray.h:428-459 | without overwrite only blocks without bytes ever leave the store |
| RingStoreRuns.WithoutOverwriteAllBytesAreHeld | src/fsfw/container/IndexedRingMemoryArray.h:428-459 | without overwrite all bytes appended in a run are still held or were cleared |
| RingStoreLosses.NothingIsLostIff | src/fsfw/container/IndexedRingMemoryArray.h:428-459 | over any run from a fresh store, in either mode, no bytes (or packets) leave the store if and only if no accepted writeNext in the run opens a block that still reports some |
| RingStoreLosses.PairedRunKeepsAllPackets | src/fsfw/container/IndexedRingMemoryArray.h:398-459 | without overwrite all packets appended in a run are held or were cleared if packets are never appended without bytes and sizes do not wrap |
| RingStoreLosses.PacketWithoutBytesIsLost | src/fsfw/container/IndexedRingMemoryArray.h:428-459 | a run that fails: a packet appended without bytes is gone after writeNext |
| RingStoreGeometry.IndexFitsBeforeFirstBlock | src/fsfw/container/IndexedRingMemoryArray.h:130-160 | the serialized size of the index of the blocks actually made fits in the space reserved from the larger first estimate |
| RingStoreGeometry.LastBlockIsNeverTrimmed | src/fsfw/container/IndexedRingMemoryArray.h:187-195 | the last block has at least bytesPerBlock bytes, so the branch that removes it never runs |
| RingStoreGeometry.LaterBlocksStartBehind | src/fsfw/container/IndexedRingMemoryArray.h:173-180 | a later block starts at least bytesPerBlock after an earlier one |
| RingStoreGeometry.DataIsDisjointAndInside | src/fsfw/container/IndexedRingMemoryArray.h:173-196 | in a contained store the data of any two blocks is disjoint and lies between the index and the end of the store |
| RingStoreGeometry.SpaceCheckIsExactIff | src/fsfw/container/IndexedRingMemoryArray.h:415-422 | the modular difference is never more than the room left, and is that room if and only if the only block is not empty, or the block is the last or filled so far that the sum does not wrap in 32 bits |
| RingStoreGeometry.SpaceCheckWraps | src/fsfw/container/IndexedRingMemoryArray.h:415-422 | a laid-out store that fails: the check sees one byte less than the empty first block has |
| RingStoreGeometry.CheckedRunStaysContained | src/fsfw/container/IndexedRingMemoryArray.h:398-422 | over any run of checked appends, clears and writeNext no data reaches the next block's address or the end of the store |
| RingStoreGeometry.TotalFitsInStore | src/fsfw/container/IndexedRingMemoryArray.h:581-587 | a contained store reports no more bytes than it has room for, so their number does not wrap |
| RingStoreDump.TodoWithinBlock | src/fsfw/container/IndexedRingMemoryArray.h:288-304 | reading k bytes within a block takes exactly the next k addresses off what is to be read |
| RingStoreDump.TodoNextBlock | src/fsfw/container/IndexedRingMemoryArray.h:305-341 | going from a finished block over empty blocks to the next one skips nothing |
| RingStoreDump.TodoFromOldest | src/fsfw/container/IndexedRingMemoryArray.h:252-256 | from the first non-empty block on everything stored is to be read |
| RingStoreDump.DumpIsCompleteAndDistinct | src/fsfw/container/IndexedRingMemoryArray.h:252-350 | the addresses in age order are as many as the reported size, pairwise distinct, and inside the store |
| IndexedRingMemoryArrays.IndexedRingMemoryArray.constructor | src/fsfw/container/IndexedRingMemoryArray.h:120-196 | the first block starts behind the serialized size of an index for as many blocks as the whole region could hold, the others follow at equal distances, as many as fit; all are empty with the given type, nothing is to be read, and the index fits in front of them |
| RingStoreCodec.ReservedIsSerializedSize | src/fsfw/container/IndexedRingMemoryArray.h:130-156 | the room set aside is what serialize writes for a store with as many blocks as the whole region could hold |
| IndexedRingMemoryArrays.IndexedRingMemoryArray.Reset | src/fsfw/container/IndexedRingMemoryArray.h:202-214 | all blocks empty with the reset function applied, addresses kept, nothing to read |
| IndexedRingMemoryArrays.IndexedRingMemoryArray.GetNextWrite | src/fsfw/container/IndexedRingMemoryArray.h:608-616 | the cyclic successor of the write block |
| IndexedRingMemoryArrays.IndexedRingMemoryArray.GetPreviousBlock | src/fsfw/container/IndexedRingMemoryArray.h:623-632 | the block whose cyclic successor is the given one |
| IndexedRingMemoryArrays.IndexedRingMemoryArray.FindNonEmpty | src/fsfw/container/IndexedRingMemoryArray.h:359-371 | a cyclic search ends within one turn at the first non-empty block or at its stop block |
| IndexedRingMemoryArrays.IndexedRingMemoryArray.GetNextNonEmptyBlock | src/fsfw/container/IndexedRingMemoryArray.h:358-372 | the first non-empty block in age order, or the write block |
| IndexedRingMemoryArrays.IndexedRingMemoryArray.HasCurrentWriteBlockEnoughSpace | src/fsfw/container/IndexedRingMemoryArray.h:415-422 | in a laid-out, contained store an accepted amount ends before the next block, or before the end of the store, and the answer is exact whenever the difference is |
| IndexedRingMemoryArrays.IndexedRingMemoryArray.AddCurrentWriteBlock | src/fsfw/container/IndexedRingMemoryArray.h:398-401 | one append step of the run model |
| IndexedRingMemoryArrays.IndexedRingMemoryArray.UpdatePreviousWriteSize | src/fsfw/container/IndexedRingMemoryArray.h:404-408 | one append step of the run model for the block before the write block |
| IndexedRingMemoryArrays.IndexedRingMemoryArray.ClearCurrentWriteBlock | src/fsfw/container/IndexedRingMemoryArray.h:393-396 | one clear step of the run model |
| IndexedRingMemoryArrays.IndexedRingMemoryArray.WriteNext | src/fsfw/container/IndexedRingMemoryArray.h:428-459 | fails without a change if it would overwrite data and must not; otherwise gives up exactly the oldest block |
| IndexedRingMemoryArrays.IndexedRingMemoryArray.GetCurrentSize | src/fsfw/container/IndexedRingMemoryArray.h:581-587 | the total of the block sizes in 32 bits |
| IndexedRingMemoryArrays.IndexedRingMemoryArray.GetStoredPackets | src/fsfw/container/IndexedRingMemoryArray.h:571-577 | the total of the stored packets in 32 bits |
| IndexedRingMemoryArrays.IndexedRingMemoryArray.SetCurrentReadBlock | src/fsfw/container/IndexedRingMemoryArray.h:226-229 | the read offset is kept, so the cursor is consistent if and only if the offset is within the new block |
| IndexedRingMemoryArrays.IndexedRingMemoryArray.SetLastBlockToRead | src/fsfw/container/IndexedRingMemoryArray.h:243-246 | a dump may end with any block |
| IndexedRingMemoryArrays.IndexedRingMemoryArray.ReadOldest | src/fsfw/container/IndexedRingMemoryArray.h:231-256 | afterwards every stored byte is to be read, oldest block first, the write block last |
| IndexedRingMemoryArrays.IndexedRingMemoryArray.ReadNext | src/fsfw/container/IndexedRingMemoryArray.h:263-272 | the cursor is at the start of the cyclic successor |
| IndexedRingMemoryArrays.IndexedRingMemoryArray.GetCurrentReadAddress | src/fsfw/container/IndexedRingMemoryArray.h:278-280 | the next addresses to be read, up to the end of the block, start here |
| IndexedRingMemoryArrays.IndexedRingMemoryArray.GetRemainingSizeOfCurrentReadBlock | src/fsfw/container/IndexedRingMemoryArray.h:344-350 | what is left of the current block, never more than is to be read |
| IndexedRingMemoryArrays.IndexedRingMemoryArray.AddReadSize | src/fsfw/container/IndexedRingMemoryArray.h:287-343 | takes exactly what was read off the front of what is to be read, over empty blocks and the end of the ring; false if and only if nothing is left; a size that wraps the offset moves it back within the block |
| IndexedRingMemoryArrays.Dump | src/fsfw/container/IndexedRingMemoryArray.h:252-350 | whatever positive chunks a client reads, it visits the bytes of every block, oldest block first; in a laid-out, contained store no address twice and as many as getCurrentSize reports |
| RingStoreContents.DumpReturnsWhatWasWritten | src/fsfw/container/IndexedRingMemoryArray.h:252-459 | after any run of checked writes at the write address and writeNext, the memory a dump visits holds the data of the latest blocks in the order of writing: the end of all the data accepted, and without overwrite all of it |
| RingStoreContents.DataRunHolds | src/fsfw/container/IndexedRingMemoryArray.h:383-459 | over any such run every block has in memory exactly the data written to it since it was opened |
| RingStoreContents.AcceptChangesOneBlock | src/fsfw/container/IndexedRingMemoryArray.h:389-422 | a checked write extends the data of the write block and changes that of no other |
| RingStoreClients.StoreData | src/fsfw/container/IndexedRingMemoryArray.h:389-422 | the client's check, write and append on the class are one step of that run |
| RingStoreClients.DumpData | src/fsfw/container/IndexedRingMemoryArray.h:252-350 | a dump of the class and its memory returns the data of the latest blocks of any journal that the store holds |
| RingStoreCodec.PutIndexIff | src/fsfw/container/IndexedRingMemoryArray.h:51-69 | a record is written completely if and only if there is room for all of it; otherwise a part of it is |
| RingStoreCodec.PutRecordsIff | src/fsfw/container/IndexedRingMemoryArray.h:470-498 | the same for the write block, the number of records and all records together |
| RingStoreCodec.RecordFields | src/fsfw/container/IndexedRingMemoryArray.h:51-69 | which bytes of a record are the address, the type, the size and the packets |
| RingStoreCodec.RecordsAt | src/fsfw/container/IndexedRingMemoryArray.h:476-492 | which bytes are the record of the write block, the number of blocks, and the record of each block |
| RingStoreCodec.RecordsHaveIndexSize | src/fsfw/container/IndexedRingMemoryArray.h:504-515 | the serialized size the constructor sets room aside for is the number of bytes serialize writes |
| RingStoreCodec.TakeIndexEncoded | src/fsfw/container/IndexedRingMemoryArray.h:71-90 | reading a written record gives all its fields back |
| RingStoreCodec.SuccessMeansCompleteIff | src/fsfw/container/IndexedRingMemoryArray.h:470-498 | with room for the serialized size success is certain and complete; with less, success without the additional information happens if and only if that alone does not fit |
| RingStoreCodec.AdditionalInfoIsLost | src/fsfw/container/IndexedRingMemoryArray.h:470-498 | a room that fails: success with the records alone |
| RingStoreCodec.RestoreRecoversIndex | src/fsfw/container/IndexedRingMemoryArray.h:525-564 | reading back restores every record with its packets and the same write block into any store with as many blocks, block addresses being distinct |
| RingStoreCodec.FindBlockIff | src/fsfw/container/IndexedRingMemoryArray.h:100-103 | the first block with the same address, size and type is found, whatever its packets, and none if there is none |
| RingStoreCodec.RestoreOutcome | src/fsfw/container/IndexedRingMemoryArray.h:525-564 | for every stream: too short, another number of blocks, no such write block, or success with it, and what each leaves unchanged |
| IndexedRingMemoryArrays.PersistAndRestore | src/fsfw/container/IndexedRingMemoryArray.h:470-564 | serialize with room for exactly the serialized size uses all of it and fits in front of the first block; deSerialize into another store of the same shape gives equal records, write block and additional information |
| IndexedRingMemoryArrays.IndexedRingMemoryArray.GetSerializedSize | src/fsfw/container/IndexedRingMemoryArray.h:504-515 | the size of the index in 32 bits |
| IndexedRingMemoryArrays.IndexedRingMemoryArray.Serialize | src/fsfw/container/IndexedRingMemoryArray.h:470-498 | when it succeeds and the bytes it then leaves, checksum over all it wrote included; a failure is reported as too short a buffer and leaves a part of what a success leaves |
| IndexedRingMemoryArrays.IndexedRingMemoryArray.DeSerialize | src/fsfw/container/IndexedRingMemoryArray.h:525-564 | the whole new state for every stream, also the partly overwritten records of a stream that ends early |
| FixedMapModel.RunAgrees | src/fsfw/container/FixedMap.h:72-136 | over any run of insert, erase and clear keys stay distinct, and results and contents are those of an abstract map of bounded size |
| FixedMapModel.StepAgrees | src/fsfw/container/FixedMap.h:72-117 | each call succeeds exactly when the abstract map allows it, and a failed call changes nothing |
| FixedMapModel.FindTells | src/fsfw/container/FixedMap.h:90-136 | lookup finds a key if and only if the abstract map has it, with its value |
| FixedMapModel.EraseIsRemoval | src/fsfw/container/FixedMap.h:98-117 | moving the last entry into the hole removes exactly one key |
| FixedMapModel.SweepVisitsAllOnce | src/fsfw/container/FixedMap.h:98-107 | iterating while erasing through the iterator visits every original entry exactly once, whichever keys are erased |
| FixedMapModel.SweepLeavesTheKept | src/fsfw/container/FixedMap.h:98-107 | it leaves exactly the entries whose keys were not to be erased, with distinct keys |
| FixedMaps.FixedMap.FindIndex | src/fsfw/container/FixedMap.h:32-43 | the slot of the key, or a number that is no live slot |
| FixedMaps.FixedMap.Exists | src/fsfw/container/FixedMap.h:90-96 | tells whether the abstract map has the key |
| FixedMaps.FixedMap.Insert | src/fsfw/container/FixedMap.h:72-86 | an existing key and then a full map are refused; otherwise the entry goes behind the others and the iterator returned is its own; one insert step of the slot model and of the abstract map |
| FixedMaps.FixedMap.EraseIterator | src/fsfw/container/FixedMap.h:98-107 | erases the entry under a live iterator and steps the iterator back; at a stale slot it goes by the key found there |
| FixedMaps.FixedMap.EraseKey | src/fsfw/container/FixedMap.h:109-117 | removes the key from the abstract map, or tells that it is not there; one erase step of the slot model |
| FixedMaps.FixedMap.FindIterator | src/fsfw/container/FixedMap.h:121-127 | the entry's iterator, or the end if the abstract map does not have the key |
| FixedMaps.FixedMap.FindValue | src/fsfw/container/FixedMap.h:129-136 | the value the abstract map has for the key |
| FixedMaps.EraseWhileIterating | unittests/container/TestFixedMap.cpp:62-64 | the loop over the real iterator is the sweep |
| FixedMapCodec.PutEntriesComplete | src/fsfw/container/FixedMap.h:158-171 | with room for all entries all are written in slot order |
| FixedMapCodec.PutEntriesSucceedsIff | src/fsfw/container/FixedMap.h:158-171 | exactly which rooms make the loop report success |
| FixedMapCodec.SuccessMeansCompleteIff | src/fsfw/container/FixedMap.h:163-169 | success means complete for every room and size if and only if values are at least as wide as keys |
| FixedMapCodec.EncodedSize | src/fsfw/container/FixedMap.h:173-183 | the encoding of the entries has the serialized size |
| FixedMapCodec.EncodedEntryAt | src/fsfw/container/FixedMap.h:163-169 | which bytes are the key and the value of each entry |
| FixedMapCodec.TakeEntriesEncoded | src/fsfw/container/FixedMap.h:185-199 | reading back gives the same entries in the same slots and leaves the slots behind them alone |
| FixedMapCodec.TakeEntriesComplete | src/fsfw/container/FixedMap.h:185-199 | a stream with all the bytes is read entry by entry into the slots |
| FixedMapCodec.TakeEntriesSucceedsIff | src/fsfw/container/FixedMap.h:193-197 | exactly which stream lengths make the reading loop report success |
| FixedMapCodec.ShortSuccessKeepsLastKey | src/fsfw/container/FixedMap.h:193-197 | success on a shorter stream leaves the last slot the key it had |
| FixedMapCodec.UnreadKeyGoesUnnoticed | src/fsfw/container/FixedMap.h:193-197 | an input that fails: a value's width of bytes and a wider key |
| FixedMapCodec.ReadingSuccessMeansCompleteIff | src/fsfw/container/FixedMap.h:185-199 | success means that every entry is what the stream has in its place, for all streams, slots and counts, if and only if values are at least as wide as keys |
| FixedMapCodec.KeyAfterTaking | src/fsfw/container/FixedMap.h:193-197 | the key in a slot is the one at its place in the stream, or the old one if the stream ends before, whatever failed on the way |
| FixedMapCodec.LeavesAMapIff | src/fsfw/container/FixedMap.h:185-199 | for every stream and any old slots, a map is left if and only if the number of entries is within the capacity and those keys are distinct |
| FixedMapCodec.ShortStreamRevivesStaleSlots | src/fsfw/container/FixedMap.h:185-199 | an input that fails: a stream that ends early with the same key in two old slots |
| FixedMapCodec.DuplicateKeyGoesUnnoticed | src/fsfw/container/FixedMap.h:185-199 | an input that fails: the same key twice |
| FixedMaps.FixedMap.GetSerializedSize | src/fsfw/container/FixedMap.h:173-183 | four bytes and the widths of all entries, in 32 bits |
| FixedMaps.FixedMap.Serialize | src/fsfw/container/FixedMap.h:158-171 | the result and the stream for every room |
| FixedMaps.FixedMap.DeSerialize | src/fsfw/container/FixedMap.h:185-199 | the result, the slots and the number of entries for every stream, the number being taken over even if it is too large; and, from the stream and the old slots, exactly when the slots are a map afterwards |
| FixedMaps.RoundTrip | src/fsfw/container/FixedMap.h:158-199 | serialize with the serialized size as room, then deserialize into a map with enough slots, for either byte order: same entries in the same order if that size has not wrapped in 32 bits |
| ActionMessages.StepReplyUnpacks | src/fsfw/action/ActionMessage.cpp:26-43 | step and return code share a parameter, the step in the upper half, and are both recovered; the command is success if and only if the code is zero |
| ActionMessages.CompletionReplyUnpacks | src/fsfw/action/ActionMessage.cpp:52-61 | action and return code are recovered |
| ActionWorld.RepliesReachTheOwner | src/fsfw/action/CommandActionHelper.cpp:70-99 | the commanding owner is told the action, step, code and data that the executing side put into its reply |
| ActionWorld.ReportsInOrder | src/fsfw/action/ActionHelper.cpp:135-165 | reports go out in the order in which the owner makes them, with the sender hidden or not |
| ActionWorld.RepliesOfExecution | src/fsfw/action/ActionHelper.cpp:60-84 | which replies the commander gets for each code the owner returns |
| ActionWorld.RepliesOfSimpleExecution | src/fsfw/action/SimpleActionHelper.cpp:33-67 | the same with one action at a time, and the two replies of a busy helper |
| ActionWorld.ReplyWithoutData | src/fsfw/action/ActionHelper.cpp:64-70 | a command whose slot is gone gets one failed step and changes nothing else |
| ActionWorld.RepliesOfProgress | src/fsfw/action/SimpleActionHelper.cpp:8-20 | to whom steps and the finish are reported, with which contents, and what the helper then remembers |
| ActionRuns.OwnedMeansBijection | src/fsfw/action/ActionMessage.cpp:63-76 | what owning means: no message refers to a dead slot, no two to the same, and every live slot is referred to |
| ActionRuns.RunKeepsAccount | src/fsfw/action/ActionHelper.cpp:60-165 | over any run of any calls with any outcomes every live slot is carried by exactly one pending message or was leaked by commandAction |
| ActionRuns.OwnedAfterRunIff | src/fsfw/action/CommandActionHelper.cpp:9-55 | after a run live slots and slot-carrying messages are in bijection if and only if no command failed to serialize into its slot |
| ActionRuns.FailedCommandLeaks | src/fsfw/action/CommandActionHelper.cpp:9-28 | a run that fails: one command whose data does not serialize |
| ActionRuns.ExecutionKeepsAccount | src/fsfw/action/ActionHelper.cpp:60-84 | executing frees exactly the command's slot, whatever the owner reports and returns and whichever replies are sent |
| ActionRuns.SimpleExecutionKeepsAccount | src/fsfw/action/SimpleActionHelper.cpp:33-67 | the same with one action at a time, busy or not |
| ActionDelivery.RunDelivers | src/fsfw/action/ActionHelper.cpp:60-165 | over any run of any calls with any outcomes the slot of every pending message holds the bytes its sender handed over, and every owner has been given just those |
| ActionDelivery.ReceiverIsGivenWhatWasSent | src/fsfw/action/CommandActionHelper.cpp:103-112 | the receiver of a command or a data reply is always given its data |
| ActionDelivery.LeakedSlotsAreNeverFreed | src/fsfw/action/CommandActionHelper.cpp:9-28 | over any run a leaked slot stays taken, with the data it was filled with |
| ActionFates.EveryMessageHasOneFate | src/fsfw/action/ActionHelper.cpp:11-165 | over any run the messages that were pending or are handed over are, as a multiset, those still pending, executed, refused as busy, given to an owner, told to the commanding owner, or cleared |
| ActionFates.LogsHoldEachOnce | src/fsfw/action/SimpleActionHelper.cpp:33-67 | over any run owners are asked to execute, and are given data, exactly once per message with that fate |
| ActionRuns.CommandIsExecutedIffIdle | src/fsfw/action/SimpleActionHelper.cpp:33-67 | when no slot is unaccounted for, a command is executed, with the data of its slot, if and only if the helper is idle; either way its slot is dead afterwards |
| ActionRuns.BusyHelperFreesCommands | src/fsfw/action/SimpleActionHelper.cpp:33-48 | every command that reaches the helper in a run that does not end the action is not executed and has its slot freed |
| ActionRuns.BusyHelperExecutesNothing | src/fsfw/action/SimpleActionHelper.cpp:8-67 | over any run without a finish or a failed step the executing action, its commander and its step count stay, and nothing else is executed |
| ActionRuns.AcceptedActionBlocksOthers | src/fsfw/action/SimpleActionHelper.cpp:8-67 | after a command whose owner returned OK no other is executed until a finish or a failed step, and the helper remembers its sender, its action and one step more |
| ActionRuns.ReleasedHelperExecutes | src/fsfw/action/SimpleActionHelper.cpp:8-67 | after any other code of the owner, a failed step or a finish the next command is executed |
| ActionRuns.OnlyLastTargetReplies | src/fsfw/action/CommandActionHelper.cpp:70-73 | over any run a message that is not from the target of the last command passed on is no reply: handling it changes nothing |
| ActionHelpers.Ipc.ClearMessage | src/fsfw/action/ActionMessage.cpp:63-76 | frees the slot of the two kinds of message that carry one |
| ActionHelpers.CommandActionHelper.CommandAction | src/fsfw/action/CommandActionHelper.cpp:30-42 | all or nothing: the data is in a slot and the message is pending, or store and queue are as before |
| ActionHelpers.CommandActionHelper.CommandActionSerialized | src/fsfw/action/CommandActionHelper.cpp:9-28 | the same if the data serializes; if it does not the slot stays taken |
| ActionHelpers.CommandActionHelper.SendCommand | src/fsfw/action/CommandActionHelper.cpp:44-55 | the slot goes with the message or is given back; target and count change in either case |
| ActionHelpers.CommandActionHelper.HandleReply | src/fsfw/action/CommandActionHelper.cpp:70-99 | exactly the five kinds of reply from the last target are taken; which function of the owner is called with what and which replies lower the count; a refused message leaves everything as it was and calls nobody |
| ActionHelpers.CommandActionHelper.ExtractDataForOwner | src/fsfw/action/CommandActionHelper.cpp:103-112 | the owner gets the slot's data and the slot is free |
| ActionHelpers.ActionHelper.HandleActionMessage | src/fsfw/action/ActionHelper.cpp:11-19 | commands are executed with the slot's data and their slot is free afterwards; other messages are refused without a change |
| ActionHelpers.ActionHelper.PrepareExecution | src/fsfw/action/ActionHelper.cpp:60-84 | store, messages and what the owner is given for every outcome; the slot is always free afterwards |
| ActionHelpers.ActionHelper.ReportData | src/fsfw/action/ActionHelper.cpp:135-165 | all or nothing, with the sender hidden or not |
| ActionHelpers.ActionHelper.ReportSerialized | src/fsfw/action/ActionHelper.cpp:86-131 | all or nothing, also if the data does not serialize; nothing to report is no error |
| ActionHelpers.ActionHelper.Step | src/fsfw/action/ActionHelper.cpp:44-49 | the reply carries the step raised by one in eight bits |
| ActionHelpers.SimpleActionHelper.PrepareExecution | src/fsfw/action/SimpleActionHelper.cpp:33-67 | store, messages, progress and the data the owner is asked to execute with; it is asked if and only if the helper is idle and the slot is live, although there is no return after the busy reply; the helper is busy afterwards if and only if the owner returned OK |
| ActionHelpers.SimpleActionHelper.Step | src/fsfw/action/SimpleActionHelper.cpp:8-15 | reports the step count to the remembered commander and forgets the action if the step failed |
| ActionHelpers.SimpleActionHelper.Finish | src/fsfw/action/SimpleActionHelper.cpp:17-20 | forgets the action; the message is built from arguments shifted by one place |
| BinaryTrees.GraftReplacesOccupant | src/fsfw/container/BinaryTree.h:69-82 | inserting adds exactly the inserted nodes and drops exactly what was in the slot |
| BinaryTrees.PruneRemovesSubtree | src/fsfw/container/BinaryTree.h:84-97 | erasing removes exactly the node's subtree |
| BinaryTrees.PruneUndoesGraft | src/fsfw/container/BinaryTree.h:69-97 | erasing what was inserted into a free slot gives the tree back |
| BinaryTrees.ParentIsInTree | src/fsfw/container/BinaryTree.h:84-95 | a node below the root has its parent in the tree, which points to it on exactly one side |
| BinaryTrees.GraftIsLinked | src/fsfw/container/BinaryTree.h:69-82 | setting one child pointer and one parent pointer keeps parent and child links consistent |
| BinaryTrees.PruneIsLinked | src/fsfw/container/BinaryTree.h:84-97 | clearing the parent's pointer keeps them consistent |
| BinaryTrees.SlotIsFreeIffNull | src/fsfw/container/BinaryTree.h:71-76 | a child slot is free if and only if the pointer is null |
| BinaryTrees.BinaryTree.Insert | src/fsfw/container/BinaryTree.h:69-82 | a consistent tree with the new shape, for a node with anything below it, into any slot or as root |
| BinaryTrees.BinaryTree.Erase | src/fsfw/container/BinaryTree.h:84-97 | a consistent tree without exactly the node's subtree, which itself stays intact |
| BinaryTrees.CountLeft | src/fsfw/container/BinaryTree.h:98-109 | the loop ends with the length of the path down the left child pointers, the start included |
| BinaryTrees.CountRight | src/fsfw/container/BinaryTree.h:110-121 | the same for the right child pointers |
| VarLenFields.ValueSurvives | src/fsfw/cfdp/VarLenFields.cpp:69-119 | a serialized field is read back as an equal field, for either byte order and whatever was in the union before |
| VarLenFields.OrderIsStrictAndTotal | src/fsfw/cfdp/VarLenFields.cpp:121-137 | the order by width and then value is strict and total with respect to equality |
| VarLenFields.OrderIsThatOfValues | src/fsfw/cfdp/VarLenFields.cpp:121-137 | narrower fields come first, and fields of one width compare like the values they were set to |
| VarLenFields.VarLenField.SetValue | src/fsfw/cfdp/VarLenFields.cpp:23-52 | fails exactly for values that do not fit; the value reads back if and only if the width is supported or the value is zero |
| VarLenFields.EightBytesReadAsZero | src/fsfw/cfdp/VarLenFields.cpp:23-67 | an input that fails: any value set with eight bytes is accepted and reads as zero |
| VarLenFields.VarLenField.GetValue | src/fsfw/cfdp/VarLenFields.cpp:54-67 | the value, which fits the width |
| VarLenFields.VarLenField.Serialize | src/fsfw/cfdp/VarLenFields.cpp:69-91 | the encoding of the value if there is room; other widths fail |
| VarLenFields.VarLenField.DeSerialize | src/fsfw/cfdp/VarLenFields.cpp:95-119 | the recovered value, the cursor and the size counter for every stream, a one-byte field not being consumed |
| Serialization.DecodeEncode | src/fsfw/serialize/SerializeAdapter.h:177-233 | either byte order recovers every value that fits the width |
| Serialization.ByteOrder | src/fsfw/serialize/SerializeAdapter.h:177-233 | big-endian has the most significant byte first, little-endian the least |
| Serialization.Uint32CodecIsLawful | src/fsfw/serialize/SerializeAdapter.h:177-233 | so 32-bit fields survive |

## Left out

- IndexedRingMemoryArrays.IndexedRingMemoryArray.constructor: the index and one block fit in the store and the store ends within 32-bit addresses; a store too small for its index only prints an error in the code and then computes with wrapped sizes.
- IndexedRingMemoryArrays.IndexedRingMemoryArray.AddReadSize: no write comes between the start of a dump and its end.
- IndexedRingMemoryArrays.IndexedRingMemoryArray.Serialize: the index type has a lawful encoding of fixed width, and the additional information is a fixed-length string of bytes that is written whole or not at all; the checksum is an arbitrary function of the bytes.
- FixedMaps.FixedMap.EraseIterator: an iterator is a slot of the map, not a pointer to a pair elsewhere.
- FixedMaps.RoundTrip: key and value types have lawful encodings of fixed width.
- RingStoreContents.DumpReturnsWhatWasWritten: runs contain checked writes to the write block and writeNext, no clears; adding bytes to the previous block writes no data that the space check covers.
- ActionHelpers.Ipc: the pools of the store, its return codes other than "does not exist", and the queues are not part of this model; a free slot and the fate of a message are arguments of each call, and one code stands for every failure.
- BinaryTrees.BinaryTree.Insert: the inserted node is not already in the tree. The constructor with a root node and the iterator wrappers are left out.
- ActionRuns.RunKeepsAccount: a run has one commander and one helper that executes one action at a time; helpers of the other kind keep no state, so there may be any number of them.
- How many replies a commander gets per command: finishing yields a completion and a failed step, and a busy helper replies twice.
- Concurrent writers during a dump, mutexes, logging and object manager lookups.
- `findValue` of a key that is not there, which reads behind the live entries.
- `FIFO`, `DynamicFIFO`, `FixedOrderedMultimap`, `SharedRingBuffer`, `LocalPool`, file sizes and protocol data units of CFDP, coordinate transforms and controllers.
- `Version` ordering and `ArrayList` on its own.
