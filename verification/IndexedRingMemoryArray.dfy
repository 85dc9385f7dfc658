/** The indexed ring store with its cursors (src/fsfw/container/IndexedRingMemoryArray.h).

    Iterators are indices into `entries`; the index `size` is the end iterator. */
module IndexedRingMemoryArrays {
  import opened Serialization
  import opened RingStoreModel
  import opened RingStoreRuns
  import opened RingStoreGeometry
  import opened RingStoreDump
  import Codecs = RingStoreCodec

  function Min(a: nat, b: nat): nat {
    if a <= b then a else b
  }

  class IndexedRingMemoryArray<T(==)> {
    const indexAddress: nat
    const totalSize: nat
    const overwriteOld: bool
    const size: nat
    const entries: array<Index<T>>
    const layout: Layout

    var currentWriteBlock: nat
    var currentReadBlock: nat
    var currentReadSize: nat
    var currentReadBlockSizeCached: nat
    var lastBlockToRead: nat
    var lastBlockToReadSize: nat

    /** The additional information as serialized; empty if there is none. */
    var additionalInfo: seq<byte>
    const newType: T

    ghost predicate Valid()
      reads this
    {
      && 0 < size == entries.Length
      && currentWriteBlock < size && currentReadBlock < size && lastBlockToRead < size
      && layout.total == totalSize > 0
    }

    /** The index of blocks whose type takes `typeWidth` bytes fits in front of the first block. */
    predicate IndexFits(typeWidth: nat)
      reads this
    {
      indexAddress + IndexSize(|additionalInfo|, typeWidth, size) <= layout.start
    }

    ghost function View(): Store<T>
      reads this, entries
    {
      Store(entries[..], currentWriteBlock)
    }

    /** The index takes the front of the region; the blocks share the rest. */
    constructor (startAddress: uint32, size: uint32, bytesPerBlock: uint32, additionalInfo: seq<byte>, typeWidth: nat,
                 newType: T, overwriteOld: bool)
      requires bytesPerBlock > 0
      requires ReservedSize(|additionalInfo|, typeWidth, size, bytesPerBlock) + bytesPerBlock <= size
      requires startAddress + size <= TWO_TO_THE_32
      ensures Valid() && fresh(entries) && indexAddress == startAddress && this.overwriteOld == overwriteOld
      ensures LaidOut(layout, entries[..]) && Contained(layout, entries[..]) && Fresh(View())
      ensures layout.start + layout.total == startAddress + size && layout.bytesPerBlock == bytesPerBlock
      ensures this.size == layout.total / bytesPerBlock
      ensures layout.start == startAddress + (|additionalInfo| + (4 + typeWidth + 4 + 4) + 4
                                              + (4 + typeWidth + 4 + 4) * (size / bytesPerBlock) + 2)
      ensures forall i :: 0 <= i < this.size ==> entries[i].blockStartAddress == layout.start + i * bytesPerBlock
      ensures currentWriteBlock == 0 && this.additionalInfo == additionalInfo && IndexFits(typeWidth)
      ensures forall i :: 0 <= i < this.size ==> entries[i].indexType == newType
      ensures ReadConsistent() && ToRead() == []
    {
      var maxNrOfIndices := size / bytesPerBlock;
      var serializedSize := |additionalInfo| + RecordSize(typeWidth) + 4 + RecordSize(typeWidth) * maxNrOfIndices + 2;
      var useableSize := size - serializedSize;
      var trueStartAddress := startAddress + serializedSize;
      var trueNumberOfBlocks := useableSize / bytesPerBlock;
      LastBlockIsNeverTrimmed(useableSize, bytesPerBlock);
      IndexFitsBeforeFirstBlock(|additionalInfo|, typeWidth, size, bytesPerBlock);

      totalSize := useableSize;
      indexAddress := startAddress;
      this.overwriteOld := overwriteOld;
      this.additionalInfo, this.newType := additionalInfo, newType;
      entries := new Index<T>[trueNumberOfBlocks](_ => Index(0, 0, 0, newType));
      layout := Layout(trueStartAddress, useableSize, bytesPerBlock);
      var backAddress := trueStartAddress + (trueNumberOfBlocks - 1) * bytesPerBlock;
      var lastBlockSize := trueStartAddress + useableSize - backAddress;
      this.size := TrimmedCount(trueNumberOfBlocks, lastBlockSize, bytesPerBlock);
      currentWriteBlock, currentReadBlock, lastBlockToRead := 0, 0, 0;
      currentReadSize, currentReadBlockSizeCached, lastBlockToReadSize := 0, 0, 0;
      new;
      FillAddresses();
      AgeOrderAt(entries[..], 0, 0);
      TodoEmptyIff(AgeOrder(entries[..], 0), this.size - 1, 0);
    }

    /** The loop of the constructor that gives each block its address. */
    method FillAddresses()
      requires 0 < layout.bytesPerBlock && 0 < entries.Length == layout.total / layout.bytesPerBlock
      requires layout.total < TWO_TO_THE_32 && layout.start + layout.total <= TWO_TO_THE_32
      modifies entries
      ensures LaidOut(layout, entries[..]) && Contained(layout, entries[..])
      ensures forall i :: 0 <= i < entries.Length ==> entries[i].blockStartAddress == AddressOf(layout, i)
      ensures forall i :: 0 <= i < entries.Length ==> EntryOf(entries[i]) == Entry(0, 0)
      ensures forall i :: 0 <= i < entries.Length ==> entries[i].indexType == old(entries[i]).indexType
    {
      var address := layout.start;
      var i := 0;
      while i < entries.Length
        invariant i <= entries.Length
        invariant address == AddressOf(layout, i)
        invariant forall j :: 0 <= j < i ==> entries[j].blockStartAddress == AddressOf(layout, j)
        invariant forall j :: 0 <= j < i ==> EntryOf(entries[j]) == Entry(0, 0)
        invariant forall j :: 0 <= j < entries.Length ==> entries[j].indexType == old(entries[j]).indexType
      {
        AddressesInside(layout, i);
        entries[i] := entries[i].(blockStartAddress := address);
        entries[i] := entries[i].(size := 0);
        entries[i] := entries[i].(storedPackets := 0);
        address := address + layout.bytesPerBlock;
        i := i + 1;
      }
      AddressesLayOut(layout, entries[..]);
    }

    // ---------- writing ----------

    /** Where the room of a block ends: at the next block, or at the end of the store. */
    ghost function RoomEnd(i: nat): nat
      requires Valid() && i < size
      reads this, entries
    {
      if i + 1 < size then entries[i + 1].blockStartAddress else layout.start + totalSize
    }

    method GetNextWrite() returns (next: nat)
      requires Valid()
      ensures next == Next(currentWriteBlock, size)
      ensures next == if currentWriteBlock + 1 < size then currentWriteBlock + 1 else 0
    {
      if size != 0 && currentWriteBlock == size - 1 {
        next := 0;
      } else {
        next := currentWriteBlock + 1;
      }
    }

    method GetPreviousBlock(it: nat) returns (previous: nat)
      requires Valid() && it < size
      ensures previous < size && Next(previous, size) == it
      ensures it == if previous + 1 < size then previous + 1 else 0
    {
      if it == 0 {
        previous := size - 1;
      } else {
        previous := it - 1;
      }
    }

    /** The loop of both searches: from `start` on around the ring, the first block that is not empty,
        or `stop` if there is none before it. */
    method FindNonEmpty(start: nat, stop: nat) returns (it: nat)
      requires Valid() && start < size && stop < size
      ensures it < size
      ensures AgePosition(start, stop, size) <= AgePosition(it, stop, size)
      ensures forall j :: AgePosition(start, stop, size) <= j < AgePosition(it, stop, size) ==>
                AgeOrder(entries[..], stop)[j].size == 0
      ensures it != stop ==> entries[it].size != 0
    {
      ghost var a := AgeOrder(entries[..], stop);
      it := start;
      while it != stop
        invariant it <= size
        invariant AgePosition(start, stop, size) <= SearchPosition(it, stop, size)
        invariant forall j :: AgePosition(start, stop, size) <= j < SearchPosition(it, stop, size) ==> a[j].size == 0
        decreases size - SearchPosition(it, stop, size)
      {
        if it == size {
          it := 0;
          if it == stop {
            break;
          }
        }
        AgeOrderAt(entries[..], stop, it);
        if entries[it].size != 0 {
          return;
        }
        it := it + 1;
      }
    }

    method GetNextNonEmptyBlock() returns (it: nat)
      requires Valid()
      ensures it < size
      ensures AgePosition(it, currentWriteBlock, size) == FirstNonEmpty(Aged(View()))
    {
      var next := GetNextWrite();
      it := FindNonEmpty(next, currentWriteBlock);
      AgeOrderAt(entries[..], currentWriteBlock, it);
      FirstNonEmptyIs(Aged(View()), AgePosition(it, currentWriteBlock, size));
    }

    method GetCurrentWriteAddress() returns (address: nat)
      requires Valid()
      ensures address == entries[currentWriteBlock].End()
    {
      address := entries[currentWriteBlock].blockStartAddress + entries[currentWriteBlock].size;
    }

    method HasCurrentWriteBlockEnoughSpace(sizeToWrite: uint32) returns (enough: bool)
      requires Valid()
      ensures enough == (sizeToWrite < AvailableSize(totalSize, View()))
      ensures LaidOut(layout, entries[..]) && Contained(layout, entries[..]) && enough ==>
                entries[currentWriteBlock].End() + sizeToWrite < RoomEnd(currentWriteBlock)
      ensures LaidOut(layout, entries[..]) && Contained(layout, entries[..]) && SeesRoom(layout, View()) ==>
                enough == (entries[currentWriteBlock].End() + sizeToWrite < RoomEnd(currentWriteBlock))
    {
      var next := GetNextWrite();
      var addressOfNextBlock := entries[next].blockStartAddress;
      var w := entries[currentWriteBlock];
      var availableSize :=
        (((addressOfNextBlock + totalSize) - (w.blockStartAddress + w.size)) % TWO_TO_THE_32) % totalSize;
      enough := sizeToWrite < availableSize;
      if LaidOut(layout, entries[..]) && Contained(layout, entries[..]) {
        SpaceCheckIsExactIff(layout, View());
        if currentWriteBlock + 1 < size { assert Adjoin(layout, entries[..], currentWriteBlock); }
      }
    }

    /** Block i reports that much more, in 32 bits, and nothing else has changed since `was`. */
    ghost predicate GrownOnly(i: nat, was: seq<Index<T>>, bytes: uint32, storedPackets: uint32)
      requires i < entries.Length == |was|
      reads this, entries
    {
      && entries[i].size == (was[i].size + bytes) % TWO_TO_THE_32
      && entries[i].storedPackets == (was[i].storedPackets + storedPackets) % TWO_TO_THE_32
      && entries[i].blockStartAddress == was[i].blockStartAddress && entries[i].indexType == was[i].indexType
      && forall j :: 0 <= j < |was| && j != i ==> entries[j] == was[j]
    }

    method AddCurrentWriteBlock(bytes: uint32, storedPackets: uint32)
      requires Valid()
      modifies entries
      ensures Valid() && View() == Step(old(View()), overwriteOld, AppendCurrent(bytes, storedPackets))
      ensures GrownOnly(currentWriteBlock, old(entries[..]), bytes, storedPackets)
    {
      entries[currentWriteBlock] := entries[currentWriteBlock].Grown(bytes, storedPackets);
    }

    method UpdatePreviousWriteSize(bytes: uint32, storedPackets: uint32)
      requires Valid()
      modifies entries
      ensures Valid() && View() == Step(old(View()), overwriteOld, Op.AppendPrevious(bytes, storedPackets))
      ensures GrownOnly(if currentWriteBlock > 0 then currentWriteBlock - 1 else size - 1, old(entries[..]), bytes,
                        storedPackets)
    {
      var it := GetPreviousBlock(currentWriteBlock);
      entries[it] := entries[it].Grown(bytes, storedPackets);
    }

    method ClearCurrentWriteBlock()
      requires Valid()
      modifies entries
      ensures Valid() && View() == Step(old(View()), overwriteOld, Op.ClearCurrent)
      ensures entries[..] == old(entries[..])[currentWriteBlock :=
                               old(entries[currentWriteBlock]).(size := 0, storedPackets := 0)]
    {
      entries[currentWriteBlock] := entries[currentWriteBlock].(size := 0);
      entries[currentWriteBlock] := entries[currentWriteBlock].(storedPackets := 0);
    }

    method IsNextBlockWritable() returns (writable: bool)
      requires Valid()
      ensures writable == NextWritable(View(), overwriteOld)
      ensures writable <==> overwriteOld || entries[if currentWriteBlock + 1 < size then currentWriteBlock + 1 else 0].size == 0
    {
      var next := GetNextWrite();
      if entries[next].size != 0 && !overwriteOld {
        return false;
      }
      return true;
    }

    /** Opens the next block, or fails if that would overwrite data and overwriting is off.  The block
        given up is the oldest one, and nothing else changes. */
    method WriteNext() returns (result: ReturnValue)
      requires Valid()
      modifies this`currentWriteBlock, entries
      ensures Valid() && View() == Step(old(View()), overwriteOld, Op.WriteNext)
      ensures var next := if old(currentWriteBlock) + 1 < size then old(currentWriteBlock) + 1 else 0;
              && (result == OK <==> overwriteOld || old(entries[next].size) == 0)
              && (result == OK ==>
                    && currentWriteBlock == next
                    && entries[..] == old(entries[..])[next := old(entries[next]).(size := 0, storedPackets := 0)])
      ensures result == OK || result == FAILED
      ensures result == OK ==> Aged(View()) == Aged(old(View()))[1..] + [Aged(old(View()))[0].Emptied()]
      ensures result == FAILED ==> View() == old(View())
    {
      var writable := IsNextBlockWritable();
      if !writable {
        return FAILED;
      }
      OpenNextRotates(View());
      currentWriteBlock := GetNextWrite();
      entries[currentWriteBlock] := entries[currentWriteBlock].(size := 0);
      entries[currentWriteBlock] := entries[currentWriteBlock].(storedPackets := 0);
      return OK;
    }

    /** Empties every block and rewinds every cursor; `resetType` is the caller's reset function. */
    method Reset(resetType: T -> T)
      requires Valid()
      modifies this, entries
      ensures Valid() && Fresh(View()) && currentWriteBlock == 0 && currentReadBlock == 0
      ensures forall i :: 0 <= i < size ==>
                entries[i].blockStartAddress == old(entries[i]).blockStartAddress
                && entries[i].indexType == resetType(old(entries[i]).indexType)
      ensures ReadConsistent() && ToRead() == []
    {
      currentReadBlock, currentWriteBlock, lastBlockToRead := 0, 0, 0;
      currentReadSize, currentReadBlockSizeCached, lastBlockToReadSize := 0, 0, 0;
      var it := 0;
      while it < size
        modifies entries
        invariant it <= size
        invariant forall i :: 0 <= i < it ==>
          entries[i] == Index(old(entries[i]).blockStartAddress, 0, 0, resetType(old(entries[i]).indexType))
        invariant forall i :: it <= i < size ==> entries[i] == old(entries[i])
      {
        entries[it] := entries[it].(size := 0, storedPackets := 0);
        entries[it] := entries[it].(indexType := resetType(entries[it].indexType));
        it := it + 1;
      }
      AgeOrderAt(entries[..], 0, 0);
      TodoEmptyIff(AgeOrder(entries[..], 0), size - 1, 0);
    }

    // ---------- the persisted index ----------

    method GetSerializedSize(c: Codecs.Codec<T>) returns (serializedSize: uint32)
      requires Valid()
      ensures serializedSize == IndexSize(|additionalInfo|, c.info.width, size) % TWO_TO_THE_32
    {
      var sum: nat := |additionalInfo|;
      sum := sum + RecordSize(c.info.width);
      sum := sum + 4;
      sum := sum + RecordSize(c.info.width) * size;
      sum := sum + 2;
      serializedSize := sum % TWO_TO_THE_32;
    }

    /** Appends the index to the stream, with `crc` of what it wrote.  What happens with the additional
        information is ignored.  A failure leaves a part of what a success leaves. */
    method Serialize(c: Codecs.Codec<T>, crc: seq<byte> -> nat, stream: seq<byte>, maxSize: nat)
      returns (result: ReturnValue, out: seq<byte>)
      requires Valid() && size < TWO_TO_THE_32
      ensures result == OK <==> Codecs.Succeeds(c, additionalInfo, View(), stream, maxSize)
      ensures result == OK ==>
                var written := Codecs.Written(c, additionalInfo, View(), stream, maxSize);
                |stream| <= |written| && out == written + Encode(crc(written[|stream|..]), 2, c.endianness)
      ensures result != OK ==>
                && result == BUFFER_TOO_SHORT
                && out == Codecs.PutRecords(c, View(), Put(stream, additionalInfo, maxSize).1, maxSize).1
                && stream <= out <= Codecs.Written(c, additionalInfo, View(), stream, maxSize)
    {
      out := Put(stream, additionalInfo, maxSize).1;
      Codecs.PutRecordsIff(c, View(), out, maxSize);
      result, out := SerializeRecords(c, out, maxSize);
      if result != OK {
        return;
      }
      var step := Put(out, Encode(crc(out[|stream|..]), 2, c.endianness), maxSize);
      result, out := step.0, step.1;
    }

    /** The part of serialize between the additional information and the checksum. */
    method SerializeRecords(c: Codecs.Codec<T>, stream: seq<byte>, maxSize: nat)
      returns (result: ReturnValue, out: seq<byte>)
      requires Valid() && size < TWO_TO_THE_32
      ensures (result, out) == Codecs.PutRecords(c, View(), stream, maxSize)
    {
      var step := Codecs.PutIndex(c, entries[currentWriteBlock], stream, maxSize);
      result, out := step.0, step.1;
      if result != OK {
        return;
      }
      step := Put(out, Codecs.Word(size, c.endianness), maxSize);
      result, out := step.0, step.1;
      if result != OK {
        return;
      }
      result, out := SerializeEntries(c, out, maxSize);
    }

    /** The loop of serialize over the records. */
    method SerializeEntries(c: Codecs.Codec<T>, stream: seq<byte>, maxSize: nat)
      returns (result: ReturnValue, out: seq<byte>)
      requires Valid()
      ensures (result, out) == Codecs.PutAll(c, entries[..], stream, maxSize)
    {
      ghost var blocks := entries[..];
      result, out := OK, stream;
      var i := 0;
      assert blocks[0..] == blocks;
      while result == OK && i < size
        invariant i <= size
        invariant result == OK ==> Codecs.PutAll(c, blocks[i..], out, maxSize) == Codecs.PutAll(c, blocks, stream, maxSize)
        invariant result != OK ==> (result, out) == Codecs.PutAll(c, blocks, stream, maxSize)
      {
        assert blocks[i..][1..] == blocks[i + 1..];
        var step := Codecs.PutIndex(c, entries[i], out, maxSize);
        result, out := step.0, step.1;
        i := i + 1;
      }
    }

    /** Restores the records and the write block; the checksum is not looked at. */
    method DeSerialize(c: Codecs.Codec<T>, stream: seq<byte>) returns (result: ReturnValue)
      requires Valid()
      modifies this`currentWriteBlock, this`additionalInfo, entries
      ensures Valid()
      ensures Codecs.Restored(result, additionalInfo, View())
           == Codecs.Restore(c, old(additionalInfo), old(View()), Index(0, 0, 0, newType), stream)
    {
      var s := stream;
      match Take(s, |additionalInfo|) {
        case None => return STREAM_TOO_SHORT;
        case Some((a, rest)) => additionalInfo, s := a, rest;
      }
      var record := Codecs.TakeIndex(c, Index(0, 0, 0, newType), s);
      result, s := record.0, record.2;
      var cursor := record.1;
      if result != OK {
        return;
      }
      match Codecs.TakeWord(s, c.endianness) {
        case None => return STREAM_TOO_SHORT;
        case Some((tempSize, rest)) =>
          if size != tempSize {
            return FAILED;
          }
          s := rest;
      }
      result := DeSerializeEntries(c, s);
      if result != OK {
        return;
      }
      result := FindWriteBlock(cursor);
    }

    /** The loop of deSerialize over the records. */
    method DeSerializeEntries(c: Codecs.Codec<T>, stream: seq<byte>) returns (result: ReturnValue)
      requires Valid()
      modifies entries
      ensures result == Codecs.TakeAll(c, old(entries[..]), 0, stream).0
      ensures entries[..] == Codecs.TakeAll(c, old(entries[..]), 0, stream).1
    {
      ghost var blocks := entries[..];
      var s := stream;
      var i := 0;
      result := OK;
      while result == OK && i < size
        invariant i <= size
        invariant result == OK ==> Codecs.TakeAll(c, entries[..], i, s) == Codecs.TakeAll(c, blocks, 0, stream)
        invariant result != OK ==> (result, entries[..], s) == Codecs.TakeAll(c, blocks, 0, stream)
      {
        var record := Codecs.TakeIndex(c, entries[i], s);
        ghost var before := entries[..];
        entries[i] := record.1;
        assert entries[..] == before[i := record.1];
        result, s := record.0, record.2;
        i := i + 1;
      }
    }

    /** The loop of deSerialize that looks for the block equal to the persisted write block. */
    method FindWriteBlock(cursor: Index<T>) returns (result: ReturnValue)
      requires Valid()
      modifies this`currentWriteBlock
      ensures Valid()
      ensures match Codecs.FindBlock(entries[..], cursor, 0)
              case None => result == FAILED && currentWriteBlock == old(currentWriteBlock)
              case Some(w) => result == OK && currentWriteBlock == w
    {
      var it := 0;
      while it < size
        invariant it <= size && currentWriteBlock == old(currentWriteBlock)
        invariant Codecs.FindBlock(entries[..], cursor, it) == Codecs.FindBlock(entries[..], cursor, 0)
      {
        if Codecs.SameBlock(cursor, entries[it]) {
          currentWriteBlock := it;
          return OK;
        }
        it := it + 1;
      }
      return FAILED;
    }

    // ---------- statistics ----------

    method GetCurrentSize() returns (sum: uint32)
      requires Valid()
      ensures sum == Total(Entries(entries[..]), Field.Bytes) % TWO_TO_THE_32
    {
      sum := SumOf(Field.Bytes);
    }

    method GetStoredPackets() returns (sum: uint32)
      requires Valid()
      ensures sum == Total(Entries(entries[..]), Field.Packets) % TWO_TO_THE_32
    {
      sum := SumOf(Field.Packets);
    }

    /** The loop both statistics share. */
    method SumOf(f: Field) returns (sum: uint32)
      requires Valid()
      ensures sum == Total(Entries(entries[..]), f) % TWO_TO_THE_32
    {
      ghost var e := Entries(entries[..]);
      assert Equal32(0, Total(e[..0], f));
      sum := 0;
      var it := 0;
      while it < size
        invariant it <= size
        invariant Equal32(sum, Total(e[..it], f))
      {
        var amount := Amount(EntryOf(entries[it]), f);
        assert amount == Amount(e[it], f);
        TotalNext(e, it, f);
        Equal32Sum(sum, Total(e[..it], f), amount);
        sum := Add32(sum, amount);
        it := it + 1;
      }
      assert e[..size] == e;
      Reduced32(sum, Total(e, f));
    }

    // ---------- reading ----------

    /** No write has changed the sizes the read cursor remembers. */
    ghost predicate ReadConsistent()
      reads this, entries
    {
      && Valid()
      && currentReadBlockSizeCached == entries[currentReadBlock].size
      && lastBlockToReadSize == entries[lastBlockToRead].size
      && currentReadSize <= entries[currentReadBlock].size
    }

    ghost function ReadOrder(): (a: seq<Index<T>>)
      requires Valid()
      reads this, entries
      ensures |a| == size
    {
      AgeOrder(entries[..], lastBlockToRead)
    }

    ghost function ReadPosition(): nat
      requires Valid()
      reads this
    {
      AgePosition(currentReadBlock, lastBlockToRead, size)
    }

    /** The addresses still to be read, in order. */
    ghost function ToRead(): seq<nat>
      requires ReadConsistent()
      reads this, entries
    {
      AgeOrderAt(entries[..], lastBlockToRead, currentReadBlock);
      Todo(ReadOrder(), ReadPosition(), currentReadSize)
    }

    /** Where the read offset is kept: the cursor is consistent unless the offset is past the new block. */
    method SetCurrentReadBlock(it: nat)
      requires Valid() && it < size
      modifies this`currentReadBlock, this`currentReadBlockSizeCached
      ensures Valid() && currentReadBlock == it
      ensures old(ReadConsistent()) ==> (ReadConsistent() <==> currentReadSize <= entries[it].size)
    {
      currentReadBlock := it;
      currentReadBlockSizeCached := entries[it].size;
    }

    /** A dump can be made to end with any block. */
    method SetLastBlockToRead(it: nat)
      requires Valid() && it < size
      modifies this`lastBlockToRead, this`lastBlockToReadSize
      ensures Valid() && lastBlockToRead == it
      ensures old(ReadConsistent()) ==> ReadConsistent()
    {
      lastBlockToRead := it;
      lastBlockToReadSize := entries[it].size;
    }

    method ResetRead()
      requires Valid()
      modifies this
      ensures ReadConsistent() && View() == old(View())
      ensures currentReadBlock == 0 && currentReadSize == 0 && lastBlockToRead == currentWriteBlock
    {
      currentReadBlock := 0;
      currentReadSize := 0;
      currentReadBlockSizeCached := entries[0].size;
      lastBlockToRead := currentWriteBlock;
      lastBlockToReadSize := entries[currentWriteBlock].size;
    }

    /** Starts a dump at the oldest non-empty block: every stored byte is to be read, oldest first. */
    method ReadOldest()
      requires Valid()
      modifies this
      ensures ReadConsistent() && View() == old(View()) && lastBlockToRead == currentWriteBlock
      ensures ToRead() == ByteAddresses(Aged(View()))
      ensures ToRead() != [] ==> currentReadSize < entries[currentReadBlock].size
    {
      ResetRead();
      currentReadBlock := GetNextNonEmptyBlock();
      currentReadBlockSizeCached := entries[currentReadBlock].size;
      AgeOrderAt(entries[..], currentWriteBlock, currentReadBlock);
      TodoFromOldest(Aged(View()));
    }

    method ReadNext()
      requires Valid()
      modifies this`currentReadSize, this`currentReadBlock, this`currentReadBlockSizeCached
      ensures Valid() && currentReadSize == 0
      ensures currentReadBlock == if old(currentReadBlock) + 1 < size then old(currentReadBlock) + 1 else 0
      ensures currentReadBlockSizeCached == entries[currentReadBlock].size
    {
      currentReadSize := 0;
      if size != 0 && currentReadBlock == size - 1 {
        currentReadBlock := 0;
      } else {
        currentReadBlock := currentReadBlock + 1;
      }
      currentReadBlockSizeCached := entries[currentReadBlock].size;
    }

    method GetCurrentReadAddress() returns (address: nat)
      requires ReadConsistent()
      ensures forall k: nat :: k <= entries[currentReadBlock].size - currentReadSize ==>
                k <= |ToRead()| && ToRead()[..k] == Span(address, k)
    {
      address := entries[currentReadBlock].blockStartAddress + currentReadSize;
      AgeOrderAt(entries[..], lastBlockToRead, currentReadBlock);
      forall k: nat | k <= entries[currentReadBlock].size - currentReadSize
        ensures k <= |ToRead()| && ToRead()[..k] == Span(address, k)
      {
        TodoWithinBlock(ReadOrder(), ReadPosition(), currentReadSize, k);
      }
    }

    method GetRemainingSizeOfCurrentReadBlock() returns (remaining: nat)
      requires ReadConsistent()
      ensures remaining == entries[currentReadBlock].size - currentReadSize <= |ToRead()|
    {
      if currentReadBlock == lastBlockToRead {
        remaining := lastBlockToReadSize - currentReadSize;
      } else {
        remaining := currentReadBlockSizeCached - currentReadSize;
      }
      AgeOrderAt(entries[..], lastBlockToRead, currentReadBlock);
      TodoWithinBlock(ReadOrder(), ReadPosition(), currentReadSize, remaining);
    }

    /** Moves on by what was read, at most the rest of the current block.  The result tells whether
        anything is left, and if so the cursor is at a byte that is left.  An amount that wraps the offset
        in 32 bits moves the cursor back within its block. */
    method AddReadSize(readSize: uint32) returns (more: bool)
      requires ReadConsistent()
      modifies this`currentReadSize, this`currentReadBlock, this`currentReadBlockSizeCached
      ensures ReadConsistent()
      ensures Min(readSize, old(entries[currentReadBlock].size - currentReadSize)) <= |old(ToRead())|
      ensures old(currentReadSize) + readSize < TWO_TO_THE_32 ==>
                ToRead() == old(ToRead())[Min(readSize, old(entries[currentReadBlock].size - currentReadSize))..]
      ensures old(currentReadSize) + readSize >= TWO_TO_THE_32 ==>
                && currentReadBlock == old(currentReadBlock)
                && currentReadSize == old(currentReadSize) + readSize - TWO_TO_THE_32 < old(currentReadSize)
      ensures more <==> ToRead() != []
      ensures more ==> currentReadSize < entries[currentReadBlock].size
    {
      var newSize := Add32(currentReadSize, readSize);
      Add32Wraps(currentReadSize, readSize);
      ghost var rest := entries[currentReadBlock].size - currentReadSize;
      AgeOrderAt(entries[..], lastBlockToRead, currentReadBlock);
      TodoWithinBlock(ReadOrder(), ReadPosition(), currentReadSize, Min(readSize, rest));
      if newSize < entries[currentReadBlock].size {
        TodoEmptyIff(ReadOrder(), ReadPosition(), newSize);
      }
      if currentReadBlock == lastBlockToRead {
        if newSize < lastBlockToReadSize {
          currentReadSize := newSize;
          return true;
        } else {
          currentReadSize := lastBlockToReadSize;
          return false;
        }
      } else {
        if newSize < currentReadBlockSizeCached {
          currentReadSize := newSize;
          return true;
        } else {
          more := FinishReadBlock();
        }
      }
    }

    /** The part of addReadSize for a block that is read completely and is not the last: on to the next
        block that is not empty, up to the last block to read. */
    method FinishReadBlock() returns (more: bool)
      requires ReadConsistent() && currentReadBlock != lastBlockToRead
      modifies this`currentReadSize, this`currentReadBlock, this`currentReadBlockSizeCached
      ensures ReadConsistent()
      ensures old(entries[currentReadBlock].size - currentReadSize) <= |old(ToRead())|
      ensures ToRead() == old(ToRead())[old(entries[currentReadBlock].size - currentReadSize)..]
      ensures more <==> ToRead() != []
      ensures more ==> currentReadSize < entries[currentReadBlock].size
    {
      ghost var a := ReadOrder();
      ghost var position := ReadPosition();
      AgeOrderAt(entries[..], lastBlockToRead, currentReadBlock);
      TodoNextBlock(a, position, currentReadSize, position + 1);
      ReadNext();
      assert ReadOrder() == a && ReadPosition() == position + 1;
      if currentReadBlockSizeCached == 0 {
        more := SkipEmptyReadBlocks();
      } else {
        TodoEmptyIff(a, position + 1, 0);
        more := true;
      }
    }

    /** The part of addReadSize that goes on from an empty block. */
    method SkipEmptyReadBlocks() returns (more: bool)
      requires ReadConsistent() && currentReadSize == 0 && entries[currentReadBlock].size == 0
      modifies this`currentReadBlock, this`currentReadBlockSizeCached
      ensures ReadConsistent() && ToRead() == old(ToRead())
      ensures more <==> ToRead() != []
      ensures more ==> currentReadSize < entries[currentReadBlock].size
    {
      var it := FindNonEmpty(currentReadBlock, lastBlockToRead);
      AgeOrderAt(entries[..], lastBlockToRead, currentReadBlock);
      AgeOrderAt(entries[..], lastBlockToRead, it);
      TodoSkip(ReadOrder(), ReadPosition(), AgePosition(it, lastBlockToRead, size));
      if it != lastBlockToRead {
        currentReadBlock := it;
        currentReadBlockSizeCached := entries[it].size;
        return true;
      }
      if lastBlockToReadSize != 0 {
        currentReadBlock := lastBlockToRead;
        currentReadBlockSizeCached := lastBlockToReadSize;
        return true;
      }
      return false;
    }
  }

  lemma Add32Wraps(a: uint32, b: uint32)
    ensures Add32(a, b) == if a + b < TWO_TO_THE_32 then a + b else a + b - TWO_TO_THE_32
  {
  }

  /** The age position of a search iterator, for which the end stands for the beginning. */
  function SearchPosition(it: nat, w: nat, n: nat): (p: nat)
    requires it <= n && w < n
    ensures p < n
  {
    AgePosition(if it == n then 0 else it, w, n)
  }

  /** The index of one store, serialized with room for exactly its serialized size, fits in front of the
      store's blocks; read into another store of the same shape it gives all of it back. */
  method PersistAndRestore<T(==,!new)>(c: Codecs.Codec<T>, crc: seq<byte> -> nat, store: IndexedRingMemoryArray<T>,
                                       target: IndexedRingMemoryArray<T>)
    returns (written: ReturnValue, restored: ReturnValue, out: seq<byte>)
    requires Lawful(c.info) && store.Valid() && target.Valid()
    requires store != target && store.entries != target.entries
    requires LaidOut(store.layout, store.entries[..]) && store.IndexFits(c.info.width)
    requires target.size == store.size && |target.additionalInfo| == |store.additionalInfo|
    modifies target`currentWriteBlock, target`additionalInfo, target.entries
    ensures written == restored == OK && target.Valid()
    ensures target.View() == store.View() && target.additionalInfo == store.additionalInfo
    ensures |out| == IndexSize(|store.additionalInfo|, c.info.width, store.size)
    ensures store.indexAddress + |out| <= store.layout.start
  {
    ghost var s, additional := store.View(), store.additionalInfo;
    ghost var was, oldAdditional := target.View(), target.additionalInfo;
    var room := store.GetSerializedSize(c);
    assert room == IndexSize(|additional|, c.info.width, |s.blocks|);
    Codecs.SerializedSizeSuffices(c, additional, s);
    assert Codecs.Succeeds(c, additional, s, [], room);
    written, out := store.Serialize(c, crc, [], room);
    ghost var index := Codecs.Written(c, additional, s, [], room);
    assert out == index + out[|index|..];
    Codecs.SerializedIndexSurvives(c, store.layout, additional, s, out[|index|..], oldAdditional, was,
                                   Index(0, 0, 0, target.newType));
    restored := target.DeSerialize(c, out);
    ghost var outcome := Codecs.Restored(restored, target.additionalInfo, target.View());
    assert outcome == Codecs.Restored(OK, additional, s);
    assert outcome.result == OK && outcome.store == s;
  }

  lemma VisitedGrows(visited: seq<nat>, todo: seq<nat>, k: nat)
    requires k <= |todo|
    ensures (visited + todo[..k]) + todo[k..] == visited + todo
  {
  }

  /** One round of a client's dump: reads a chunk of any positive size that the store allows. */
  method ReadChunk<T(==)>(store: IndexedRingMemoryArray<T>, remaining: nat) returns (chunk: seq<nat>, more: bool)
    requires store.ReadConsistent()
    requires 0 < remaining == store.entries[store.currentReadBlock].size - store.currentReadSize
    modifies store`currentReadSize, store`currentReadBlock, store`currentReadBlockSizeCached
    ensures store.ReadConsistent() && 0 < |chunk| <= |old(store.ToRead())|
    ensures chunk == old(store.ToRead())[..|chunk|] && store.ToRead() == old(store.ToRead())[|chunk|..]
    ensures more <==> store.ToRead() != []
    ensures more ==> store.currentReadSize < store.entries[store.currentReadBlock].size
  {
    var length: uint32 :| 0 < length <= remaining;
    var address := store.GetCurrentReadAddress();
    chunk := Span(address, length);
    assert length <= |store.ToRead()| && store.ToRead()[..length] == Span(address, length);
    more := store.AddReadSize(length);
  }

  /** Reads chunks until the store says there is no more. */
  method ReadToEnd<T(==)>(store: IndexedRingMemoryArray<T>) returns (visited: seq<nat>)
    requires store.ReadConsistent()
    requires store.ToRead() != [] ==> store.currentReadSize < store.entries[store.currentReadBlock].size
    modifies store`currentReadSize, store`currentReadBlock, store`currentReadBlockSizeCached
    ensures store.ReadConsistent() && store.ToRead() == []
    ensures visited == old(store.ToRead())
  {
    visited := [];
    var remaining := store.GetRemainingSizeOfCurrentReadBlock();
    var more := remaining > 0;
    while more
      invariant store.ReadConsistent()
      invariant visited + store.ToRead() == old(store.ToRead())
      invariant more <==> store.ToRead() != []
      invariant more ==> store.currentReadSize < store.entries[store.currentReadBlock].size
      decreases |store.ToRead()|
    {
      ghost var todo := store.ToRead();
      remaining := store.GetRemainingSizeOfCurrentReadBlock();
      var chunk;
      chunk, more := ReadChunk(store, remaining);
      VisitedGrows(visited, todo, |chunk|);
      visited := visited + chunk;
    }
  }

  /** A client's dump: whatever chunks it reads in, it visits the stored bytes oldest block first.  In a
      laid-out and contained store it visits none twice, none outside the store, and exactly as many as
      getCurrentSize reports. */
  method Dump<T(==)>(store: IndexedRingMemoryArray<T>) returns (visited: seq<nat>)
    requires store.Valid()
    modifies store
    ensures store.Valid() && store.View() == old(store.View())
    ensures visited == ByteAddresses(Aged(store.View()))
    ensures LaidOut(store.layout, store.entries[..]) && Contained(store.layout, store.entries[..]) ==>
              && Distinct(visited)
              && |visited| == Total(Entries(store.entries[..]), Bytes) < TWO_TO_THE_32
              && forall x :: x in visited ==> store.layout.start <= x < store.layout.start + store.layout.total
  {
    ghost var s := store.View();
    if LaidOut(store.layout, s.blocks) && Contained(store.layout, s.blocks) {
      DumpIsCompleteAndDistinct(store.layout, s);
      TotalFitsInStore(store.layout, s.blocks);
    }
    store.ReadOldest();
    visited := ReadToEnd(store);
  }
}
