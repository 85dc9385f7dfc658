/** How clients use an indexed ring store together with the memory it describes. */
module RingStoreClients {
  import opened Serialization
  import opened RingStoreModel
  import opened RingStoreRuns
  import opened RingStoreGeometry
  import opened RingStoreDump
  import opened RingStoreContents
  import opened IndexedRingMemoryArrays

  /** Checks the space, writes the data at the write address and appends it to the write block. */
  method StoreData<T(==)>(store: IndexedRingMemoryArray<T>, memory: array<byte>, data: seq<byte>, packets: uint32)
    returns (accepted: bool)
    requires store.Valid() && |data| < TWO_TO_THE_32
    requires Placed(store.layout, Contents(store.View(), memory[..]))
    modifies store.entries, memory
    ensures store.Valid() && accepted == old(HasSpace(store.layout.total, store.View(), data))
    ensures old(SeesRoom(store.layout, store.View())) ==>
              accepted == old(store.entries[store.currentWriteBlock].End() + |data| < store.RoomEnd(store.currentWriteBlock))
    ensures Contents(store.View(), memory[..])
         == if accepted then Accept(old(Contents(store.View(), memory[..])), data, packets)
            else old(Contents(store.View(), memory[..]))
    ensures Placed(store.layout, Contents(store.View(), memory[..]))
  {
    ghost var before := Contents(store.View(), memory[..]);
    accepted := store.HasCurrentWriteBlockEnoughSpace(|data|);
    if accepted {
      AcceptIsPlaced(store.layout, before, data, packets);
      var address := store.GetCurrentWriteAddress();
      forall i | 0 <= i < |data| {
        memory[address + i] := data[i];
      }
      assert memory[..] == Stored(before.memory, address, data);
      assert store.View() == before.store;
      store.AddCurrentWriteBlock(|data|, packets);
    }
  }

  /** Dumps the store and reads the memory wherever the dump goes: for whatever journal the store holds the
      latest data of, that data in the order of writing. */
  method DumpData<T(==)>(store: IndexedRingMemoryArray<T>, memory: array<byte>, ghost journal: seq<seq<byte>>)
    returns (data: seq<byte>)
    requires store.Valid()
    modifies store
    ensures store.Valid() && store.View() == old(store.View()) && memory[..] == old(memory[..])
    ensures data == Dumped(Contents(store.View(), memory[..]))
    ensures HoldsData(store.layout, Contents(store.View(), memory[..]), journal) ==>
              data == Flatten(journal[|journal| - store.size..])
  {
    ghost var c := Contents(store.View(), memory[..]);
    if HoldsData(store.layout, c, journal) {
      DumpIsLatest(store.layout, c, journal);
    }
    var visited := Dump(store);
    data := ReadAt(memory[..], visited);
  }
}
