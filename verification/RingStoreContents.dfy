/** The memory behind an indexed ring store: clients put data at the write address and dump all of it.

    The reference is a journal of the data of every block ever opened, in the order of opening. */
module RingStoreContents {
  import opened Serialization
  import opened RingStoreModel
  import opened RingStoreRuns
  import opened RingStoreGeometry
  import opened RingStoreDump

  /** A store, and the memory its addresses refer to. */
  datatype Contents<T> = Contents(store: Store<T>, memory: seq<byte>)

  datatype DataOp =
    /** A client checks the space, writes the data at the write address and appends it to the block. */
    | PutData(data: seq<byte>, packets: uint32)
    | OpenBlock

  function ByteAt(memory: seq<byte>, address: nat): byte {
    if address < |memory| then memory[address] else 0
  }

  function ReadAt(memory: seq<byte>, addresses: seq<nat>): (d: seq<byte>)
    ensures |d| == |addresses|
  {
    seq(|addresses|, i requires 0 <= i < |addresses| => ByteAt(memory, addresses[i]))
  }

  /** The data of a block. */
  function BlockData<T>(memory: seq<byte>, x: Index<T>): (d: seq<byte>)
    ensures |d| == x.size
  {
    ReadAt(memory, Span(x.blockStartAddress, x.size))
  }

  function Stored(memory: seq<byte>, at: nat, data: seq<byte>): (m: seq<byte>)
    ensures |m| == |memory|
  {
    seq(|memory|, i requires 0 <= i < |memory| => if at <= i < at + |data| then data[i - at] else memory[i])
  }

  predicate HasSpace<T>(total: nat, s: Store<T>, data: seq<byte>)
    requires InStore(s) && total > 0
  {
    |data| < TWO_TO_THE_32 && |data| < AvailableSize(total, s)
  }

  /** A store with its memory, the journal of the data, and all data that was accepted. */
  datatype Recorded<T> = Recorded(contents: Contents<T>, journal: seq<seq<byte>>, accepted: seq<byte>)

  function Accept<T>(c: Contents<T>, data: seq<byte>, packets: uint32): (c': Contents<T>)
    requires InStore(c.store) && |data| < TWO_TO_THE_32
    ensures InStore(c'.store) && |c'.store.blocks| == |c.store.blocks|
  {
    var s := c.store;
    Contents(Append(s, s.w, |data|, packets), Stored(c.memory, s.blocks[s.w].End(), data))
  }

  predicate Ready<T>(g: Layout, r: Recorded<T>) {
    InStore(r.contents.store) && g.total > 0 && |r.contents.store.blocks| <= |r.journal|
  }

  function DataStep<T>(g: Layout, r: Recorded<T>, overwriteOld: bool, op: DataOp): (r': Recorded<T>)
    requires Ready(g, r)
    ensures Ready(g, r')
  {
    var c, last := r.contents, |r.journal| - 1;
    match op
    case PutData(data, packets) =>
      if HasSpace(g.total, c.store, data)
      then Recorded(Accept(c, data, packets), r.journal[last := r.journal[last] + data], r.accepted + data) else r
    case OpenBlock =>
      if r.journal[|r.journal| - |c.store.blocks|] == [] || overwriteOld
      then Recorded(c.(store := Step(c.store, overwriteOld, WriteNext)), r.journal + [[]], r.accepted)
      else r.(contents := c.(store := Step(c.store, overwriteOld, WriteNext)))
  }

  function DataRun<T>(g: Layout, r: Recorded<T>, overwriteOld: bool, ops: seq<DataOp>): (r': Recorded<T>)
    requires Ready(g, r)
    ensures Ready(g, r')
    decreases |ops|
  {
    if ops == [] then r else DataRun(g, DataStep(g, r, overwriteOld, ops[0]), overwriteOld, ops[1..])
  }

  ghost predicate Placed<T>(g: Layout, c: Contents<T>) {
    && InStore(c.store) && LaidOut(g, c.store.blocks) && Contained(g, c.store.blocks)
    && g.start + g.total <= |c.memory|
  }

  ghost predicate HoldsData<T>(g: Layout, c: Contents<T>, journal: seq<seq<byte>>) {
    && Placed(g, c) && |c.store.blocks| <= |journal|
    && forall k :: 0 <= k < |c.store.blocks| ==>
         BlockData(c.memory, Aged(c.store)[k]) == journal[|journal| - |c.store.blocks| + k]
  }

  // ---------- one step ----------

  lemma StoredElsewhere<T>(memory: seq<byte>, at: nat, data: seq<byte>, x: Index<T>)
    requires x.End() <= at || at + |data| <= x.blockStartAddress
    ensures BlockData(Stored(memory, at, data), x) == BlockData(memory, x)
  {
  }

  lemma StoredBehind<T>(memory: seq<byte>, x: Index<T>, data: seq<byte>, packets: uint32)
    requires x.size + |data| < TWO_TO_THE_32 && x.End() + |data| <= |memory|
    ensures BlockData(Stored(memory, x.End(), data), x.Grown(|data|, packets)) == BlockData(memory, x) + data
  {
    assert x.Grown(|data|, packets).size == x.size + |data|;
  }

  lemma RoomIsInside<T>(g: Layout, blocks: seq<Index<T>>, i: nat)
    requires LaidOut(g, blocks) && i < |blocks|
    ensures blocks[i].blockStartAddress + Room(g, blocks, i) <= g.start + g.total
  {
    if i + 1 < |blocks| { LaterBlocksStartBehind(g, blocks, i, |blocks| - 1); }
  }

  lemma AcceptIsPlaced<T>(g: Layout, c: Contents<T>, data: seq<byte>, packets: uint32)
    requires Placed(g, c) && g.total > 0 && HasSpace(g.total, c.store, data)
    ensures Placed(g, Accept(c, data, packets))
    ensures var x := c.store.blocks[c.store.w];
            x.size + |data| < TWO_TO_THE_32 && x.End() + |data| <= |c.memory|
  {
    CheckedStepStaysContained(g, c.store, true, AppendCurrent(|data|, packets));
    CheckedAppendFits(g, c.store, |data|);
    RoomIsInside(g, c.store.blocks, c.store.w);
  }

  /** The data goes behind that of the write block, where no other block has any. */
  lemma AcceptChangesOneBlock<T>(g: Layout, c: Contents<T>, data: seq<byte>, packets: uint32, i: nat)
    requires Placed(g, c) && g.total > 0 && HasSpace(g.total, c.store, data) && i < |c.store.blocks|
    ensures var c' := Accept(c, data, packets);
            BlockData(c'.memory, c'.store.blocks[i])
            == if i == c.store.w then BlockData(c.memory, c.store.blocks[i]) + data
               else BlockData(c.memory, c.store.blocks[i])
  {
    var c' := Accept(c, data, packets);
    var w := c.store.w;
    AcceptIsPlaced(g, c, data, packets);
    if i == w {
      StoredBehind(c.memory, c.store.blocks[w], data, packets);
    } else {
      DataIsDisjointAndInside(g, c'.store.blocks, i, w);
      DataIsDisjointAndInside(g, c'.store.blocks, w, i);
      StoredElsewhere(c.memory, c.store.blocks[w].End(), data, c.store.blocks[i]);
    }
  }

  lemma AcceptHoldsData<T>(g: Layout, c: Contents<T>, journal: seq<seq<byte>>, data: seq<byte>, packets: uint32)
    requires HoldsData(g, c, journal) && g.total > 0 && HasSpace(g.total, c.store, data)
    ensures var last := |journal| - 1;
            HoldsData(g, Accept(c, data, packets), journal[last := journal[last] + data])
  {
    var c' := Accept(c, data, packets);
    var n, last := |c.store.blocks|, |journal| - 1;
    AcceptIsPlaced(g, c, data, packets);
    forall k | 0 <= k < n
      ensures BlockData(c'.memory, Aged(c'.store)[k]) == journal[last := journal[last] + data][|journal| - n + k]
    {
      assert BlockData(c.memory, Aged(c.store)[k]) == journal[|journal| - n + k];
      AcceptChangesOneBlock(g, c, data, packets, RingPosition(k, c.store.w, n));
    }
  }

  lemma OpenIsPlaced<T>(g: Layout, c: Contents<T>, overwriteOld: bool)
    requires Placed(g, c) && g.total > 0
    ensures Placed(g, c.(store := Step(c.store, overwriteOld, WriteNext)))
  {
    CheckedStepStaysContained(g, c.store, overwriteOld, WriteNext);
  }

  lemma OpenHoldsData<T>(g: Layout, c: Contents<T>, journal: seq<seq<byte>>)
    requires HoldsData(g, c, journal) && g.total > 0
    ensures HoldsData(g, c.(store := OpenNext(c.store)), journal + [[]])
  {
    var c' := c.(store := OpenNext(c.store));
    var n := |c.store.blocks|;
    OpenIsPlaced(g, c, true);
    OpenNextRotates(c.store);
    forall k | 0 <= k < n
      ensures BlockData(c'.memory, Aged(c'.store)[k]) == (journal + [[]])[|journal| + 1 - n + k]
    {
      if k < n - 1 {
        assert BlockData(c.memory, Aged(c.store)[k + 1]) == journal[|journal| - n + (k + 1)];
      }
    }
  }

  lemma DataStepHolds<T>(g: Layout, r: Recorded<T>, overwriteOld: bool, op: DataOp)
    requires Ready(g, r) && HoldsData(g, r.contents, r.journal)
    ensures var r' := DataStep(g, r, overwriteOld, op);
            HoldsData(g, r'.contents, r'.journal)
  {
    var s := r.contents.store;
    match op
    case PutData(data, packets) =>
      if HasSpace(g.total, s, data) { AcceptHoldsData(g, r.contents, r.journal, data, packets); }
    case OpenBlock =>
      AgeOrderAt(s.blocks, s.w, Next(s.w, |s.blocks|));
      assert BlockData(r.contents.memory, Aged(s)[0]) == r.journal[|r.journal| - |s.blocks| + 0];
      OpenHoldsData(g, r.contents, r.journal);
  }

  /** Over any run of checked writes and block changes, every block of the store has in memory what the
      journal has for it. */
  lemma {:induction false} DataRunHolds<T>(g: Layout, r: Recorded<T>, overwriteOld: bool, ops: seq<DataOp>)
    requires Ready(g, r) && HoldsData(g, r.contents, r.journal)
    ensures var r' := DataRun(g, r, overwriteOld, ops);
            HoldsData(g, r'.contents, r'.journal)
    decreases |ops|
  {
    if ops != [] {
      DataStepHolds(g, r, overwriteOld, ops[0]);
      DataRunHolds(g, DataStep(g, r, overwriteOld, ops[0]), overwriteOld, ops[1..]);
    }
  }

  // ---------- what was accepted ----------

  function Flatten(parts: seq<seq<byte>>): seq<byte> {
    if parts == [] then [] else parts[0] + Flatten(parts[1..])
  }

  lemma {:induction false} FlattenConcat(a: seq<seq<byte>>, b: seq<seq<byte>>)
    ensures Flatten(a + b) == Flatten(a) + Flatten(b)
  {
    if a == [] {
      assert a + b == b;
    } else {
      assert (a + b)[1..] == a[1..] + b;
      FlattenConcat(a[1..], b);
      ConcatAssociates(a[0], Flatten(a[1..]), Flatten(b));
    }
  }

  lemma ConcatAssociates(x: seq<byte>, y: seq<byte>, z: seq<byte>)
    ensures (x + y) + z == x + (y + z)
  {
  }

  lemma FlattenOne(part: seq<byte>)
    ensures Flatten([part]) == part
  {
    assert Flatten([part][1..]) == [];
  }

  lemma FlattenExtends(parts: seq<seq<byte>>, data: seq<byte>)
    requires parts != []
    ensures var last := |parts| - 1;
            Flatten(parts[last := parts[last] + data]) == Flatten(parts) + data
  {
    var last := |parts| - 1;
    var front, back := parts[..last], parts[last];
    assert parts == front + [back] && parts[last := back + data] == front + [back + data];
    FlattenConcat(front, [back]);
    FlattenConcat(front, [back + data]);
    FlattenOne(back);
    FlattenOne(back + data);
    ConcatAssociates(Flatten(front), back, data);
  }

  /** The journal has all that was accepted, in order. */
  lemma {:induction false} JournalHasAllAccepted<T>(g: Layout, r: Recorded<T>, overwriteOld: bool, ops: seq<DataOp>)
    requires Ready(g, r) && Flatten(r.journal) == r.accepted
    ensures Flatten(DataRun(g, r, overwriteOld, ops).journal) == DataRun(g, r, overwriteOld, ops).accepted
    decreases |ops|
  {
    if ops != [] {
      match ops[0] {
        case PutData(data, packets) => FlattenExtends(r.journal, data);
        case OpenBlock =>
          FlattenConcat(r.journal, [[]]);
          FlattenOne([]);
      }
      JournalHasAllAccepted(g, DataStep(g, r, overwriteOld, ops[0]), overwriteOld, ops[1..]);
    }
  }

  ghost predicate LostNothing<T>(r: Recorded<T>) {
    |r.contents.store.blocks| <= |r.journal|
    && forall k :: 0 <= k < |r.journal| - |r.contents.store.blocks| ==> r.journal[k] == []
  }

  lemma {:induction false} RunWithoutOverwriteLosesNothing<T>(g: Layout, r: Recorded<T>, ops: seq<DataOp>)
    requires Ready(g, r) && LostNothing(r)
    ensures LostNothing(DataRun(g, r, false, ops))
    decreases |ops|
  {
    if ops != [] {
      RunWithoutOverwriteLosesNothing(g, DataStep(g, r, false, ops[0]), ops[1..]);
    }
  }

  lemma {:induction false} FlattenNothing(parts: seq<seq<byte>>)
    requires forall k :: 0 <= k < |parts| ==> parts[k] == []
    ensures Flatten(parts) == []
  {
    if parts != [] { FlattenNothing(parts[1..]); }
  }

  // ---------- the dump ----------

  lemma ReadConcat(memory: seq<byte>, a: seq<nat>, b: seq<nat>)
    ensures ReadAt(memory, a + b) == ReadAt(memory, a) + ReadAt(memory, b)
  {
  }

  lemma {:induction false} ReadBlocks<T>(memory: seq<byte>, a: seq<Index<T>>, parts: seq<seq<byte>>)
    requires |parts| == |a| && forall k :: 0 <= k < |a| ==> BlockData(memory, a[k]) == parts[k]
    ensures ReadAt(memory, ByteAddresses(a)) == Flatten(parts)
  {
    if a != [] {
      var span := Span(a[0].blockStartAddress, a[0].size);
      ReadConcat(memory, span, ByteAddresses(a[1..]));
      ReadBlocks(memory, a[1..], parts[1..]);
    }
  }

  /** The memory at the addresses that a dump visits. */
  function Dumped<T>(c: Contents<T>): seq<byte>
    requires InStore(c.store)
  {
    ReadAt(c.memory, ByteAddresses(Aged(c.store)))
  }

  lemma DumpIsLatest<T>(g: Layout, c: Contents<T>, journal: seq<seq<byte>>)
    requires HoldsData(g, c, journal)
    ensures var cut := |journal| - |c.store.blocks|;
            && Dumped(c) == Flatten(journal[cut..])
            && Flatten(journal) == Flatten(journal[..cut]) + Dumped(c)
  {
    var cut := |journal| - |c.store.blocks|;
    DumpIsFlattened(g, c, journal, journal[cut..]);
    FlattenCut(journal, cut);
  }

  lemma DumpIsFlattened<T>(g: Layout, c: Contents<T>, journal: seq<seq<byte>>, held: seq<seq<byte>>)
    requires HoldsData(g, c, journal) && held == journal[|journal| - |c.store.blocks|..]
    ensures Dumped(c) == Flatten(held)
  {
    var a := Aged(c.store);
    forall k | 0 <= k < |a|
      ensures BlockData(c.memory, a[k]) == held[k]
    {
      assert held[k] == journal[|journal| - |c.store.blocks| + k];
    }
    ReadBlocks(c.memory, a, held);
  }

  lemma FlattenCut(journal: seq<seq<byte>>, cut: nat)
    requires cut <= |journal|
    ensures Flatten(journal) == Flatten(journal[..cut]) + Flatten(journal[cut..])
  {
    FlattenConcat(journal[..cut], journal[cut..]);
    assert journal[..cut] + journal[cut..] == journal;
  }

  /** The start: an empty store, and any memory. */
  ghost predicate Started<T>(g: Layout, r: Recorded<T>) {
    && Placed(g, r.contents) && Fresh(r.contents.store) && g.total > 0
    && r.journal == seq(|r.contents.store.blocks|, _ => []) && r.accepted == []
  }

  lemma StartedHolds<T>(g: Layout, r: Recorded<T>)
    requires Started(g, r)
    ensures Ready(g, r) && HoldsData(g, r.contents, r.journal) && LostNothing(r) && Flatten(r.journal) == r.accepted
  {
    FlattenNothing(r.journal);
    var s := r.contents.store;
    forall k | 0 <= k < |s.blocks|
      ensures BlockData(r.contents.memory, Aged(s)[k]) == []
    {
      assert EntryOf(s.blocks[RingPosition(k, s.w, |s.blocks|)]) == Entry(0, 0);
    }
  }

  /** After any run of checked writes and block changes, reading the memory where a dump goes gives the data
      of the latest blocks in the order of writing: the end of all the data accepted, whatever the memory
      held at first.  Without overwrite it gives all of it. */
  lemma DumpReturnsWhatWasWritten<T>(g: Layout, r: Recorded<T>, overwriteOld: bool, ops: seq<DataOp>)
    requires Started(g, r)
    ensures Ready(g, r)
    ensures var r' := DataRun(g, r, overwriteOld, ops);
            var cut := |r'.journal| - |r'.contents.store.blocks|;
            && Dumped(r'.contents) == Flatten(r'.journal[cut..])
            && r'.accepted == Flatten(r'.journal[..cut]) + Dumped(r'.contents)
            && (!overwriteOld ==> Dumped(r'.contents) == r'.accepted)
  {
    StartedHolds(g, r);
    DataRunHolds(g, r, overwriteOld, ops);
    JournalHasAllAccepted(g, r, overwriteOld, ops);
    var r' := DataRun(g, r, overwriteOld, ops);
    DumpIsLatest(g, r'.contents, r'.journal);
    if !overwriteOld {
      RunWithoutOverwriteLosesNothing(g, r, ops);
      FlattenNothing(r'.journal[..|r'.journal| - |r'.contents.store.blocks|]);
      assert [] + Dumped(r'.contents) == Dumped(r'.contents);
    }
  }
}
