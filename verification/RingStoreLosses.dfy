/** What a run of appends and block changes loses: exactly what the blocks that writeNext opens still reported. */
module RingStoreLosses {
  import opened Serialization
  import opened RingStoreModel
  import opened RingStoreRuns

  /** An accepted writeNext opens a block that still reports something. */
  predicate DropsAt<T>(s: Store<T>, overwriteOld: bool, op: Op, f: Field)
    requires InStore(s)
  {
    && op.WriteNext? && NextWritable(s, overwriteOld)
    && Amount(EntryOf(s.blocks[Next(s.w, |s.blocks|)]), f) != 0
  }

  predicate Drops<T>(s: Store<T>, overwriteOld: bool, ops: seq<Op>, f: Field)
    requires InStore(s)
    decreases |ops|
  {
    && ops != []
    && (DropsAt(s, overwriteOld, ops[0], f) || Drops(Step(s, overwriteOld, ops[0]), overwriteOld, ops[1..], f))
  }

  /** Appends change no block that has left the store, and an accepted writeNext lets the oldest one leave. */
  lemma StepOverwrites<T>(s: Store<T>, journal: seq<Entry>, overwriteOld: bool, op: Op)
    requires HoldsLatest(s, journal)
    ensures var n := |s.blocks|;
            Overwritten(JournalStep(journal, n, overwriteOld, op), n)
            == if op.WriteNext? && NextWritable(s, overwriteOld)
               then Overwritten(journal, n) + [EntryOf(s.blocks[Next(s.w, n)])] else Overwritten(journal, n)
  {
    AgeOrderAt(s.blocks, s.w, Next(s.w, |s.blocks|));
    assert EntryOf(Aged(s)[0]) == journal[|journal| - |s.blocks| + 0];
  }

  lemma {:induction false} LostOnlyGrows<T>(s: Store<T>, journal: seq<Entry>, overwriteOld: bool, ops: seq<Op>,
                                            f: Field)
    requires HoldsLatest(s, journal)
    ensures var n := |s.blocks|;
            var before := Total(Overwritten(journal, n), f);
            var after := Total(Overwritten(Journal(journal, n, overwriteOld, ops), n), f);
            before <= after && (before == after <==> !Drops(s, overwriteOld, ops, f))
    decreases |ops|
  {
    if ops != [] {
      var n := |s.blocks|;
      var next := JournalStep(journal, n, overwriteOld, ops[0]);
      StepHoldsLatest(s, journal, overwriteOld, ops[0]);
      StepOverwrites(s, journal, overwriteOld, ops[0]);
      TotalSplit(Overwritten(journal, n), [EntryOf(s.blocks[Next(s.w, n)])], f);
      LostOnlyGrows(Step(s, overwriteOld, ops[0]), next, overwriteOld, ops[1..], f);
    }
  }

  /** Over any run from a fresh store, in either mode, no bytes (or packets) are lost if and only if no
      accepted writeNext in it opened a block that still reported some. */
  lemma NothingIsLostIff<T>(s: Store<T>, overwriteOld: bool, ops: seq<Op>, f: Field)
    requires Fresh(s)
    ensures var n := |s.blocks|;
            Total(Overwritten(Journal(NewJournal(n), n, overwriteOld, ops), n), f) == 0
            <==> !Drops(s, overwriteOld, ops, f)
  {
    var n := |s.blocks|;
    LostOnlyGrows(s, NewJournal(n), overwriteOld, ops, f);
    assert Overwritten(NewJournal(n), n) == [];
  }

  /** In such a run what was appended is held or was cleared. */
  lemma NothingLostMeansKept<T>(s: Store<T>, overwriteOld: bool, ops: seq<Op>, f: Field)
    requires Fresh(s) && !Drops(s, overwriteOld, ops, f)
    ensures Equal32(Total(Entries(Run(s, overwriteOld, ops).blocks), f)
                    + Cleared(NewJournal(|s.blocks|), |s.blocks|, overwriteOld, ops, f),
                    Appended(ops, f))
  {
    NothingIsLostIff(s, overwriteOld, ops, f);
    Conservation(s, overwriteOld, ops, f);
  }

  // ---------- what a caller can do about it ----------

  /** The block an append goes to. */
  function Target<T>(s: Store<T>, op: Op): (i: nat)
    requires InStore(s) && (op.AppendCurrent? || op.AppendPrevious?)
    ensures i < |s.blocks|
  {
    if op.AppendCurrent? then s.w else Previous(s.w, |s.blocks|)
  }

  /** Packets come with bytes, and the size of the block does not wrap. */
  predicate PairedAt<T>(s: Store<T>, op: Op)
    requires InStore(s)
  {
    op.AppendCurrent? || op.AppendPrevious? ==>
      && (op.packets != 0 ==> op.bytes != 0)
      && s.blocks[Target(s, op)].size + op.bytes < TWO_TO_THE_32
  }

  predicate Paired<T>(s: Store<T>, overwriteOld: bool, ops: seq<Op>)
    requires InStore(s)
    decreases |ops|
  {
    ops == [] || (PairedAt(s, ops[0]) && Paired(Step(s, overwriteOld, ops[0]), overwriteOld, ops[1..]))
  }

  ghost predicate EmptyBlocksHaveNoPackets<T>(s: Store<T>) {
    forall i :: 0 <= i < |s.blocks| && s.blocks[i].size == 0 ==> s.blocks[i].storedPackets == 0
  }

  lemma {:induction false} PairedRunDropsNothing<T>(s: Store<T>, ops: seq<Op>)
    requires InStore(s) && EmptyBlocksHaveNoPackets(s) && Paired(s, false, ops)
    ensures !Drops(s, false, ops, Packets)
    decreases |ops|
  {
    if ops != [] {
      PairedRunDropsNothing(Step(s, false, ops[0]), ops[1..]);
    }
  }

  /** Without overwrite all packets appended in a run are held or were cleared, if packets are never appended
      without bytes and no block's size wraps. */
  lemma PairedRunKeepsAllPackets<T>(s: Store<T>, ops: seq<Op>)
    requires Fresh(s) && Paired(s, false, ops)
    ensures Equal32(Total(Entries(Run(s, false, ops).blocks), Packets)
                    + Cleared(NewJournal(|s.blocks|), |s.blocks|, false, ops, Packets),
                    Appended(ops, Packets))
  {
    forall i | 0 <= i < |s.blocks|
      ensures s.blocks[i].storedPackets == 0
    {
      assert EntryOf(s.blocks[i]) == Entry(0, 0);
    }
    PairedRunDropsNothing(s, ops);
    NothingLostMeansKept(s, false, ops, Packets);
  }

  /** A run that fails: a packet without bytes in a store with one block, which then counts as writable. */
  lemma PacketWithoutBytesIsLost<T>(s: Store<T>)
    requires Fresh(s) && |s.blocks| == 1
    ensures var ops := [AppendCurrent(0, 1), WriteNext];
            && Appended(ops, Packets) == 1 && Drops(s, false, ops, Packets)
            && Total(Entries(Run(s, false, ops).blocks), Packets) == 0
  {
    var ops := [AppendCurrent(0, 1), WriteNext];
    var s1 := Step(s, false, ops[0]);
    var s2 := Step(s1, false, WriteNext);
    assert EntryOf(s.blocks[0]) == Entry(0, 0);
    assert EntryOf(s1.blocks[0]) == Entry(0, 1) && EntryOf(s2.blocks[0]) == Entry(0, 0);
    assert ops[1..] == [WriteNext] && ops[1..][1..] == [];
    assert Run(s1, false, [WriteNext]) == s2 && Run(s, false, ops) == s2;
    assert Drops(s1, false, [WriteNext], Packets);
    assert Appended([WriteNext], Packets) == 0;
    EmptyEntriesTotal(Entries(s2.blocks), Packets);
  }
}
