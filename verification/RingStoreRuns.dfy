/** Whole runs of all calls that change a block's size on the indexed ring store, against a journal that
    never forgets a block. */
module RingStoreRuns {
  import opened Serialization
  import opened RingStoreModel

  datatype Op =
    | AppendCurrent(bytes: uint32, packets: uint32)
    | AppendPrevious(bytes: uint32, packets: uint32)
    | ClearCurrent
    | WriteNext

  function Step<T>(s: Store<T>, overwriteOld: bool, op: Op): (s': Store<T>)
    requires InStore(s)
    ensures InStore(s') && |s'.blocks| == |s.blocks|
  {
    match op
    case AppendCurrent(bytes, packets) => Append(s, s.w, bytes, packets)
    case AppendPrevious(bytes, packets) => Append(s, Previous(s.w, |s.blocks|), bytes, packets)
    case ClearCurrent => Clear(s)
    case WriteNext => if NextWritable(s, overwriteOld) then OpenNext(s) else s
  }

  function Run<T>(s: Store<T>, overwriteOld: bool, ops: seq<Op>): (s': Store<T>)
    requires InStore(s)
    ensures InStore(s') && |s'.blocks| == |s.blocks|
    decreases |ops|
  {
    if ops == [] then s else Run(Step(s, overwriteOld, ops[0]), overwriteOld, ops[1..])
  }

  // ---------- the journal ----------

  function Grow(journal: seq<Entry>, i: nat, bytes: uint32, packets: uint32): seq<Entry>
    requires i < |journal|
  {
    journal[i := Entry(Add32(journal[i].bytes, bytes), Add32(journal[i].packets, packets))]
  }

  /** Every block ever opened, in the order of opening.  A store of n blocks looks at the last n. */
  function JournalStep(journal: seq<Entry>, n: nat, overwriteOld: bool, op: Op): (j: seq<Entry>)
    requires 0 < n <= |journal|
    ensures |j| >= |journal|
  {
    match op
    case AppendCurrent(bytes, packets) => Grow(journal, |journal| - 1, bytes, packets)
    case AppendPrevious(bytes, packets) =>
      Grow(journal, if n == 1 then |journal| - 1 else |journal| - 2, bytes, packets)
    case ClearCurrent => journal[|journal| - 1 := Entry(0, 0)]
    case WriteNext =>
      if journal[|journal| - n].bytes == 0 || overwriteOld then journal + [Entry(0, 0)] else journal
  }

  function Journal(journal: seq<Entry>, n: nat, overwriteOld: bool, ops: seq<Op>): (j: seq<Entry>)
    requires 0 < n <= |journal|
    ensures |j| >= |journal|
    decreases |ops|
  {
    if ops == [] then journal
    else Journal(JournalStep(journal, n, overwriteOld, ops[0]), n, overwriteOld, ops[1..])
  }

  /** The store holds the last blocks of the journal, oldest first and the write block last. */
  ghost predicate HoldsLatest<T>(s: Store<T>, journal: seq<Entry>) {
    && InStore(s) && |s.blocks| <= |journal|
    && forall k :: 0 <= k < |s.blocks| ==>
         EntryOf(Aged(s)[k]) == journal[|journal| - |s.blocks| + k]
  }

  lemma AppendHoldsLatest<T>(s: Store<T>, journal: seq<Entry>, i: nat, bytes: uint32, packets: uint32)
    requires HoldsLatest(s, journal) && i < |s.blocks|
    ensures var p := AgePosition(i, s.w, |s.blocks|);
            HoldsLatest(Append(s, i, bytes, packets),
                        Grow(journal, |journal| - |s.blocks| + p, bytes, packets))
  {
    var s' := Append(s, i, bytes, packets);
    var p := AgePosition(i, s.w, |s.blocks|);
    assert Aged(s') == Aged(s)[p := Aged(s)[p].Grown(bytes, packets)];
  }

  lemma ClearHoldsLatest<T>(s: Store<T>, journal: seq<Entry>)
    requires HoldsLatest(s, journal)
    ensures HoldsLatest(Clear(s), journal[|journal| - 1 := Entry(0, 0)])
  {
    var last := |s.blocks| - 1;
    assert Aged(Clear(s)) == Aged(s)[last := Aged(s)[last].Emptied()];
  }

  lemma OpenNextHoldsLatest<T>(s: Store<T>, journal: seq<Entry>)
    requires HoldsLatest(s, journal)
    ensures HoldsLatest(OpenNext(s), journal + [Entry(0, 0)])
  {
    OpenNextRotates(s);
  }

  lemma StepHoldsLatest<T>(s: Store<T>, journal: seq<Entry>, overwriteOld: bool, op: Op)
    requires HoldsLatest(s, journal)
    ensures HoldsLatest(Step(s, overwriteOld, op), JournalStep(journal, |s.blocks|, overwriteOld, op))
  {
    match op
    case AppendCurrent(bytes, packets) => AppendHoldsLatest(s, journal, s.w, bytes, packets);
    case AppendPrevious(bytes, packets) =>
      AppendHoldsLatest(s, journal, Previous(s.w, |s.blocks|), bytes, packets);
    case ClearCurrent => ClearHoldsLatest(s, journal);
    case WriteNext =>
      AgeOrderAt(s.blocks, s.w, Next(s.w, |s.blocks|));
      assert EntryOf(Aged(s)[0]) == journal[|journal| - |s.blocks| + 0];
      OpenNextHoldsLatest(s, journal);
  }

  /** Over any run the blocks after the write block, in ring order, are ordered by age: they are the
      latest blocks of the journal. */
  lemma {:induction false} RunHoldsLatest<T>(s: Store<T>, journal: seq<Entry>, overwriteOld: bool, ops: seq<Op>)
    requires HoldsLatest(s, journal)
    ensures HoldsLatest(Run(s, overwriteOld, ops), Journal(journal, |s.blocks|, overwriteOld, ops))
    decreases |ops|
  {
    if ops != [] {
      StepHoldsLatest(s, journal, overwriteOld, ops[0]);
      RunHoldsLatest(Step(s, overwriteOld, ops[0]), JournalStep(journal, |s.blocks|, overwriteOld, ops[0]),
                     overwriteOld, ops[1..]);
    }
  }

  /** The block that comes first after the write block and is not empty is the oldest non-empty block
      the store still holds: in the journal, nothing the store holds before it has any bytes. */
  lemma FirstNonEmptyIsOldest<T>(s: Store<T>, journal: seq<Entry>)
    requires HoldsLatest(s, journal)
    ensures var first := |journal| - |s.blocks|;
            var r := FirstNonEmpty(Aged(s));
            && (forall k :: first <= k < first + r ==> journal[k].bytes == 0)
            && (r < |s.blocks| - 1 ==> journal[first + r].bytes != 0)
  {
    var first := |journal| - |s.blocks|;
    var r := FirstNonEmpty(Aged(s));
    forall k | first <= k < first + r
      ensures journal[k].bytes == 0
    {
      assert EntryOf(Aged(s)[k - first]) == journal[first + (k - first)];
    }
    assert EntryOf(Aged(s)[r]) == journal[first + r];
  }

  // ---------- conservation ----------

  function AppendedBy(op: Op, f: Field): nat {
    if op.WriteNext? || op.ClearCurrent? then 0 else Amount(Entry(op.bytes, op.packets), f)
  }

  function Appended(ops: seq<Op>, f: Field): nat {
    if ops == [] then 0 else AppendedBy(ops[0], f) + Appended(ops[1..], f)
  }

  /** What clearing the write block takes away. */
  function ClearedBy(journal: seq<Entry>, op: Op, f: Field): nat
    requires journal != []
  {
    if op.ClearCurrent? then Amount(journal[|journal| - 1], f) else 0
  }

  function Cleared(journal: seq<Entry>, n: nat, overwriteOld: bool, ops: seq<Op>, f: Field): nat
    requires 0 < n <= |journal|
    decreases |ops|
  {
    if ops == [] then 0
    else ClearedBy(journal, ops[0], f)
         + Cleared(JournalStep(journal, n, overwriteOld, ops[0]), n, overwriteOld, ops[1..], f)
  }

  ghost predicate Equal32(a: nat, b: nat) {
    a % TWO_TO_THE_32 == b % TWO_TO_THE_32
  }

  lemma Equal32Chain(a: nat, b: nat, c: nat, d: nat, e: nat, x: nat, y: nat)
    requires Equal32(b + x, a + d) && Equal32(c + y, b + e)
    ensures Equal32(c + (x + y), a + (d + e))
  {
  }

  lemma Equal32Add(a: nat, x: nat, b: nat, d: nat)
    ensures Equal32(a + Add32(x, d) + b, a + x + b + d)
  {
  }

  lemma Equal32Sum(a: nat, b: nat, x: nat)
    requires Equal32(a, b)
    ensures Equal32(Add32(a, x), b + x)
  {
  }

  lemma Reduced32(a: uint32, b: nat)
    requires Equal32(a, b)
    ensures a == b % TWO_TO_THE_32
  {
  }

  lemma TotalAt(journal: seq<Entry>, i: nat, e: Entry, f: Field)
    requires i < |journal|
    ensures Total(journal[i := e], f)
         == Total(journal[..i], f) + Amount(e, f) + Total(journal[i + 1..], f)
  {
    var rest := [e] + journal[i + 1..];
    assert journal[i := e] == journal[..i] + rest;
    TotalSplit(journal[..i], rest, f);
    assert rest[1..] == journal[i + 1..];
  }

  lemma GrowAdds(journal: seq<Entry>, i: nat, bytes: uint32, packets: uint32, f: Field)
    requires i < |journal|
    ensures Equal32(Total(Grow(journal, i, bytes, packets), f),
                    Total(journal, f) + Amount(Entry(bytes, packets), f))
  {
    var x, d := Amount(journal[i], f), Amount(Entry(bytes, packets), f);
    assert Total(journal, f) == Total(journal[..i], f) + x + Total(journal[i + 1..], f) by {
      TotalAt(journal, i, journal[i], f);
      assert journal[i := journal[i]] == journal;
    }
    TotalAt(journal, i, Grow(journal, i, bytes, packets)[i], f);
    Equal32Add(Total(journal[..i], f), x, Total(journal[i + 1..], f), d);
  }

  lemma StepAdds(journal: seq<Entry>, n: nat, overwriteOld: bool, op: Op, f: Field)
    requires 0 < n <= |journal|
    ensures Equal32(Total(JournalStep(journal, n, overwriteOld, op), f) + ClearedBy(journal, op, f),
                    Total(journal, f) + AppendedBy(op, f))
  {
    match op
    case AppendCurrent(bytes, packets) => GrowAdds(journal, |journal| - 1, bytes, packets, f);
    case AppendPrevious(bytes, packets) => GrowPreviousAdds(journal, n, overwriteOld, op, f);
    case ClearCurrent => ClearTakesAway(journal, f);
    case WriteNext => TotalSplit(journal, [Entry(0, 0)], f);
  }

  lemma GrowPreviousAdds(journal: seq<Entry>, n: nat, overwriteOld: bool, op: Op, f: Field)
    requires 0 < n <= |journal| && op.AppendPrevious?
    ensures Equal32(Total(JournalStep(journal, n, overwriteOld, op), f), Total(journal, f) + AppendedBy(op, f))
  {
    GrowAdds(journal, if n == 1 then |journal| - 1 else |journal| - 2, op.bytes, op.packets, f);
  }

  lemma ClearTakesAway(journal: seq<Entry>, f: Field)
    requires journal != []
    ensures var last := |journal| - 1;
            Total(journal[last := Entry(0, 0)], f) + Amount(journal[last], f) == Total(journal, f)
  {
    var last := |journal| - 1;
    TotalAt(journal, last, Entry(0, 0), f);
    TotalAt(journal, last, journal[last], f);
    assert journal[last := journal[last]] == journal;
  }

  /** Everything appended is in the journal or was cleared (counted in 32 bits). */
  lemma {:induction false} JournalHasAllAppends(journal: seq<Entry>, n: nat, overwriteOld: bool, ops: seq<Op>, f: Field)
    requires 0 < n <= |journal|
    ensures Equal32(Total(Journal(journal, n, overwriteOld, ops), f) + Cleared(journal, n, overwriteOld, ops, f),
                    Total(journal, f) + Appended(ops, f))
    decreases |ops|
  {
    if ops != [] {
      var next := JournalStep(journal, n, overwriteOld, ops[0]);
      StepAdds(journal, n, overwriteOld, ops[0], f);
      JournalHasAllAppends(next, n, overwriteOld, ops[1..], f);
      Equal32Chain(Total(journal, f), Total(next, f), Total(Journal(journal, n, overwriteOld, ops), f),
                   AppendedBy(ops[0], f), Appended(ops[1..], f), ClearedBy(journal, ops[0], f),
                   Cleared(next, n, overwriteOld, ops[1..], f));
    }
  }

  /** The journal entries the store no longer holds. */
  function Overwritten(journal: seq<Entry>, n: nat): seq<Entry>
    requires n <= |journal|
  {
    journal[..|journal| - n]
  }

  /** What the store holds and what was overwritten make up the journal. */
  lemma HeldPlusOverwritten<T>(s: Store<T>, journal: seq<Entry>, f: Field)
    requires HoldsLatest(s, journal)
    ensures Total(Entries(s.blocks), f) + Total(Overwritten(journal, |s.blocks|), f) == Total(journal, f)
  {
    var cut := |journal| - |s.blocks|;
    AgeOrderKeepsTotal(s.blocks, s.w, f);
    assert Entries(Aged(s)) == journal[cut..];
    TotalSplit(journal[..cut], journal[cut..], f);
    assert journal[..cut] + journal[cut..] == journal;
  }

  ghost predicate OverwrittenAreEmpty(journal: seq<Entry>, n: nat)
    requires n <= |journal|
  {
    forall k :: 0 <= k < |journal| - n ==> journal[k].bytes == 0
  }

  /** Without overwrite only empty blocks ever leave the store. */
  lemma {:induction false} NothingLostWithoutOverwrite(journal: seq<Entry>, n: nat, ops: seq<Op>)
    requires 0 < n <= |journal| && OverwrittenAreEmpty(journal, n)
    ensures OverwrittenAreEmpty(Journal(journal, n, false, ops), n)
    decreases |ops|
  {
    if ops != [] {
      NothingLostWithoutOverwrite(JournalStep(journal, n, false, ops[0]), n, ops[1..]);
    }
  }

  lemma {:induction false} EmptyEntriesTotal(entries: seq<Entry>, f: Field)
    requires forall k :: 0 <= k < |entries| ==> Amount(entries[k], f) == 0
    ensures Total(entries, f) == 0
  {
    if entries != [] { EmptyEntriesTotal(entries[1..], f); }
  }

  /** A store as it is constructed or reset. */
  ghost predicate Fresh<T>(s: Store<T>) {
    InStore(s) && forall i :: 0 <= i < |s.blocks| ==> EntryOf(s.blocks[i]) == Entry(0, 0)
  }

  function NewJournal(n: nat): (j: seq<Entry>)
    ensures |j| == n
  {
    seq(n, _ => Entry(0, 0))
  }

  lemma NewJournalIsEmpty(n: nat, f: Field)
    ensures Total(NewJournal(n), f) == 0
  {
    EmptyEntriesTotal(NewJournal(n), f);
  }

  lemma RunHeldPlusOverwritten<T>(s: Store<T>, overwriteOld: bool, ops: seq<Op>, f: Field)
    requires Fresh(s)
    ensures var n := |s.blocks|;
            var journal := Journal(NewJournal(n), n, overwriteOld, ops);
            Total(Entries(Run(s, overwriteOld, ops).blocks), f) + Total(Overwritten(journal, n), f)
            == Total(journal, f)
  {
    var n := |s.blocks|;
    RunHoldsLatest(s, NewJournal(n), overwriteOld, ops);
    HeldPlusOverwritten(Run(s, overwriteOld, ops), Journal(NewJournal(n), n, overwriteOld, ops), f);
  }

  lemma FreshJournalHasAllAppends(n: nat, overwriteOld: bool, ops: seq<Op>, f: Field)
    requires n > 0
    ensures Equal32(Total(Journal(NewJournal(n), n, overwriteOld, ops), f)
                    + Cleared(NewJournal(n), n, overwriteOld, ops, f),
                    Appended(ops, f))
  {
    NewJournalIsEmpty(n, f);
    JournalHasAllAppends(NewJournal(n), n, overwriteOld, ops, f);
  }

  lemma Balance(held: nat, lost: nat, cleared: nat, total: nat, appended: nat)
    requires held + lost == total && Equal32(total + cleared, appended)
    ensures Equal32(held + lost + cleared, appended)
  {
  }

  /** Conservation over any run from a fresh store: what was appended is what the store reports, what the
      overwritten blocks held, and what was cleared (in 32 bits). */
  lemma Conservation<T>(s: Store<T>, overwriteOld: bool, ops: seq<Op>, f: Field)
    requires Fresh(s)
    ensures var n := |s.blocks|;
            var journal := Journal(NewJournal(n), n, overwriteOld, ops);
            Equal32(Total(Entries(Run(s, overwriteOld, ops).blocks), f) + Total(Overwritten(journal, n), f)
                    + Cleared(NewJournal(n), n, overwriteOld, ops, f),
                    Appended(ops, f))
  {
    var n := |s.blocks|;
    var journal := Journal(NewJournal(n), n, overwriteOld, ops);
    RunHeldPlusOverwritten(s, overwriteOld, ops, f);
    FreshJournalHasAllAppends(n, overwriteOld, ops, f);
    Balance(Total(Entries(Run(s, overwriteOld, ops).blocks), f), Total(Overwritten(journal, n), f),
            Cleared(NewJournal(n), n, overwriteOld, ops, f), Total(journal, f), Appended(ops, f));
  }

  /** Without overwrite no byte is ever lost to writeNext: what was appended is what the store reports and
      what was cleared. */
  lemma WithoutOverwriteAllBytesAreHeld<T>(s: Store<T>, ops: seq<Op>)
    requires Fresh(s)
    ensures var n := |s.blocks|;
            Equal32(Total(Entries(Run(s, false, ops).blocks), Bytes) + Cleared(NewJournal(n), n, false, ops, Bytes),
                    Appended(ops, Bytes))
  {
    var n := |s.blocks|;
    var journal := Journal(NewJournal(n), n, false, ops);
    Conservation(s, false, ops, Bytes);
    NothingLostWithoutOverwrite(NewJournal(n), n, ops);
    EmptyEntriesTotal(Overwritten(journal, n), Bytes);
  }
}
