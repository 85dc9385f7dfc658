/** The indexed ring store as a value: a ring of blocks and a write cursor, and the two readings of it
    that the class is proved against.

    `AgeOrder` turns the ring so that the block after the write block comes first and the write block
    last.  The journal is the reference: it keeps every block ever opened, in the order of opening. */
module RingStoreModel {
  import opened Serialization

  function Add32(a: nat, b: nat): uint32 {
    (a + b) % TWO_TO_THE_32
  }

  datatype Index<T> = Index(blockStartAddress: uint32, size: uint32, storedPackets: uint32, indexType: T) {
    function End(): nat {
      blockStartAddress + size
    }

    function Grown(bytes: uint32, packets: uint32): Index<T> {
      this.(size := Add32(size, bytes), storedPackets := Add32(storedPackets, packets))
    }

    function Emptied(): Index<T> {
      this.(size := 0, storedPackets := 0)
    }
  }

  predicate DistinctAddresses<T>(blocks: seq<Index<T>>) {
    forall i, j :: 0 <= i < j < |blocks| ==> blocks[i].blockStartAddress != blocks[j].blockStartAddress
  }

  // ---------- age order ----------

  function Next(i: nat, n: nat): nat {
    if i + 1 == n then 0 else i + 1
  }

  function Previous(i: nat, n: nat): nat
    requires i < n
  {
    if i == 0 then n - 1 else i - 1
  }

  /** Where block i stands in the age order of write block w. */
  function AgePosition(i: nat, w: nat, n: nat): (p: nat)
    requires i < n && w < n
    ensures p < n
    ensures p == n - 1 <==> i == w
  {
    if i > w then i - w - 1 else i + n - w - 1
  }

  /** The block that stands at position p of the age order. */
  function RingPosition(p: nat, w: nat, n: nat): (i: nat)
    requires p < n && w < n
    ensures i < n && AgePosition(i, w, n) == p
  {
    if p + w + 1 < n then p + w + 1 else p + w + 1 - n
  }

  function AgeOrder<T>(blocks: seq<Index<T>>, w: nat): (a: seq<Index<T>>)
    requires w < |blocks|
    ensures |a| == |blocks|
  {
    seq(|blocks|, p requires 0 <= p < |blocks| => blocks[RingPosition(p, w, |blocks|)])
  }

  lemma AgeOrderIsRotation<T>(blocks: seq<Index<T>>, w: nat)
    requires w < |blocks|
    ensures AgeOrder(blocks, w) == blocks[w + 1..] + blocks[..w + 1]
  {
  }

  lemma AgeOrderAt<T>(blocks: seq<Index<T>>, w: nat, i: nat)
    requires w < |blocks| && i < |blocks|
    ensures AgeOrder(blocks, w)[AgePosition(i, w, |blocks|)] == blocks[i]
    ensures i != w ==> AgePosition(Next(i, |blocks|), w, |blocks|) == AgePosition(i, w, |blocks|) + 1
  {
  }

  // ---------- write operations ----------

  datatype Store<T> = Store(blocks: seq<Index<T>>, w: nat)

  predicate InStore<T>(s: Store<T>) {
    s.w < |s.blocks|
  }

  function Aged<T>(s: Store<T>): seq<Index<T>>
    requires InStore(s)
  {
    AgeOrder(s.blocks, s.w)
  }

  function Append<T>(s: Store<T>, i: nat, bytes: uint32, packets: uint32): (s': Store<T>)
    requires InStore(s) && i < |s.blocks|
    ensures InStore(s')
  {
    s.(blocks := s.blocks[i := s.blocks[i].Grown(bytes, packets)])
  }

  function Clear<T>(s: Store<T>): (s': Store<T>)
    requires InStore(s)
    ensures InStore(s')
  {
    s.(blocks := s.blocks[s.w := s.blocks[s.w].Emptied()])
  }

  predicate NextWritable<T>(s: Store<T>, overwriteOld: bool)
    requires InStore(s)
  {
    s.blocks[Next(s.w, |s.blocks|)].size == 0 || overwriteOld
  }

  function OpenNext<T>(s: Store<T>): (s': Store<T>)
    requires InStore(s)
    ensures InStore(s')
  {
    var next := Next(s.w, |s.blocks|);
    Store(s.blocks[next := s.blocks[next].Emptied()], next)
  }

  /** Opening the next block takes the front of the age order, empties it and puts it at the back:
      the block that is given up is the oldest one. */
  lemma OpenNextRotates<T>(s: Store<T>)
    requires InStore(s)
    ensures Aged(OpenNext(s)) == Aged(s)[1..] + [Aged(s)[0].Emptied()]
  {
  }

  // ---------- the first non-empty block ----------

  /** The position of the oldest non-empty block before the write block, or of the write block. */
  function FirstNonEmpty<T>(a: seq<Index<T>>): (r: nat)
    requires a != []
    ensures r < |a|
    ensures forall j :: 0 <= j < r ==> a[j].size == 0
    ensures r < |a| - 1 ==> a[r].size != 0
  {
    if |a| == 1 || a[0].size != 0 then 0 else
      var r := FirstNonEmpty(a[1..]);
      assert forall j :: 0 < j <= r ==> a[j] == a[1..][j - 1];
      r + 1
  }

  lemma FirstNonEmptyIs<T>(a: seq<Index<T>>, r: nat)
    requires r < |a|
    requires forall j :: 0 <= j < r ==> a[j].size == 0
    requires r < |a| - 1 ==> a[r].size != 0
    ensures FirstNonEmpty(a) == r
  {
  }

  // ---------- totals ----------

  datatype Entry = Entry(bytes: uint32, packets: uint32)

  datatype Field = Bytes | Packets

  function EntryOf<T>(i: Index<T>): Entry {
    Entry(i.size, i.storedPackets)
  }

  function Entries<T>(a: seq<Index<T>>): (e: seq<Entry>)
    ensures |e| == |a|
  {
    seq(|a|, i requires 0 <= i < |a| => EntryOf(a[i]))
  }

  function Amount(e: Entry, f: Field): uint32 {
    if f == Bytes then e.bytes else e.packets
  }

  function Total(entries: seq<Entry>, f: Field): nat {
    if entries == [] then 0 else Amount(entries[0], f) + Total(entries[1..], f)
  }

  /** The totals are those of the sizes and of the stored packets. */
  lemma TotalIsSum<T>(x: Index<T>, rest: seq<Index<T>>)
    ensures Total([], Bytes) == Total([], Packets) == 0
    ensures Total(Entries([x] + rest), Bytes) == x.size + Total(Entries(rest), Bytes)
    ensures Total(Entries([x] + rest), Packets) == x.storedPackets + Total(Entries(rest), Packets)
  {
    assert Entries([x] + rest)[1..] == Entries(rest);
  }

  lemma {:induction false} TotalSplit(a: seq<Entry>, b: seq<Entry>, f: Field)
    ensures Total(a + b, f) == Total(a, f) + Total(b, f)
  {
    if a == [] {
      assert a + b == b;
    } else {
      assert (a + b)[1..] == a[1..] + b;
      TotalSplit(a[1..], b, f);
    }
  }

  lemma TotalNext(e: seq<Entry>, i: nat, f: Field)
    requires i < |e|
    ensures Total(e[..i + 1], f) == Total(e[..i], f) + Amount(e[i], f)
  {
    assert e[..i + 1] == e[..i] + [e[i]];
    TotalSplit(e[..i], [e[i]], f);
  }

  lemma AgeOrderKeepsTotal<T>(blocks: seq<Index<T>>, w: nat, f: Field)
    requires w < |blocks|
    ensures Total(Entries(AgeOrder(blocks, w)), f) == Total(Entries(blocks), f)
  {
    var a, b := Entries(blocks[..w + 1]), Entries(blocks[w + 1..]);
    TotalSplit(a, b, f);
    TotalSplit(b, a, f);
    assert Entries(blocks) == a + b;
    AgeOrderIsRotation(blocks, w);
    assert Entries(AgeOrder(blocks, w)) == b + a;
  }
}
