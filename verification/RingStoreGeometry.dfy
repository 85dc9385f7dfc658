/** Where the blocks of an indexed ring store lie, and why a checked append stays inside its block. */
module RingStoreGeometry {
  import opened Serialization
  import opened RingStoreModel
  import opened RingStoreRuns

  /** The region behind the index that holds the blocks. */
  datatype Layout = Layout(start: nat, total: nat, bytesPerBlock: nat)

  // ---------- what the constructor computes ----------

  /** Serialized bytes of one index record whose type takes `typeWidth` bytes. */
  function RecordSize(typeWidth: nat): nat {
    4 + typeWidth + 4 + 4
  }

  /** Serialized bytes of the whole index with n blocks. */
  function IndexSize(additionalWidth: nat, typeWidth: nat, n: nat): nat {
    additionalWidth + RecordSize(typeWidth) + 4 + RecordSize(typeWidth) * n + 2
  }

  /** Bytes set aside for the index: enough for as many blocks as the whole region could hold. */
  function ReservedSize(additionalWidth: nat, typeWidth: nat, size: nat, bytesPerBlock: nat): nat
    requires bytesPerBlock > 0
  {
    IndexSize(additionalWidth, typeWidth, size / bytesPerBlock)
  }

  lemma QuotientMonotone(a: nat, b: nat, d: nat)
    requires a <= b && d > 0
    ensures a / d <= b / d
  {
    var k := a / d - b / d;
    assert k >= 1 ==> k * d >= d;
    assert a == (a / d) * d + a % d && b == (b / d) * d + b % d;
    assert k * d == (a - a % d) - (b - b % d);
  }

  lemma ProductMonotone(c: nat, a: nat, b: nat)
    requires a <= b
    ensures c * a <= c * b
  {
  }

  /** The index with the blocks that are really made fits in the gap before the first block. */
  lemma IndexFitsBeforeFirstBlock(additionalWidth: nat, typeWidth: nat, size: nat, bytesPerBlock: nat)
    requires bytesPerBlock > 0
    requires ReservedSize(additionalWidth, typeWidth, size, bytesPerBlock) <= size
    ensures var reserved := ReservedSize(additionalWidth, typeWidth, size, bytesPerBlock);
            IndexSize(additionalWidth, typeWidth, (size - reserved) / bytesPerBlock) <= reserved
  {
    var reserved := ReservedSize(additionalWidth, typeWidth, size, bytesPerBlock);
    QuotientMonotone(size - reserved, size, bytesPerBlock);
    ProductMonotone(RecordSize(typeWidth), (size - reserved) / bytesPerBlock, size / bytesPerBlock);
  }

  /** The number of blocks after the constructor's check of the last block's size. */
  function TrimmedCount(n: nat, lastBlockSize: nat, bytesPerBlock: nat): nat {
    if lastBlockSize < bytesPerBlock && n > 1 then n - 1 else n
  }

  lemma QuotientTimes(usable: nat, bytesPerBlock: nat)
    requires bytesPerBlock > 0
    ensures (usable / bytesPerBlock) * bytesPerBlock <= usable
  {
  }

  /** The last block has room for a whole block, so the check never removes it. */
  lemma LastBlockIsNeverTrimmed(usable: nat, bytesPerBlock: nat)
    requires 0 < bytesPerBlock <= usable
    ensures var n := usable / bytesPerBlock;
            var last := usable - (n - 1) * bytesPerBlock;
            n >= 1 && last >= bytesPerBlock && TrimmedCount(n, last, bytesPerBlock) == n
  {
    var n := usable / bytesPerBlock;
    QuotientMonotone(bytesPerBlock, usable, bytesPerBlock);
    QuotientTimes(usable, bytesPerBlock);
    assert (n - 1) * bytesPerBlock == n * bytesPerBlock - bytesPerBlock;
  }

  // ---------- the blocks ----------

  predicate Adjoin<T>(g: Layout, blocks: seq<Index<T>>, i: nat)
    requires i + 1 < |blocks|
  {
    blocks[i + 1].blockStartAddress == blocks[i].blockStartAddress + g.bytesPerBlock
  }

  ghost predicate LaidOut<T>(g: Layout, blocks: seq<Index<T>>) {
    && 0 < |blocks| && 0 < g.bytesPerBlock
    && g.total < TWO_TO_THE_32 && g.start + g.total <= TWO_TO_THE_32
    && blocks[0].blockStartAddress == g.start
    && (forall i: nat :: i + 1 < |blocks| ==> Adjoin(g, blocks, i))
    && blocks[|blocks| - 1].blockStartAddress + g.bytesPerBlock <= g.start + g.total
  }

  /** Up to the next block's address; the last block has what is left of the store. */
  function Room<T>(g: Layout, blocks: seq<Index<T>>, i: nat): int
    requires i < |blocks|
  {
    if i + 1 == |blocks| then g.start + g.total - blocks[i].blockStartAddress else g.bytesPerBlock
  }

  ghost predicate Contained<T>(g: Layout, blocks: seq<Index<T>>) {
    forall i :: 0 <= i < |blocks| ==> blocks[i].size <= Room(g, blocks, i)
  }

  function AddressOf(g: Layout, i: nat): nat {
    g.start + i * g.bytesPerBlock
  }

  lemma AddressesInside(g: Layout, i: nat)
    requires 0 < g.bytesPerBlock && i < g.total / g.bytesPerBlock
    ensures AddressOf(g, i + 1) == AddressOf(g, i) + g.bytesPerBlock <= g.start + g.total
  {
    QuotientTimes(g.total, g.bytesPerBlock);
    ProductMonotone(g.bytesPerBlock, i + 1, g.total / g.bytesPerBlock);
  }

  /** Evenly spaced blocks, as many as fit, are laid out. */
  lemma AddressesLayOut<T>(g: Layout, blocks: seq<Index<T>>)
    requires 0 < g.bytesPerBlock && 0 < |blocks| == g.total / g.bytesPerBlock
    requires g.total < TWO_TO_THE_32 && g.start + g.total <= TWO_TO_THE_32
    requires forall i :: 0 <= i < |blocks| ==> blocks[i].blockStartAddress == AddressOf(g, i) && blocks[i].size == 0
    ensures LaidOut(g, blocks) && Contained(g, blocks)
  {
    forall i: nat | i < |blocks|
      ensures i + 1 < |blocks| ==> Adjoin(g, blocks, i)
      ensures blocks[i].blockStartAddress + g.bytesPerBlock <= g.start + g.total
    {
      AddressesInside(g, i);
    }
  }

  lemma {:induction false} LaterBlocksStartBehind<T>(g: Layout, blocks: seq<Index<T>>, i: nat, j: nat)
    requires LaidOut(g, blocks) && i < j < |blocks|
    ensures blocks[i].blockStartAddress + g.bytesPerBlock <= blocks[j].blockStartAddress
    decreases j
  {
    assert Adjoin(g, blocks, j - 1);
    if i < j - 1 {
      LaterBlocksStartBehind(g, blocks, i, j - 1);
    }
  }

  lemma LaidOutMeansDistinct<T>(g: Layout, blocks: seq<Index<T>>)
    requires LaidOut(g, blocks)
    ensures DistinctAddresses(blocks)
  {
    forall i, j | 0 <= i < j < |blocks|
      ensures blocks[i].blockStartAddress != blocks[j].blockStartAddress
    {
      LaterBlocksStartBehind(g, blocks, i, j);
    }
  }

  /** The data of a contained store is disjoint and lies inside the store, behind the index. */
  lemma DataIsDisjointAndInside<T>(g: Layout, blocks: seq<Index<T>>, i: nat, j: nat)
    requires LaidOut(g, blocks) && Contained(g, blocks) && i < |blocks| && j < |blocks|
    ensures g.start <= blocks[i].blockStartAddress && blocks[i].End() <= g.start + g.total
    ensures i < j ==> blocks[i].End() <= blocks[j].blockStartAddress
  {
    if 0 < i { LaterBlocksStartBehind(g, blocks, 0, i); }
    if i + 1 < |blocks| { LaterBlocksStartBehind(g, blocks, i, |blocks| - 1); }
    if i < j { LaterBlocksStartBehind(g, blocks, i, j); }
  }

  lemma {:induction false} TotalBefore<T>(g: Layout, blocks: seq<Index<T>>, i: nat)
    requires LaidOut(g, blocks) && Contained(g, blocks) && i < |blocks|
    ensures g.start + Total(Entries(blocks)[..i], Bytes) <= blocks[i].blockStartAddress
    decreases i
  {
    if i > 0 {
      TotalBefore(g, blocks, i - 1);
      TotalNext(Entries(blocks), i - 1, Bytes);
      assert Adjoin(g, blocks, i - 1);
    }
  }

  /** A contained store holds no more bytes than it has, so their number does not wrap in 32 bits. */
  lemma TotalFitsInStore<T>(g: Layout, blocks: seq<Index<T>>)
    requires LaidOut(g, blocks) && Contained(g, blocks)
    ensures Total(Entries(blocks), Bytes) <= g.total
  {
    var last := |blocks| - 1;
    TotalBefore(g, blocks, last);
    TotalNext(Entries(blocks), last, Bytes);
    assert Entries(blocks)[..last + 1] == Entries(blocks);
  }

  // ---------- the space check ----------

  /** The modular difference that hasCurrentWriteBlockEnoughSpace compares with, in 32 bits. */
  function AvailableSize<T>(total: nat, s: Store<T>): nat
    requires InStore(s) && total > 0
  {
    var next := s.blocks[Next(s.w, |s.blocks|)].blockStartAddress;
    (((next + total) - (s.blocks[s.w].blockStartAddress + s.blocks[s.w].size)) % TWO_TO_THE_32) % total
  }

  lemma SmallOrOnceAround(x: int, total: nat)
    requires 0 <= x < 2 * total
    ensures x % total == if x < total then x else x - total
  {
    if x >= total {
      var q := x / total;
      assert x == q * total + x % total;
      assert q >= 2 ==> q * total >= 2 * total;
      assert q <= 0 ==> q * total <= 0;
    }
  }

  /** When the difference is the remaining room: an only block must not be empty, and a block before the
      last must be filled so far that the sum does not wrap. */
  predicate SeesRoom<T>(g: Layout, s: Store<T>)
    requires InStore(s)
  {
    if |s.blocks| == 1 then s.blocks[s.w].size > 0
    else s.w + 1 == |s.blocks| || g.total + g.bytesPerBlock - s.blocks[s.w].size < TWO_TO_THE_32
  }

  /** The check never sees more than the remaining room of the write block, and it sees exactly that room
      if and only if `SeesRoom` holds.  An empty only block seems to have no room at all. */
  lemma SpaceCheckIsExactIff<T>(g: Layout, s: Store<T>)
    requires LaidOut(g, s.blocks) && InStore(s)
    requires s.blocks[s.w].size <= Room(g, s.blocks, s.w)
    ensures g.total > 0
    ensures AvailableSize(g.total, s) <= Room(g, s.blocks, s.w) - s.blocks[s.w].size
    ensures AvailableSize(g.total, s) == Room(g, s.blocks, s.w) - s.blocks[s.w].size <==> SeesRoom(g, s)
    ensures |s.blocks| == 1 && s.blocks[s.w].size == 0 ==> AvailableSize(g.total, s) == 0
  {
    var n := |s.blocks|;
    if 0 < n - 1 { LaterBlocksStartBehind(g, s.blocks, 0, n - 1); }
    if s.w + 1 < n { assert Adjoin(g, s.blocks, s.w); }
    var next := s.blocks[Next(s.w, n)].blockStartAddress;
    var x := (next + g.total) - s.blocks[s.w].End();
    WrappedOnce(x);
    SmallOrOnceAround(x % TWO_TO_THE_32, g.total);
  }

  /** A store that fails: three blocks of 2^30 bytes, all empty, in a region of 2^32 - 1 bytes.  The check takes
      the first block to be one byte smaller than it is. */
  lemma SpaceCheckWraps<T>(t: T)
    ensures var g := Layout(0, 0xFFFF_FFFF, 0x4000_0000);
            var blocks := [Index(0, 0, 0, t), Index(0x4000_0000, 0, 0, t), Index(0x8000_0000, 0, 0, t)];
            && LaidOut(g, blocks) && Contained(g, blocks)
            && AvailableSize(g.total, Store(blocks, 0)) == Room(g, blocks, 0) - 1
  {
    var g := Layout(0, 0xFFFF_FFFF, 0x4000_0000);
    var blocks := [Index(0, 0, 0, t), Index(0x4000_0000, 0, 0, t), Index(0x8000_0000, 0, 0, t)];
    assert Adjoin(g, blocks, 0) && Adjoin(g, blocks, 1);
  }

  lemma WrappedOnce(x: int)
    requires 0 <= x < 2 * TWO_TO_THE_32
    ensures x % TWO_TO_THE_32 == if x < TWO_TO_THE_32 then x else x - TWO_TO_THE_32
  {
  }

  // ---------- runs of checked appends ----------

  /** Every append was preceded by a positive space check, and no append went to the previous block. */
  predicate Checked<T>(total: nat, s: Store<T>, overwriteOld: bool, ops: seq<Op>)
    requires InStore(s) && total > 0
    decreases |ops|
  {
    ops != [] ==>
    && (ops[0].WriteNext? || ops[0].ClearCurrent? || (ops[0].AppendCurrent? && ops[0].bytes < AvailableSize(total, s)))
    && Checked(total, Step(s, overwriteOld, ops[0]), overwriteOld, ops[1..])
  }

  /** The layout is a matter of the addresses alone. */
  lemma LayoutKept<T>(g: Layout, a: seq<Index<T>>, b: seq<Index<T>>)
    requires LaidOut(g, a) && |a| == |b|
    requires forall i :: 0 <= i < |a| ==> b[i].blockStartAddress == a[i].blockStartAddress
    ensures LaidOut(g, b)
    ensures forall i :: 0 <= i < |a| ==> Room(g, b, i) == Room(g, a, i)
  {
    forall i: nat | i + 1 < |b|
      ensures Adjoin(g, b, i)
    {
      assert Adjoin(g, a, i);
    }
  }

  lemma RoomIsPositive<T>(g: Layout, blocks: seq<Index<T>>, i: nat)
    requires LaidOut(g, blocks) && i < |blocks|
    ensures 0 < Room(g, blocks, i) < TWO_TO_THE_32
  {
    if 0 < |blocks| - 1 { LaterBlocksStartBehind(g, blocks, 0, |blocks| - 1); }
  }

  lemma CheckedAppendFits<T>(g: Layout, s: Store<T>, bytes: uint32)
    requires LaidOut(g, s.blocks) && InStore(s) && g.total > 0
    requires s.blocks[s.w].size <= Room(g, s.blocks, s.w)
    requires bytes < AvailableSize(g.total, s)
    ensures Add32(s.blocks[s.w].size, bytes) == s.blocks[s.w].size + bytes < Room(g, s.blocks, s.w)
  {
    SpaceCheckIsExactIff(g, s);
    RoomIsPositive(g, s.blocks, s.w);
  }

  lemma CheckedStepStaysContained<T>(g: Layout, s: Store<T>, overwriteOld: bool, op: Op)
    requires LaidOut(g, s.blocks) && Contained(g, s.blocks) && InStore(s) && g.total > 0
    requires op.WriteNext? || op.ClearCurrent? || (op.AppendCurrent? && op.bytes < AvailableSize(g.total, s))
    ensures LaidOut(g, Step(s, overwriteOld, op).blocks) && Contained(g, Step(s, overwriteOld, op).blocks)
  {
    LayoutKept(g, s.blocks, Step(s, overwriteOld, op).blocks);
    match op
    case AppendCurrent(bytes, packets) => CheckedAppendFits(g, s, bytes);
    case ClearCurrent => RoomIsPositive(g, s.blocks, s.w);
    case WriteNext => RoomIsPositive(g, s.blocks, Next(s.w, |s.blocks|));
  }

  /** Over any run of checked appends, with at least one block, no data reaches the next block's
      address or the end of the store. */
  lemma {:induction false} CheckedRunStaysContained<T>(g: Layout, s: Store<T>, overwriteOld: bool, ops: seq<Op>)
    requires LaidOut(g, s.blocks) && Contained(g, s.blocks) && InStore(s) && g.total > 0
    requires Checked(g.total, s, overwriteOld, ops)
    ensures LaidOut(g, Run(s, overwriteOld, ops).blocks) && Contained(g, Run(s, overwriteOld, ops).blocks)
    decreases |ops|
  {
    if ops != [] {
      CheckedStepStaysContained(g, s, overwriteOld, ops[0]);
      CheckedRunStaysContained(g, Step(s, overwriteOld, ops[0]), overwriteOld, ops[1..]);
    }
  }
}
