/** Writes and reads whose amounts reach the pointers as 32-bit integers. */
module RingBufferAmounts {
  import opened Serialization
  import opened RingBufferModel

  /** What a write does: all of the data is copied, but the write pointer gets the amount in 32 bits. */
  function PutAll32(r: Ring, data: seq<byte>): (r': Ring)
    requires WellFormed(r)
    ensures WellFormed(r') && |r'.cells| == |r.cells| && r'.read == r.read
  {
    PutAll(r, data).(write := Advance(r.write, |data| % TWO_TO_THE_32, 0, |r.cells|))
  }

  function Drop32(r: Ring, n: nat): (r': Ring)
    requires WellFormed(r)
    ensures WellFormed(r')
  {
    Drop(r, n % TWO_TO_THE_32)
  }

  lemma ShiftIsInjective(p: nat, x: nat, y: nat, size: nat)
    requires p < size && x < size && y < size
    ensures Mod(p + x, size) == Mod(p + y, size) <==> x == y
  {
    ModSmall(p + x, size);
    ModSmall(p + y, size);
  }

  lemma AdvanceByRemainder(p: nat, a: nat, size: nat)
    requires p < size
    ensures Advance(p, a, 0, size) == Mod(p + Mod(a, size), size)
  {
    ModAdd(a, p, size);
  }

  lemma AdvanceSameIff(p: nat, a: nat, b: nat, size: nat)
    requires p < size
    ensures Advance(p, a, 0, size) == Advance(p, b, 0, size) <==> Mod(a, size) == Mod(b, size)
  {
    AdvanceByRemainder(p, a, size);
    AdvanceByRemainder(p, b, size);
    ShiftIsInjective(p, Mod(a, size), Mod(b, size), size);
  }

  lemma TruncatedIff(amount: nat)
    ensures amount % TWO_TO_THE_32 <= amount
    ensures amount % TWO_TO_THE_32 == amount <==> amount < TWO_TO_THE_32
  {
  }

  lemma TruncatedModIff(amount: nat, size: nat)
    requires amount < size
    ensures Mod(amount % TWO_TO_THE_32, size) == Mod(amount, size) <==> amount < TWO_TO_THE_32
  {
    TruncatedIff(amount);
    ModSmall(amount, size);
    ModSmall(amount % TWO_TO_THE_32, size);
  }

  /** That is the write of all the data if and only if the truncated amount is the same modulo the size. */
  lemma PutAll32Iff(r: Ring, data: seq<byte>)
    requires WellFormed(r)
    ensures PutAll32(r, data) == PutAll(r, data)
            <==> Mod(|data| % TWO_TO_THE_32, |r.cells|) == Mod(|data|, |r.cells|)
  {
    PutAllWrite(r, data);
    AdvanceSameIff(r.write, |data| % TWO_TO_THE_32, |data|, |r.cells|);
  }

  lemma PutAll32Small(r: Ring, data: seq<byte>)
    requires WellFormed(r) && |data| < TWO_TO_THE_32
    ensures PutAll32(r, data) == PutAll(r, data)
  {
    PutAll32Iff(r, data);
    TruncatedIff(|data|);
  }

  /** For an amount that writeData accepts, if and only if it fits in 32 bits. */
  lemma AcceptedWriteIsWholeIff(r: Ring, data: seq<byte>)
    requires WellFormed(r) && |data| < |r.cells|
    ensures PutAll32(r, data) == PutAll(r, data) <==> |data| < TWO_TO_THE_32
  {
    PutAll32Iff(r, data);
    TruncatedModIff(|data|, |r.cells|);
  }

  /** The same for what is deleted or read. */
  lemma DropIsWholeIff(r: Ring, n: nat)
    requires WellFormed(r) && n < |r.cells|
    ensures Drop32(r, n) == Drop(r, n) <==> n < TWO_TO_THE_32
  {
    AdvanceSameIff(r.read, n % TWO_TO_THE_32, n, |r.cells|);
    TruncatedModIff(n, |r.cells|);
  }

  /** An input that fails: 2^32 bytes for an empty ring with room for them.  None of them is readable. */
  lemma WriteOf2To32BytesIsLost(cells: seq<byte>, data: seq<byte>)
    requires |data| == TWO_TO_THE_32 < |cells|
    ensures |data| <= WriteSpace(0, 0, |cells|)
    ensures Readable(PutAll32(Ring(cells, 0, 0), data)) == []
  {
    ModSmall(|cells|, |cells|);
    ModSmall(|cells| - 1, |cells|);
    ModSmall(0, |cells|);
  }
}
