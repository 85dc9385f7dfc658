/** The pointer part of the ring buffers: one write pointer, several read pointers
    (src/fsfw/container/RingBufferBase.h). */
module RingBufferBases {
  import opened Serialization
  import opened RingBufferModel

  class RingBufferBase {
    const start: nat
    const size: nat
    const overwriteOld: bool
    const read: array<nat>
    var write: nat

    ghost function View(): Pointers
      reads this, read
    {
      Pointers(start, size, write, read[..])
    }

    ghost predicate Valid()
      reads this, read
    {
      read.Length > 0 && PointersInRange(View())
    }

    constructor (startAddress: nat, size: nat, overwriteOld: bool, readers: nat)
      requires size > 0 && readers > 0
      ensures Valid() && fresh(read) && this.overwriteOld == overwriteOld
      ensures View() == Pointers(startAddress, size, startAddress, seq(readers, _ => startAddress))
    {
      start, write := startAddress, startAddress;
      this.size := size;
      this.overwriteOld := overwriteOld;
      read := new nat[readers](_ => startAddress);
    }

    method GetAvailableReadData(n: nat) returns (amount: nat)
      requires Valid() && n < read.Length
      ensures amount == Unread(View(), n) < size
      ensures Advance(read[n], amount, start, size) == write
    {
      amount := ((write + size) - read[n]) % size;
      ModIsRemainder(write + size - read[n], size);
      ModSmall(write + size - read[n], size);
      ModSmall(read[n] + amount - start, size);
    }

    method AvailableWriteSpace(n: nat) returns (amount: nat)
      requires Valid() && n < read.Length
      ensures amount == Free(View(), n)
      ensures amount + Unread(View(), n) == size - 1
    {
      amount := ((read[n] + size) - write - 1) % size;
      ModIsRemainder(read[n] + size - write - 1, size);
      SpacesSumToSizeMinusOne(write, read[n], start, size);
    }

    method Clear()
      requires Valid()
      modifies this`write, read
      ensures Valid() && write == start
      ensures forall n :: 0 <= n < read.Length ==> read[n] == start && Unread(View(), n) == 0
    {
      write := start;
      forall n | 0 <= n < read.Length { read[n] := start; }
      ModSmall(size, size);
    }

    method IncrementWrite(amount: uint32)
      requires Valid()
      modifies this`write
      ensures Valid() && View() == AfterWrite(old(View()), amount)
    {
      ModIsRemainder(write + amount - start, size);
      write := ((write + amount - start) % size) + start;
    }

    method IncrementRead(amount: uint32, n: nat)
      requires Valid() && n < read.Length
      modifies read
      ensures Valid()
      ensures View() == old(View()).(readers := old(read[..])[n := Advance(old(read[n]), amount, start, size)])
    {
      ModIsRemainder(read[n] + amount - start, size);
      read[n] := ((read[n] + amount - start) % size) + start;
    }

    /** Take `amount` bytes from reader n's unread data, if it has that many. */
    method ReadData(amount: uint32, n: nat) returns (result: ReturnValue)
      requires Valid() && n < read.Length
      modifies read
      ensures Valid() && write == old(write)
      ensures result == if amount <= old(Unread(View(), n)) then OK else FAILED
      ensures Unread(View(), n) == old(Unread(View(), n)) - (if result == OK then amount else 0)
      ensures forall m :: 0 <= m < read.Length && m != n ==> read[m] == old(read[m])
    {
      var available := GetAvailableReadData(n);
      if available >= amount {
        ReadSpaceAfterRead(write, read[n], amount, start, size);
        IncrementRead(amount, n);
        result := OK;
      } else {
        result := FAILED;
      }
    }

    /** Admission looks at reader 0 only. */
    method WriteData(amount: uint32) returns (result: ReturnValue)
      requires Valid()
      modifies this`write
      ensures Valid()
      ensures result == if amount <= old(Free(View(), 0)) || overwriteOld then OK else FAILED
      ensures View() == if result == OK then AfterWrite(old(View()), amount) else old(View())
      ensures result == OK && !overwriteOld ==>
        forall n :: 0 <= n < read.Length && old(Unread(View(), n)) <= old(Unread(View(), 0)) ==>
          Unread(View(), n) == old(Unread(View(), n)) + amount
    {
      ghost var before := View();
      var space := AvailableWriteSpace(0);
      if space >= amount || overwriteOld {
        IncrementWrite(amount);
        if !overwriteOld {
          forall n | 0 <= n < read.Length && Unread(before, n) <= Unread(before, 0)
            ensures Unread(View(), n) == Unread(before, n) + amount
          {
            AdmittedWriteOverrunsNoReaderAhead(before, n, amount);
          }
        }
        result := OK;
      } else {
        result := FAILED;
      }
    }

    /** Out-of-range positions are ignored here ... */
    method SetRead(position: uint32, n: nat)
      requires Valid() && n < read.Length
      modifies read
      ensures Valid()
      ensures read[..] == if start <= position < start + size then old(read[..])[n := position] else old(read[..])
    {
      if position >= start && position < start + size {
        read[n] := position;
      }
    }

    /** ... but not here: the pointers stay in range exactly when the given position is. */
    method SetWrite(position: uint32)
      requires Valid()
      modifies this`write
      ensures write == position && read[..] == old(read[..])
      ensures Valid() <==> start <= position < start + size
    {
      write := position;
    }
  }
}
