/** A byte ring in an array that is longer than the ring by the room for excess bytes
    (src/fsfw/container/SimpleRingBuffer.cpp). */
module SimpleRingBuffers {
  import opened Serialization
  import opened RingBufferAmounts
  import opened RingBufferModel
  import opened RingBufferRuns

  /** memcpy between two regions that do not overlap. */
  method CopyBytes(target: array<byte>, to: nat, source: array<byte>, from: nat, n: nat)
    requires to + n <= target.Length && from + n <= source.Length
    requires target != source || to + n <= from || from + n <= to
    modifies target
    ensures target[..] == Filled(old(target[..]), to, old(source[from..from + n]))
  {
    forall i | 0 <= i < n {
      target[to + i] := source[from + i];
    }
  }

  class SimpleRingBuffer {
    const size: nat
    const overwriteOld: bool
    const maxExcessBytes: nat
    const buffer: array<byte>
    var write: nat
    var read: nat
    var excessBytes: nat

    ghost function View(): Ring
      requires size <= buffer.Length
      reads this, buffer
    {
      Ring(buffer[..size], write, read)
    }

    ghost function Mode(): Config {
      Config(overwriteOld, maxExcessBytes)
    }

    ghost predicate Valid()
      reads this
    {
      && write < size && read < size
      && excessBytes <= maxExcessBytes <= size
      && size + maxExcessBytes <= buffer.Length
    }

    /** Allocates its own buffer; the room for excess bytes that is used is at most one ring. */
    constructor (size: nat, overwriteOld: bool, maxExcessBytes: nat)
      requires 0 < size
      ensures Valid() && fresh(buffer) && this.size == size && excessBytes == 0
      ensures Mode() == Config(overwriteOld, if maxExcessBytes > size then size else maxExcessBytes)
      ensures Readable(View()) == []
    {
      this.size, this.overwriteOld := size, overwriteOld;
      this.maxExcessBytes := if maxExcessBytes > size then size else maxExcessBytes;
      write, read, excessBytes := 0, 0, 0;
      buffer := new byte[size + maxExcessBytes];
      new;
      ClearedIsEmpty(buffer[..size]);
    }

    /** Uses a buffer of the caller's, which must have the excess bytes in addition to the size. */
    constructor OnBuffer(buffer: array<byte>, size: nat, overwriteOld: bool, maxExcessBytes: nat)
      requires 0 < size
      requires size + (if maxExcessBytes > size then size else maxExcessBytes) <= buffer.Length
      ensures Valid() && this.buffer == buffer && this.size == size && excessBytes == 0
      ensures Mode() == Config(overwriteOld, if maxExcessBytes > size then size else maxExcessBytes)
      ensures Readable(View()) == []
    {
      this.size, this.overwriteOld, this.buffer := size, overwriteOld, buffer;
      this.maxExcessBytes := if maxExcessBytes > size then size else maxExcessBytes;
      write, read, excessBytes := 0, 0, 0;
      new;
      ClearedIsEmpty(buffer[..size]);
    }

    method GetAvailableReadData() returns (n: nat)
      requires Valid()
      ensures n == ReadSpace(write, read, size) == |Readable(View())|
    {
      n := ((write + size) - read) % size;
      ModIsRemainder((write + size) - read, size);
    }

    method AvailableWriteSpace() returns (n: nat)
      requires Valid()
      ensures n == WriteSpace(write, read, size) == size - 1 - |Readable(View())|
    {
      SpacesSumToSizeMinusOne(write, read, 0, size);
      n := ((read + size) - write - 1) % size;
      ModIsRemainder((read + size) - write - 1, size);
    }

    /** The amount arrives as a 32-bit integer. */
    method IncrementWrite(amount: nat)
      requires Valid()
      modifies this`write
      ensures Valid() && write == Advance(old(write), amount % TWO_TO_THE_32, 0, size)
    {
      ModIsRemainder(write + amount % TWO_TO_THE_32, size);
      write := (write + amount % TWO_TO_THE_32) % size;
    }

    /** The amount arrives as a 32-bit integer. */
    method IncrementRead(amount: nat)
      requires Valid()
      modifies this`read
      ensures Valid() && View() == Drop32(old(View()), amount)
    {
      ModIsRemainder(read + amount % TWO_TO_THE_32, size);
      read := (read + amount % TWO_TO_THE_32) % size;
    }

    method Clear()
      requires Valid()
      modifies this`write, this`read
      ensures Valid() && View() == Ring(old(View()).cells, 0, 0)
    {
      write, read := 0, 0;
    }

    /** Reserves `amount` contiguous bytes from the write pointer on, without moving it. */
    method GetFreeElement(amount: nat) returns (result: ReturnValue, writePointer: Option<nat>)
      requires Valid()
      modifies this`excessBytes
      ensures Valid()
      ensures result == if AcceptsReservation(Mode(), View(), old(excessBytes), amount) then OK else FAILED
      ensures result == OK <==>
              && (overwriteOld || |Readable(View())| + amount < size)
              && (size - write < amount ==> amount - (size - write) + old(excessBytes) <= maxExcessBytes)
      ensures writePointer == if result == OK then Some(write) else None
      ensures excessBytes == if result == OK then ExcessAfterReservation(size, write, old(excessBytes), amount)
                             else old(excessBytes)
      ensures result == OK ==> write + amount <= size + maxExcessBytes <= buffer.Length
    {
      HasRoomIff(Mode(), View(), amount);
      var space := AvailableWriteSpace();
      if space >= amount || overwriteOld {
        var amountTillWrap := size - write;
        if amountTillWrap < amount {
          if amount - amountTillWrap + excessBytes > maxExcessBytes {
            return FAILED, None;
          }
          excessBytes := amount - amountTillWrap;
        }
        return OK, Some(write);
      } else {
        return FAILED, None;
      }
    }

    method MoveExcessBytesToStart()
      requires Valid()
      modifies this`excessBytes, buffer
      ensures Valid() && excessBytes == 0
      ensures buffer[..] == ExcessMoved(old(buffer[..]), size, old(excessBytes))
    {
      if excessBytes > 0 {
        CopyBytes(buffer, 0, buffer, size, excessBytes);
        excessBytes := 0;
      }
    }

    method ConfirmBytesWritten(amount: nat)
      requires Valid()
      modifies this`excessBytes, this`write, buffer
      ensures Valid() && excessBytes == 0
      ensures View() == Confirmed(old(buffer[..]), size, old(write), read, old(excessBytes), amount % TWO_TO_THE_32)
    {
      if excessBytes > 0 {
        MoveExcessBytesToStart();
      }
      IncrementWrite(amount);
    }

    method CopyIn(data: array<byte>, amount: nat)
      requires Valid() && data != buffer && amount <= data.Length && amount < size
      modifies buffer
      ensures buffer[..] == Copied(old(buffer[..]), size, write, old(data[..amount]))
    {
      ghost var bytes := data[..amount];
      var amountTillWrap := size - write;
      if amountTillWrap >= amount {
        CopyBytes(buffer, write, data, 0, amount);
      } else {
        assert data[..amountTillWrap] == bytes[..amountTillWrap];
        assert data[amountTillWrap..amount] == bytes[amountTillWrap..];
        CopyBytes(buffer, write, data, 0, amountTillWrap);
        CopyBytes(buffer, 0, data, amountTillWrap, amount - amountTillWrap);
      }
    }

    method CopyOut(data: array<byte>, n: nat)
      requires Valid() && data != buffer && n <= data.Length && n <= size
      modifies data
      ensures data[..] == Filled(old(data[..]), 0, Pieces(buffer[..], size, read, n))
    {
      var amountTillWrap := size - read;
      if amountTillWrap >= n {
        assert buffer[read..read + n] == buffer[..][read..read + n];
        CopyBytes(data, 0, buffer, read, n);
      } else {
        CopyOutWrapped(data, amountTillWrap, n - amountTillWrap);
      }
    }

    /** The two copies out of the end and the start of the ring. */
    method CopyOutWrapped(data: array<byte>, amountTillWrap: nat, rest: nat)
      requires Valid() && data != buffer && amountTillWrap + rest <= data.Length && rest <= size
      requires amountTillWrap == size - read
      modifies data
      ensures data[..] == Filled(old(data[..]), 0, buffer[..][read..size] + buffer[..][..rest])
    {
      ghost var a, b := buffer[..][read..size], buffer[..][..rest];
      FillInTwo(data[..], a, b);
      assert buffer[read..read + amountTillWrap] == a && buffer[0..rest] == b;
      CopyBytes(data, 0, buffer, read, amountTillWrap);
      CopyBytes(data, amountTillWrap, buffer, 0, rest);
    }

    method WriteData(data: array?<byte>, amount: nat) returns (result: ReturnValue)
      requires Valid() && data != buffer
      requires data != null && amount < size ==> amount <= data.Length
      modifies this`write, buffer
      ensures Valid()
      ensures result == if data != null && AcceptsWrite(Mode(), old(View()), amount) then OK else FAILED
      ensures data == null ==> result == FAILED
      ensures data != null && !overwriteOld ==> (result == OK <==> |old(Readable(View()))| + amount < size)
      ensures data != null && overwriteOld ==> (result == OK <==> amount < size)
      ensures result == OK ==> View() == PutAll32(old(View()), old(data[..amount]))
      ensures result == OK && amount < TWO_TO_THE_32 ==>
                && View() == PutAll(old(View()), old(data[..amount]))
                && Readable(View()) == Absorb(old(Readable(View())), old(data[..amount]), size)
      ensures result == FAILED ==> View() == old(View())
    {
      HasRoomIff(Mode(), View(), amount);
      if data == null {
        return FAILED;
      }
      if amount > size - 1 {
        return FAILED;
      }
      var space := AvailableWriteSpace();
      if space >= amount || overwriteOld {
        ghost var before := View();
        ghost var bytes := data[..amount];
        ghost var physical := buffer[..];
        assert physical[..size] == buffer[..size];
        CopiesAreWrite(physical, size, write, read, bytes);
        CopyIn(data, amount);
        assert buffer[..size] == buffer[..][..size];
        IncrementWrite(amount);
        AcceptedWriteIsWholeIff(before, bytes);
        PutAllReadable(before, bytes);
        return OK;
      } else {
        return FAILED;
      }
    }

    method DeleteData(amount: nat, deleteRemaining: bool) returns (result: ReturnValue, trueAmount: Option<nat>)
      requires Valid()
      modifies this`read
      ensures Valid()
      ensures View() == Drop32(old(View()), Taken(old(View()), amount, deleteRemaining))
      ensures result == if amount <= |old(Readable(View()))| || deleteRemaining then OK else FAILED
      ensures result == FAILED ==> trueAmount == None && View() == old(View())
      ensures result == OK ==>
                && trueAmount == Some(if amount <= |old(Readable(View()))| then amount else |old(Readable(View()))|)
                && (trueAmount.value < TWO_TO_THE_32 ==> Readable(View()) == old(Readable(View()))[trueAmount.value..])
      ensures deleteRemaining && |old(Readable(View()))| <= amount && |old(Readable(View()))| < TWO_TO_THE_32 ==>
                Readable(View()) == []
    {
      var availableData := GetAvailableReadData();
      DropReadable(View(), Taken(View(), amount, deleteRemaining));
      DropIsWholeIff(View(), Taken(View(), amount, deleteRemaining));
      ModSmall(read, size);
      var n := amount;
      if availableData < n {
        if deleteRemaining {
          n := availableData;
        } else {
          return FAILED, None;
        }
      }
      trueAmount := Some(n);
      IncrementRead(n);
      return OK, trueAmount;
    }

    method ReadData(data: array<byte>, amount: nat, incrementReadPtr: bool, readRemaining: bool)
      returns (result: ReturnValue, trueAmount: Option<nat>)
      requires Valid() && data != buffer
      requires amount <= |Readable(View())| ==> amount <= data.Length
      requires amount > |Readable(View())| && readRemaining ==> |Readable(View())| <= data.Length
      modifies this`read, data
      ensures Valid()
      ensures View() == if incrementReadPtr then Drop32(old(View()), Taken(old(View()), amount, readRemaining))
                        else old(View())
      ensures result == if amount <= |old(Readable(View()))| || readRemaining then OK else FAILED
      ensures result == FAILED ==> trueAmount == None && data[..] == old(data[..]) && View() == old(View())
      ensures result == OK ==>
                && trueAmount == Some(if amount <= |old(Readable(View()))| then amount else |old(Readable(View()))|)
                && trueAmount.value <= data.Length
                && data[..trueAmount.value] == old(Readable(View()))[..trueAmount.value]
                && data[trueAmount.value..] == old(data[trueAmount.value..])
                && (incrementReadPtr && trueAmount.value < TWO_TO_THE_32 ==>
                      Readable(View()) == old(Readable(View()))[trueAmount.value..])
    {
      ghost var q := Readable(View());
      var availableData := GetAvailableReadData();
      var n := amount;
      if availableData < n {
        if readRemaining {
          n := availableData;
        } else {
          ModSmall(read, size);
          return FAILED, None;
        }
      }
      trueAmount := Some(n);
      ReadableInPieces(buffer[..], size, write, read, n);
      assert buffer[..][..size] == buffer[..size];
      FilledFront(data[..], Pieces(buffer[..], size, read, n));
      CopyOut(data, n);
      assert data[..][..n] == data[..n] && data[..][n..] == data[n..];
      assert data[..n] == q[..n];
      if incrementReadPtr {
        var _, _ := DeleteData(n, readRemaining);
      }
      return OK, trueAmount;
    }
  }

  /** The way a client writes contiguously: reserve, fill through the returned pointer, confirm. */
  method ReserveFillConfirm(rb: SimpleRingBuffer, data: array<byte>) returns (result: ReturnValue)
    requires rb.Valid() && rb.excessBytes == 0 && data != rb.buffer
    modifies rb, rb.buffer
    ensures rb.Valid() && rb.excessBytes == 0
    ensures result == OK || result == FAILED
    ensures result == OK <==>
            && (rb.overwriteOld || |old(Readable(rb.View()))| + data.Length < rb.size)
            && old(rb.write) + data.Length <= rb.size + rb.maxExcessBytes
    ensures rb.View() == if result == OK then PutAll32(old(rb.View()), old(data[..])) else old(rb.View())
    ensures result == OK && data.Length < TWO_TO_THE_32 ==> rb.View() == PutAll(old(rb.View()), old(data[..]))
  {
    var r, p := rb.GetFreeElement(data.Length);
    result := r;
    if r == OK {
      ghost var physical := rb.buffer[..];
      PutAll32Iff(rb.View(), data[..]);
      TruncatedIff(data.Length);
      ReserveFillConfirmIsWrite(physical, rb.size, rb.write, rb.read, data[..]);
      CopyBytes(rb.buffer, p.value, data, 0, data.Length);
      assert rb.buffer[..] == Filled(physical, rb.write, data[..]);
      rb.ConfirmBytesWritten(data.Length);
    }
  }
}
