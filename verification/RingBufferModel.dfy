/** Pointer arithmetic of the ring buffers, and what a byte ring means.

    `PutAll` is the reference: bytes enter one at a time, each at the write pointer.  `Absorb` is the
    closed form of its effect on the readable bytes, in which no pointer occurs. */
module RingBufferModel {
  import opened Serialization

  // ---------- pointers in [start, start + size) ----------

  predicate InRange(p: nat, start: nat, size: nat) {
    start <= p < start + size
  }

  /** The remainder, by repeated subtraction. */
  function Mod(x: nat, size: nat): (r: nat)
    requires size > 0
    ensures r < size && r <= x
  {
    if x < size then x else Mod(x - size, size)
  }

  lemma {:induction false} ModIsRemainder(x: nat, size: nat)
    requires size > 0
    ensures x % size == Mod(x, size)
  {
    if x >= size {
      ModIsRemainder(x - size, size);
      var q := (x - size) / size;
      assert x == (q + 1) * size + (x - size) % size;
      RemainderIsUnique(x, size, q + 1, (x - size) % size);
    }
  }

  lemma RemainderIsUnique(x: nat, size: nat, q: nat, r: nat)
    requires r < size && x == q * size + r
    ensures x % size == r
  {
    var d := x / size - q;
    assert d >= 1 ==> d * size >= size;
    assert d <= -1 ==> d * size <= 0 - size;
    assert x == (x / size) * size + x % size;
    assert d * size == r - x % size;
  }

  function ReadSpace(write: nat, read: nat, size: nat): nat
    requires size > 0 && read <= write + size
  {
    Mod((write + size) - read, size)
  }

  function WriteSpace(write: nat, read: nat, size: nat): nat
    requires size > 0 && write < read + size
  {
    Mod((read + size) - write - 1, size)
  }

  function Advance(p: nat, amount: nat, start: nat, size: nat): (r: nat)
    requires size > 0 && start <= p
    ensures InRange(r, start, size)
  {
    Mod(p + amount - start, size) + start
  }

  lemma ModSmall(x: nat, size: nat)
    requires size > 0
    ensures x < size ==> Mod(x, size) == x
    ensures size <= x < 2 * size ==> Mod(x, size) == x - size
    ensures 2 * size <= x < 3 * size ==> Mod(x, size) == x - 2 * size
  {
    if x >= size { assert Mod(x, size) == Mod(x - size, size); }
  }

  lemma {:induction false} ModAdd(x: nat, y: nat, size: nat)
    requires size > 0
    ensures Mod(Mod(x, size) + y, size) == Mod(x + y, size)
  {
    if x >= size { ModAdd(x - size, y, size); }
  }

  /** Readable data and free space add up to one less than the size. */
  lemma SpacesSumToSizeMinusOne(write: nat, read: nat, start: nat, size: nat)
    requires InRange(write, start, size) && InRange(read, start, size)
    ensures ReadSpace(write, read, size) + WriteSpace(write, read, size) == size - 1
  {
    ModSmall(write + size - read, size);
    ModSmall(read + size - write - 1, size);
  }

  /** Advancing the write pointer moves the readable amount up by as much, modulo the size. */
  lemma ReadSpaceAfterWrite(write: nat, read: nat, amount: nat, start: nat, size: nat)
    requires InRange(write, start, size) && InRange(read, start, size)
    ensures ReadSpace(Advance(write, amount, start, size), read, size)
         == Mod(ReadSpace(write, read, size) + amount, size)
  {
    var w := write - start;
    ModSmall(write + size - read, size);
    ModAdd(w + amount, start + size - read, size);
    ModAdd(write + size - read, amount, size);
    assert w + amount + (start + size - read) == write + size - read + amount;
  }

  lemma ReadSpaceAfterRead(write: nat, read: nat, amount: nat, start: nat, size: nat)
    requires InRange(write, start, size) && InRange(read, start, size)
    requires amount <= ReadSpace(write, read, size)
    ensures ReadSpace(write, Advance(read, amount, start, size), size)
         == ReadSpace(write, read, size) - amount
  {
    var next := Advance(read, amount, start, size);
    ModSmall(write + size - read, size);
    ModSmall(read + amount - start, size);
    ModSmall(write + size - next, size);
  }

  // ---------- several readers ----------

  datatype Pointers = Pointers(start: nat, size: nat, write: nat, readers: seq<nat>)

  predicate PointersInRange(p: Pointers) {
    && InRange(p.write, p.start, p.size)
    && forall n :: 0 <= n < |p.readers| ==> InRange(p.readers[n], p.start, p.size)
  }

  function Unread(p: Pointers, n: nat): nat
    requires PointersInRange(p) && n < |p.readers|
  {
    ReadSpace(p.write, p.readers[n], p.size)
  }

  function Free(p: Pointers, n: nat): nat
    requires PointersInRange(p) && n < |p.readers|
  {
    WriteSpace(p.write, p.readers[n], p.size)
  }

  function AfterWrite(p: Pointers, amount: nat): Pointers
    requires PointersInRange(p)
  {
    p.(write := Advance(p.write, amount, p.start, p.size))
  }

  /** A write of at most size - 1 bytes leaves reader n with all its unread bytes followed by the new
      ones exactly when the write fits in the free space that reader n sees. */
  lemma WriteKeepsReaderIff(p: Pointers, n: nat, amount: nat)
    requires PointersInRange(p) && n < |p.readers| && amount < p.size
    ensures Unread(AfterWrite(p, amount), n) == Unread(p, n) + amount <==> amount <= Free(p, n)
  {
    ReadSpaceAfterWrite(p.write, p.readers[n], amount, p.start, p.size);
    SpacesSumToSizeMinusOne(p.write, p.readers[n], p.start, p.size);
    ModSmall(Unread(p, n) + amount, p.size);
  }

  /** A write that is admitted by looking at reader 0 alone overruns no reader that holds at most as
      much unread data as reader 0. */
  lemma AdmittedWriteOverrunsNoReaderAhead(p: Pointers, n: nat, amount: nat)
    requires PointersInRange(p) && n < |p.readers|
    requires amount <= Free(p, 0)
    requires Unread(p, n) <= Unread(p, 0)
    ensures Unread(AfterWrite(p, amount), n) == Unread(p, n) + amount < p.size
  {
    SpacesSumToSizeMinusOne(p.write, p.readers[0], p.start, p.size);
    SpacesSumToSizeMinusOne(p.write, p.readers[n], p.start, p.size);
    WriteKeepsReaderIff(p, n, amount);
  }

  // ---------- the byte ring ----------

  datatype Ring = Ring(cells: seq<byte>, write: nat, read: nat)

  predicate WellFormed(r: Ring) {
    r.write < |r.cells| && r.read < |r.cells|
  }

  function Available(r: Ring): (n: nat)
    requires WellFormed(r)
    ensures n < |r.cells|
  {
    ReadSpace(r.write, r.read, |r.cells|)
  }

  function Cell(r: Ring, i: nat): byte
    requires WellFormed(r)
  {
    r.cells[Mod(r.read + i, |r.cells|)]
  }

  /** The bytes a reader gets, oldest first. */
  function Readable(r: Ring): (q: seq<byte>)
    requires WellFormed(r)
    ensures |q| == Available(r)
  {
    seq(Available(r), i requires 0 <= i => Cell(r, i))
  }

  function PutByte(r: Ring, b: byte): (r': Ring)
    requires WellFormed(r)
    ensures WellFormed(r') && |r'.cells| == |r.cells| && r'.read == r.read
  {
    Ring(r.cells[r.write := b], Advance(r.write, 1, 0, |r.cells|), r.read)
  }

  function PutAll(r: Ring, data: seq<byte>): (r': Ring)
    requires WellFormed(r)
    ensures WellFormed(r') && |r'.cells| == |r.cells| && r'.read == r.read
    decreases |data|
  {
    if data == [] then r else PutAll(PutByte(r, data[0]), data[1..])
  }

  function Drop(r: Ring, n: nat): (r': Ring)
    requires WellFormed(r)
    ensures WellFormed(r')
  {
    r.(read := Advance(r.read, n, 0, |r.cells|))
  }

  function Last(s: seq<byte>, n: nat): (t: seq<byte>)
    requires n <= |s|
    ensures |t| == n
  {
    s[|s| - n..]
  }

  /** What `data` does to readable bytes `q` in a ring of `size` cells. */
  function Absorb(q: seq<byte>, data: seq<byte>, size: nat): (r: seq<byte>)
    requires size > 0
    ensures |r| == Mod(|q| + |data|, size)
  {
    Last(q + data, Mod(|q| + |data|, size))
  }

  lemma Associative(a: seq<byte>, b: seq<byte>, c: seq<byte>)
    ensures (a + b) + c == a + (b + c)
  {
  }

  lemma LastOfLast(s: seq<byte>, t: seq<byte>, m: nat, k: nat)
    requires m <= |s| && k <= m + |t|
    ensures Last(Last(s, m) + t, k) == Last(s + t, k)
  {
  }

  lemma AbsorbAfterLast(qa: seq<byte>, b: seq<byte>, m: nat, k: nat, size: nat)
    requires size > 0 && m <= |qa| && k == Mod(m + |b|, size)
    ensures k <= m + |b| && Absorb(Last(qa, m), b, size) == Last(qa + b, k)
  {
    LastOfLast(qa, b, m, k);
  }

  /** Splitting a write into chunks does not change its effect. */
  lemma AbsorbInChunks(q: seq<byte>, a: seq<byte>, b: seq<byte>, size: nat)
    requires size > 0
    ensures Absorb(Absorb(q, a, size), b, size) == Absorb(q, a + b, size)
  {
    var qa := q + a;
    var m := Mod(|qa|, size);
    var k := Mod(m + |b|, size);
    AbsorbAfterLast(qa, b, m, k, size);
    ModAdd(|qa|, |b|, size);
    Associative(q, a, b);
  }

  lemma AbsorbWithinSize(q: seq<byte>, data: seq<byte>, size: nat)
    requires |q| + |data| < size
    ensures Absorb(q, data, size) == q + data
  {
    ModSmall(|q| + |data|, size);
  }

  lemma PutByteReadable(r: Ring, b: byte)
    requires WellFormed(r)
    ensures Readable(PutByte(r, b)) == Absorb(Readable(r), [b], |r.cells|)
  {
    var size := |r.cells|;
    var r' := PutByte(r, b);
    var n := Available(r);
    ReadSpaceAfterWrite(r.write, r.read, 1, 0, size);
    ModSmall(n + 1, size);
    ModSmall(r.write + size - r.read, size);
    forall i | 0 <= i < Available(r')
      ensures Readable(r')[i] == (Readable(r) + [b])[i]
    {
      ModSmall(r.read + i, size);
    }
    if n + 1 < size {
      assert Last(Readable(r) + [b], n + 1) == Readable(r) + [b];
    }
  }

  /** The closed form: after `data`, the readable bytes are the last (|q| + |data|) mod size bytes of
      q ++ data, however long `data` is. */
  lemma {:induction false} PutAllReadable(r: Ring, data: seq<byte>)
    requires WellFormed(r)
    ensures Readable(PutAll(r, data)) == Absorb(Readable(r), data, |r.cells|)
    decreases |data|
  {
    var size := |r.cells|;
    var q := Readable(r);
    if data == [] {
      AbsorbWithinSize(q, data, size);
      assert q + data == q;
    } else {
      var b, rest := data[0], data[1..];
      var q1 := Readable(PutByte(r, b));
      assert q1 == Absorb(q, [b], size) by { PutByteReadable(r, b); }
      assert Readable(PutAll(r, data)) == Absorb(q1, rest, size) by { PutAllReadable(PutByte(r, b), rest); }
      assert Absorb(q1, rest, size) == Absorb(q, data, size) by {
        AbsorbInChunks(q, [b], rest, size);
        assert [b] + rest == data;
      }
    }
  }

  lemma AdvanceThenStep(p: nat, n: nat, i: nat, size: nat)
    requires size > 0
    ensures Mod(Advance(p, n, 0, size) + i, size) == Mod(p + (n + i), size)
  {
    ModAdd(p + n, i, size);
    assert p + n + i == p + (n + i);
  }

  lemma DropReadable(r: Ring, n: nat)
    requires WellFormed(r) && n <= Available(r)
    ensures Readable(Drop(r, n)) == Readable(r)[n..]
  {
    var size := |r.cells|;
    var r' := Drop(r, n);
    ReadSpaceAfterRead(r.write, r.read, n, 0, size);
    forall i | 0 <= i < Available(r')
      ensures Cell(r', i) == Cell(r, n + i)
    {
      AdvanceThenStep(r.read, n, i, size);
    }
    assert Readable(r') == Readable(r)[n..];
  }

  // ---------- block copies do what byte-wise writing does ----------

  lemma {:induction false} PutAllInChunks(r: Ring, a: seq<byte>, b: seq<byte>)
    requires WellFormed(r)
    ensures PutAll(r, a + b) == PutAll(PutAll(r, a), b)
    decreases |a|
  {
    if a == [] {
      assert a + b == b;
    } else {
      assert (a + b)[1..] == a[1..] + b;
      PutAllInChunks(PutByte(r, a[0]), a[1..], b);
    }
  }

  /** A buffer after `data` has been copied to position `at`. */
  function Filled(buffer: seq<byte>, at: nat, data: seq<byte>): (p: seq<byte>)
    requires at + |data| <= |buffer|
    ensures |p| == |buffer|
  {
    seq(|buffer|, i requires 0 <= i < |buffer| => if at <= i < at + |data| then data[i - at] else buffer[i])
  }

  /** A write that does not run past the last cell is one copy. */
  lemma {:induction false} PutAllFits(r: Ring, data: seq<byte>)
    requires WellFormed(r) && r.write + |data| <= |r.cells|
    ensures PutAll(r, data).cells == Filled(r.cells, r.write, data)
    decreases |data|
  {
    if |data| == 1 {
      assert data[1..] == [];
    } else if |data| > 1 {
      PutAllFits(PutByte(r, data[0]), data[1..]);
    }
  }

  /** A write that runs past the last cell by at most a whole ring is two copies, the second to the
      first cells; where they overlap the second wins. */
  lemma PutAllWraps(r: Ring, data: seq<byte>)
    requires WellFormed(r) && |r.cells| < r.write + |data| <= 2 * |r.cells|
    ensures var k := |r.cells| - r.write;
            PutAll(r, data).cells == Filled(Filled(r.cells, r.write, data[..k]), 0, data[k..])
  {
    var k := |r.cells| - r.write;
    PutAllInChunks(r, data[..k], data[k..]);
    assert data[..k] + data[k..] == data;
    PutAllFits(r, data[..k]);
    PutAllWrite(r, data[..k]);
    ModSmall(|r.cells|, |r.cells|);
    PutAllFits(PutAll(r, data[..k]), data[k..]);
  }

  /** Writing moves the write pointer by the number of bytes, modulo the size. */
  lemma {:induction false} PutAllWrite(r: Ring, data: seq<byte>)
    requires WellFormed(r)
    ensures PutAll(r, data).write == Mod(r.write + |data|, |r.cells|)
    decreases |data|
  {
    if data == [] {
      ModSmall(r.write, |r.cells|);
    } else {
      PutAllWrite(PutByte(r, data[0]), data[1..]);
      AdvanceThenStep(r.write, 1, |data| - 1, |r.cells|);
    }
  }
}
