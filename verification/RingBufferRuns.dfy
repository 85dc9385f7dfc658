/** Whole runs of a byte ring: what is readable after any sequence of calls, and how a contiguous
    reservation past the last cell amounts to a write. */
module RingBufferRuns {
  import opened Serialization
  import opened RingBufferModel
  import opened RingBufferAmounts

  datatype Config = Config(overwriteOld: bool, maxExcess: nat)

  /** The calls that can change a ring.  `Reserve` is a reservation of |data| bytes that is filled
      with `data` and confirmed.  A read that moves the read pointer is a `Delete`. */
  datatype Op =
    | Write(data: seq<byte>)
    | Reserve(data: seq<byte>)
    | Delete(amount: nat, remaining: bool)
    | Clear

  predicate HasRoom(cfg: Config, r: Ring, amount: nat)
    requires WellFormed(r)
  {
    WriteSpace(r.write, r.read, |r.cells|) >= amount || cfg.overwriteOld
  }

  predicate AcceptsWrite(cfg: Config, r: Ring, amount: nat)
    requires WellFormed(r)
  {
    amount < |r.cells| && HasRoom(cfg, r, amount)
  }

  predicate AcceptsReservation(cfg: Config, r: Ring, excess: nat, amount: nat)
    requires WellFormed(r)
  {
    && HasRoom(cfg, r, amount)
    && (|r.cells| - r.write < amount ==> amount - (|r.cells| - r.write) + excess <= cfg.maxExcess)
  }

  /** How many bytes a read or delete of `amount` takes. */
  function Taken(r: Ring, amount: nat, remaining: bool): (n: nat)
    requires WellFormed(r)
    ensures n <= Available(r)
  {
    if amount <= Available(r) then amount else if remaining then Available(r) else 0
  }

  /** There is room for exactly as many bytes as keep the contents shorter than the ring. */
  lemma HasRoomIff(cfg: Config, r: Ring, amount: nat)
    requires WellFormed(r)
    ensures HasRoom(cfg, r, amount) <==> cfg.overwriteOld || |Readable(r)| + amount < |r.cells|
  {
    SpacesSumToSizeMinusOne(r.write, r.read, 0, |r.cells|);
  }

  /** A ring with the bytes written and the bytes taken since construction or the last clear. */
  datatype Logged = Logged(ring: Ring, written: seq<byte>, taken: seq<byte>)

  function Step(cfg: Config, s: Logged, op: Op): (s': Logged)
    requires WellFormed(s.ring)
    ensures WellFormed(s'.ring) && |s'.ring.cells| == |s.ring.cells|
  {
    match op
    case Write(data) =>
      if AcceptsWrite(cfg, s.ring, |data|)
      then Logged(PutAll32(s.ring, data), s.written + data, s.taken) else s
    case Reserve(data) =>
      if AcceptsReservation(cfg, s.ring, 0, |data|)
      then Logged(PutAll32(s.ring, data), s.written + data, s.taken) else s
    case Delete(amount, remaining) =>
      var n := Taken(s.ring, amount, remaining);
      Logged(Drop32(s.ring, n), s.written, s.taken + Readable(s.ring)[..n])
    case Clear =>
      Logged(Ring(s.ring.cells, 0, 0), [], [])
  }

  function Run(cfg: Config, s: Logged, ops: seq<Op>): (s': Logged)
    requires WellFormed(s.ring)
    ensures WellFormed(s'.ring)
    decreases |ops|
  {
    if ops == [] then s else Run(cfg, Step(cfg, s, ops[0]), ops[1..])
  }

  /** The amount that reaches a pointer is not changed by being cut to 32 bits. */
  predicate Fits32(cfg: Config, r: Ring, op: Op)
    requires WellFormed(r)
  {
    match op
    case Write(data) => AcceptsWrite(cfg, r, |data|) ==> |data| < TWO_TO_THE_32
    case Reserve(data) => AcceptsReservation(cfg, r, 0, |data|) ==> |data| < TWO_TO_THE_32
    case Delete(amount, remaining) => Taken(r, amount, remaining) < TWO_TO_THE_32
    case Clear => true
  }

  predicate RunFits32(cfg: Config, s: Logged, ops: seq<Op>)
    requires WellFormed(s.ring)
    decreases |ops|
  {
    ops == [] || (Fits32(cfg, s.ring, ops[0]) && RunFits32(cfg, Step(cfg, s, ops[0]), ops[1..]))
  }

  /** That is so for every run if the ring and its excess bytes have less than 2^32 bytes. */
  lemma {:induction false} SmallRingFits32(cfg: Config, s: Logged, ops: seq<Op>)
    requires WellFormed(s.ring) && |s.ring.cells| + cfg.maxExcess < TWO_TO_THE_32
    ensures RunFits32(cfg, s, ops)
    decreases |ops|
  {
    if ops != [] {
      SmallRingFits32(cfg, Step(cfg, s, ops[0]), ops[1..]);
    }
  }

  /** What is readable is the most recent part of what was written. */
  ghost predicate ReadsLastWritten(s: Logged) {
    && WellFormed(s.ring)
    && Available(s.ring) <= |s.written|
    && Readable(s.ring) == Last(s.written, Available(s.ring))
  }

  /** Nothing written is missing: what was taken and what is readable make up what was written. */
  ghost predicate Lossless(s: Logged) {
    WellFormed(s.ring) && s.taken + Readable(s.ring) == s.written
  }

  lemma WriteKeepsLastWritten(s: Logged, data: seq<byte>)
    requires ReadsLastWritten(s) && |data| < TWO_TO_THE_32
    ensures ReadsLastWritten(Logged(PutAll32(s.ring, data), s.written + data, s.taken))
  {
    PutAll32Small(s.ring, data);
    var m := Available(s.ring);
    PutAllReadable(s.ring, data);
    LastOfLast(s.written, data, m, Mod(m + |data|, |s.ring.cells|));
  }

  lemma TakingKeepsLastWritten(s: Logged, n: nat)
    requires ReadsLastWritten(s) && n <= Available(s.ring) && n < TWO_TO_THE_32
    ensures ReadsLastWritten(Logged(Drop32(s.ring, n), s.written, s.taken + Readable(s.ring)[..n]))
  {
    DropIsWholeIff(s.ring, n);
    DropReadable(s.ring, n);
  }

  lemma FittingWriteAppends(r: Ring, data: seq<byte>)
    requires WellFormed(r) && |data| <= WriteSpace(r.write, r.read, |r.cells|)
    ensures Readable(PutAll(r, data)) == Readable(r) + data
  {
    SpacesSumToSizeMinusOne(r.write, r.read, 0, |r.cells|);
    AbsorbWithinSize(Readable(r), data, |r.cells|);
    PutAllReadable(r, data);
  }

  lemma TakingKeepsLossless(s: Logged, n: nat)
    requires Lossless(s) && n <= Available(s.ring) && n < TWO_TO_THE_32
    ensures Lossless(Logged(Drop32(s.ring, n), s.written, s.taken + Readable(s.ring)[..n]))
  {
    DropIsWholeIff(s.ring, n);
    DropReadable(s.ring, n);
    Associative(s.taken, Readable(s.ring)[..n], Readable(s.ring)[n..]);
    assert Readable(s.ring)[..n] + Readable(s.ring)[n..] == Readable(s.ring);
  }

  lemma WriteKeepsLossless(s: Logged, data: seq<byte>)
    requires Lossless(s) && |data| <= WriteSpace(s.ring.write, s.ring.read, |s.ring.cells|)
    requires |data| < TWO_TO_THE_32
    ensures Lossless(Logged(PutAll32(s.ring, data), s.written + data, s.taken))
  {
    PutAll32Small(s.ring, data);
    FittingWriteAppends(s.ring, data);
    Associative(s.taken, Readable(s.ring), data);
  }

  lemma ClearedIsEmpty(cells: seq<byte>)
    requires cells != []
    ensures Readable(Ring(cells, 0, 0)) == []
  {
    ModSmall(|cells|, |cells|);
  }

  lemma StepKeepsLastWritten(cfg: Config, s: Logged, op: Op)
    requires ReadsLastWritten(s) && Fits32(cfg, s.ring, op)
    ensures ReadsLastWritten(Step(cfg, s, op))
  {
    match op
    case Write(data) =>
      if AcceptsWrite(cfg, s.ring, |data|) { WriteKeepsLastWritten(s, data); }
    case Reserve(data) =>
      if AcceptsReservation(cfg, s.ring, 0, |data|) { WriteKeepsLastWritten(s, data); }
    case Delete(amount, remaining) => TakingKeepsLastWritten(s, Taken(s.ring, amount, remaining));
    case Clear => ClearedIsEmpty(s.ring.cells);
  }

  lemma StepKeepsLossless(cfg: Config, s: Logged, op: Op)
    requires Lossless(s) && !cfg.overwriteOld && Fits32(cfg, s.ring, op)
    ensures Lossless(Step(cfg, s, op))
  {
    match op
    case Write(data) =>
      if AcceptsWrite(cfg, s.ring, |data|) { WriteKeepsLossless(s, data); }
    case Reserve(data) =>
      if AcceptsReservation(cfg, s.ring, 0, |data|) { WriteKeepsLossless(s, data); }
    case Delete(amount, remaining) =>
      TakingKeepsLossless(s, Taken(s.ring, amount, remaining));
    case Clear => ClearedIsEmpty(s.ring.cells);
  }

  /** After any run from an empty ring, in either mode, the readable bytes are the last
      (write - read) mod size bytes of everything written since construction or the last clear. */
  lemma {:induction false} RunReadsLastWritten(cfg: Config, s: Logged, ops: seq<Op>)
    requires ReadsLastWritten(s) && RunFits32(cfg, s, ops)
    ensures ReadsLastWritten(Run(cfg, s, ops))
    decreases |ops|
  {
    if ops != [] {
      StepKeepsLastWritten(cfg, s, ops[0]);
      RunReadsLastWritten(cfg, Step(cfg, s, ops[0]), ops[1..]);
    }
  }

  /** Without overwrite a ring is a lossless queue over any run. */
  lemma {:induction false} RunIsLosslessWithoutOverwrite(cfg: Config, s: Logged, ops: seq<Op>)
    requires Lossless(s) && !cfg.overwriteOld && RunFits32(cfg, s, ops)
    ensures Lossless(Run(cfg, s, ops))
    decreases |ops|
  {
    if ops != [] {
      StepKeepsLossless(cfg, s, ops[0]);
      RunIsLosslessWithoutOverwrite(cfg, Step(cfg, s, ops[0]), ops[1..]);
    }
  }

  /** Both results for any run at all of a ring that has less than 2^32 bytes with its excess bytes. */
  lemma SmallRingKeepsBoth(cfg: Config, s: Logged, ops: seq<Op>)
    requires WellFormed(s.ring) && |s.ring.cells| + cfg.maxExcess < TWO_TO_THE_32
    ensures ReadsLastWritten(s) ==> ReadsLastWritten(Run(cfg, s, ops))
    ensures Lossless(s) && !cfg.overwriteOld ==> Lossless(Run(cfg, s, ops))
  {
    SmallRingFits32(cfg, s, ops);
    if ReadsLastWritten(s) { RunReadsLastWritten(cfg, s, ops); }
    if Lossless(s) && !cfg.overwriteOld { RunIsLosslessWithoutOverwrite(cfg, s, ops); }
  }

  /** Both invariants hold of a fresh ring, whatever its cells contain. */
  lemma FreshRingIsEmpty(cells: seq<byte>)
    requires cells != []
    ensures ReadsLastWritten(Logged(Ring(cells, 0, 0), [], []))
    ensures Lossless(Logged(Ring(cells, 0, 0), [], []))
  {
    ClearedIsEmpty(cells);
  }

  /** A write that is accepted whole is also accepted in two chunks, and the ring ends up the same;
      without overwrite two accepted chunks are also accepted as one write. */
  lemma WriteInChunks(cfg: Config, r: Ring, a: seq<byte>, b: seq<byte>)
    requires WellFormed(r)
    ensures PutAll(PutAll(r, a), b) == PutAll(r, a + b)
    ensures AcceptsWrite(cfg, r, |a + b|) ==> AcceptsWrite(cfg, r, |a|) && AcceptsWrite(cfg, PutAll(r, a), |b|)
    ensures !cfg.overwriteOld && AcceptsWrite(cfg, r, |a|) && AcceptsWrite(cfg, PutAll(r, a), |b|)
            ==> AcceptsWrite(cfg, r, |a + b|)
  {
    var size := |r.cells|;
    PutAllInChunks(r, a, b);
    SpacesSumToSizeMinusOne(r.write, r.read, 0, size);
    SpacesSumToSizeMinusOne(PutAll(r, a).write, r.read, 0, size);
    PutAllReadable(r, a);
    ModSmall(Available(r) + |a|, size);
  }

  // ---------- block copies ----------

  /** Copying into the ring's part of a buffer is copying into the ring. */
  lemma FillWithinRing(physical: seq<byte>, size: nat, at: nat, data: seq<byte>)
    requires at + |data| <= size <= |physical|
    ensures Filled(physical, at, data)[..size] == Filled(physical[..size], at, data)
  {
  }

  /** What writeData leaves in the buffer: one copy, or one up to the last cell and one from the
      first cell on. */
  function Copied(physical: seq<byte>, size: nat, write: nat, data: seq<byte>): (p: seq<byte>)
    requires write < size && |data| < size <= |physical|
    ensures |p| == |physical|
  {
    var k := size - write;
    if k >= |data| then Filled(physical, write, data)
    else Filled(Filled(physical, write, data[..k]), 0, data[k..])
  }

  lemma CopiesAreWrite(physical: seq<byte>, size: nat, write: nat, read: nat, data: seq<byte>)
    requires write < size && read < size && |data| < size <= |physical|
    ensures Copied(physical, size, write, data)[..size] == PutAll(Ring(physical[..size], write, read), data).cells
  {
    var ring := Ring(physical[..size], write, read);
    var k := size - write;
    if k >= |data| {
      PutAllFits(ring, data);
      FillWithinRing(physical, size, write, data);
    } else {
      PutAllWraps(ring, data);
      FillWithinRing(physical, size, write, data[..k]);
      FillWithinRing(Filled(physical, write, data[..k]), size, 0, data[k..]);
    }
  }

  /** The first n readable bytes lie in at most two pieces of the buffer. */
  function Pieces(physical: seq<byte>, size: nat, read: nat, n: nat): (s: seq<byte>)
    requires read < size <= |physical| && n <= size
    ensures |s| == n
  {
    if size - read >= n then physical[read..read + n]
    else physical[read..size] + physical[..n - (size - read)]
  }

  lemma ReadableInPieces(physical: seq<byte>, size: nat, write: nat, read: nat, n: nat)
    requires write < size && read < size <= |physical|
    requires n <= Available(Ring(physical[..size], write, read))
    ensures Readable(Ring(physical[..size], write, read))[..n] == Pieces(physical, size, read, n)
  {
    var ring := Ring(physical[..size], write, read);
    forall i | 0 <= i < n
      ensures Cell(ring, i) == Pieces(physical, size, read, n)[i]
    {
      ModSmall(read + i, size);
    }
  }

  lemma FilledFront(target: seq<byte>, data: seq<byte>)
    requires |data| <= |target|
    ensures Filled(target, 0, data)[..|data|] == data && Filled(target, 0, data)[|data|..] == target[|data|..]
  {
  }

  lemma FillInTwo(target: seq<byte>, a: seq<byte>, b: seq<byte>)
    requires |a| + |b| <= |target|
    ensures Filled(Filled(target, 0, a), |a|, b) == Filled(target, 0, a + b)
  {
  }

  // ---------- reservations ----------

  /** The buffer after the excess bytes have been copied to the first cells. */
  function ExcessMoved(physical: seq<byte>, size: nat, excess: nat): (p: seq<byte>)
    requires excess <= size && size + excess <= |physical|
    ensures |p| == |physical|
  {
    Filled(physical, 0, physical[size..size + excess])
  }

  function Confirmed(physical: seq<byte>, size: nat, write: nat, read: nat, excess: nat, amount: nat): Ring
    requires 0 < size && excess <= size && size + excess <= |physical|
  {
    Ring(ExcessMoved(physical, size, excess)[..size], Advance(write, amount, 0, size), read)
  }

  /** The excess that an accepted reservation leaves recorded: a reservation that stays within the
      ring does not touch what an earlier one recorded. */
  function ExcessAfterReservation(size: nat, write: nat, excess: nat, amount: nat): nat {
    if size - write < amount then amount + write - size else excess
  }

  ghost predicate ReservationIsWrite(physical: seq<byte>, size: nat, write: nat, read: nat, excess: nat,
                                     data: seq<byte>)
    requires 0 < size && write < size && read < size
    requires excess <= size && size + excess <= |physical| && write + |data| <= |physical|
  {
    Confirmed(Filled(physical, write, data), size, write, read, excess, |data| % TWO_TO_THE_32)
      == PutAll32(Ring(physical[..size], write, read), data)
  }

  /** Reserve, fill, confirm leaves the ring that writing the bytes one at a time would leave, also
      when the amount exceeds the ring size, with the write pointer moved by the amount in 32 bits. */
  lemma ReserveFillConfirmIsWrite(physical: seq<byte>, size: nat, write: nat, read: nat, data: seq<byte>)
    requires write < size && read < size && size <= |physical|
    requires write + |data| <= |physical| && write + |data| <= 2 * size
    ensures ReservationIsWrite(physical, size, write, read,
                               ExcessAfterReservation(size, write, 0, |data|), data)
  {
    var ring := Ring(physical[..size], write, read);
    var filled := Filled(physical, write, data);
    if write + |data| <= size {
      PutAllFits(ring, data);
      FillWithinRing(physical, size, write, data);
      assert ExcessMoved(filled, size, 0) == filled;
    } else {
      var k := size - write;
      PutAllWraps(ring, data);
      assert filled[size..write + |data|] == data[k..];
      assert filled[..size] == Filled(ring.cells, write, data[..k]);
      FillWithinRing(filled, size, 0, data[k..]);
    }
  }

  lemma StaleExcessDamages(size: nat, maxExcess: nat, write: nat, read: nat, stale: nat, amount: nat)
    requires write < size && read < size
    requires 0 < stale <= maxExcess <= size
    requires write + amount <= size
    ensures var zeros: seq<byte> := seq(size + maxExcess, _ => 0);
            !ReservationIsWrite(zeros[size := 1], size, write, read, stale, zeros[..amount])
  {
    var zeros: seq<byte> := seq(size + maxExcess, _ => 0);
    var physical := zeros[size := 1];
    var ring := Ring(physical[..size], write, read);
    assert PutAll(ring, zeros[..amount]).cells[0] == 0 by { PutAllFits(ring, zeros[..amount]); }
    var filled := Filled(physical, write, zeros[..amount]);
    assert filled[size] == 1;
    assert ExcessMoved(filled, size, stale)[0] == 1;
    assert Confirmed(filled, size, write, read, stale, amount % TWO_TO_THE_32).cells[0] == 1;
  }

  /** With a reservation of `amount` bytes accepted while `stale` excess bytes are still recorded from
      an abandoned one, what confirming does is right for all contents if and only if nothing was
      recorded or the new reservation runs past the last cell itself. */
  lemma StaleExcessIff(size: nat, maxExcess: nat, write: nat, read: nat, stale: nat, amount: nat)
    requires write < size && read < size
    requires stale <= maxExcess <= size
    requires write + amount <= size + maxExcess
    ensures (forall physical: seq<byte>, data: seq<byte> | |physical| == size + maxExcess && |data| == amount ::
               ReservationIsWrite(physical, size, write, read,
                                  ExcessAfterReservation(size, write, stale, amount), data))
        <==> (stale == 0 || size - write < amount)
  {
    if stale == 0 || size - write < amount {
      forall physical: seq<byte>, data: seq<byte> | |physical| == size + maxExcess && |data| == amount
        ensures ReservationIsWrite(physical, size, write, read,
                                   ExcessAfterReservation(size, write, stale, amount), data)
      {
        ReserveFillConfirmIsWrite(physical, size, write, read, data);
      }
    } else {
      StaleExcessDamages(size, maxExcess, write, read, stale, amount);
    }
  }
}
