/** The persisted index of the ring store: what serialize writes and what deSerialize recovers. */
module RingStoreCodec {
  import opened Serialization
  import opened RingStoreModel
  import opened RingStoreGeometry

  /** A byte order, and the encoding of the index type at that byte order. */
  datatype Codec<!T> = Codec(endianness: Endianness, info: FieldCodec<T>)

  function Word(n: uint32, e: Endianness): (s: seq<byte>)
    ensures |s| == 4
  {
    Encode(n, 4, e)
  }

  /** Four bytes off the stream, as a 32-bit value. */
  function TakeWord(stream: seq<byte>, e: Endianness): Option<(uint32, seq<byte>)> {
    match Take(stream, 4)
    case None => None
    case Some((bytes, rest)) => Some((Uint32Codec(e).decode(bytes), rest))
  }

  lemma TakeWordEncoded(n: uint32, e: Endianness, rest: seq<byte>)
    ensures TakeWord(Word(n, e) + rest, e) == Some((n, rest))
  {
    Uint32CodecIsLawful(e);
    TakeEncoded(Uint32Codec(e), n, rest);
    assert Uint32Codec(e).encode(n) == Word(n, e);
  }

  // ---------- one record ----------

  function EncodeIndex<T>(c: Codec<T>, i: Index<T>): seq<byte> {
    Word(i.blockStartAddress, c.endianness) + (c.info.encode(i.indexType)
      + (Word(i.size, c.endianness) + Word(i.storedPackets, c.endianness)))
  }

  /** Index::serialize: field after field, until one does not fit. */
  function PutIndex<T>(c: Codec<T>, i: Index<T>, out: seq<byte>, maxSize: nat): (ReturnValue, seq<byte>) {
    var (r1, o1) := Put(out, Word(i.blockStartAddress, c.endianness), maxSize);
    if r1 != OK then (r1, o1) else
      var (r2, o2) := Put(o1, c.info.encode(i.indexType), maxSize);
      if r2 != OK then (r2, o2) else
        var (r3, o3) := Put(o2, Word(i.size, c.endianness), maxSize);
        if r3 != OK then (r3, o3) else Put(o3, Word(i.storedPackets, c.endianness), maxSize)
  }

  /** Index::deSerialize into `old`: field after field, until the stream ends. */
  function TakeIndex<T>(c: Codec<T>, was: Index<T>, stream: seq<byte>): (r: (ReturnValue, Index<T>, seq<byte>))
    ensures r.0 == if |stream| >= RecordSize(c.info.width) then OK else STREAM_TOO_SHORT
    ensures r.0 == OK ==> |r.2| == |stream| - RecordSize(c.info.width)
  {
    match TakeWord(stream, c.endianness)
    case None => (STREAM_TOO_SHORT, was, stream)
    case Some((address, s1)) =>
      var i1 := was.(blockStartAddress := address);
      match Take(s1, c.info.width)
      case None => (STREAM_TOO_SHORT, i1, s1)
      case Some((info, s2)) =>
        var i2 := i1.(indexType := c.info.decode(info));
        match TakeWord(s2, c.endianness)
        case None => (STREAM_TOO_SHORT, i2, s2)
        case Some((size, s3)) =>
          var i3 := i2.(size := size);
          match TakeWord(s3, c.endianness)
          case None => (STREAM_TOO_SHORT, i3, s3)
          case Some((packets, s4)) => (OK, i3.(storedPackets := packets), s4)
  }

  /** A record is written completely if and only if there is room for all of it; otherwise a part of it is. */
  lemma PutIndexIff<T>(c: Codec<T>, i: Index<T>, out: seq<byte>, maxSize: nat)
    ensures PutIndex(c, i, out, maxSize).0 == OK <==> |out| + |EncodeIndex(c, i)| <= maxSize
    ensures PutIndex(c, i, out, maxSize).0 == OK ==> PutIndex(c, i, out, maxSize).1 == out + EncodeIndex(c, i)
    ensures PutIndex(c, i, out, maxSize).0 != OK ==>
              PutIndex(c, i, out, maxSize).0 == BUFFER_TOO_SHORT
              && out <= PutIndex(c, i, out, maxSize).1 <= out + EncodeIndex(c, i)
  {
  }

  lemma TakeIndexEncoded<T(!new)>(c: Codec<T>, was: Index<T>, i: Index<T>, rest: seq<byte>)
    requires Lawful(c.info)
    ensures TakeIndex(c, was, EncodeIndex(c, i) + rest) == (OK, i, rest)
  {
    var e := c.endianness;
    var s3 := Word(i.storedPackets, e) + rest;
    var s2 := Word(i.size, e) + s3;
    var s1 := c.info.encode(i.indexType) + s2;
    assert EncodeIndex(c, i) + rest == Word(i.blockStartAddress, e) + s1;
    TakeWordEncoded(i.blockStartAddress, e, s1);
    TakeEncoded(c.info, i.indexType, s2);
    TakeWordEncoded(i.size, e, s3);
    TakeWordEncoded(i.storedPackets, e, rest);
  }

  /** Where the fields of a record are: address, index type, size, stored packets. */
  lemma RecordFields<T(!new)>(c: Codec<T>, i: Index<T>)
    requires Lawful(c.info)
    ensures var record, w := EncodeIndex(c, i), c.info.width;
            && |record| == 4 + w + 4 + 4
            && record[..4] == Encode(i.blockStartAddress, 4, c.endianness)
            && record[4..4 + w] == c.info.encode(i.indexType)
            && record[4 + w..8 + w] == Encode(i.size, 4, c.endianness)
            && record[8 + w..] == Encode(i.storedPackets, 4, c.endianness)
  {
  }

  // ---------- all records ----------

  /** n records' worth of bytes, added up. */
  function Extent(n: nat, size: nat): nat {
    if n == 0 then 0 else size + Extent(n - 1, size)
  }

  function EncodeAll<T>(c: Codec<T>, blocks: seq<Index<T>>): seq<byte> {
    if blocks == [] then [] else EncodeIndex(c, blocks[0]) + EncodeAll(c, blocks[1..])
  }

  function PutAll<T>(c: Codec<T>, blocks: seq<Index<T>>, out: seq<byte>, maxSize: nat): (ReturnValue, seq<byte>) {
    if blocks == [] then (OK, out) else
      var (r, o) := PutIndex(c, blocks[0], out, maxSize);
      if r != OK then (r, o) else PutAll(c, blocks[1..], o, maxSize)
  }

  lemma {:induction false} PutAllIff<T>(c: Codec<T>, blocks: seq<Index<T>>, out: seq<byte>, maxSize: nat)
    requires |out| <= maxSize
    ensures PutAll(c, blocks, out, maxSize).0 == OK <==> |out| + |EncodeAll(c, blocks)| <= maxSize
    ensures PutAll(c, blocks, out, maxSize).0 == OK ==>
              PutAll(c, blocks, out, maxSize).1 == out + EncodeAll(c, blocks)
    ensures PutAll(c, blocks, out, maxSize).0 != OK ==>
              PutAll(c, blocks, out, maxSize).0 == BUFFER_TOO_SHORT
              && out <= PutAll(c, blocks, out, maxSize).1 <= out + EncodeAll(c, blocks)
    decreases |blocks|
  {
    if blocks != [] {
      var first, later := EncodeIndex(c, blocks[0]), EncodeAll(c, blocks[1..]);
      PutIndexIff(c, blocks[0], out, maxSize);
      var (r, o) := PutIndex(c, blocks[0], out, maxSize);
      AppendTwice(out, first, later);
      if r == OK {
        PutAllIff(c, blocks[1..], o, maxSize);
        PrefixThrough(out, o, PutAll(c, blocks[1..], o, maxSize).1);
      } else {
        PrefixThrough(o, out + first, out + (first + later));
      }
    }
  }

  lemma AppendTwice(out: seq<byte>, first: seq<byte>, later: seq<byte>)
    ensures out + first <= (out + first) + later == out + (first + later)
  {
  }

  lemma PrefixThrough(x: seq<byte>, y: seq<byte>, z: seq<byte>)
    requires x <= y <= z
    ensures x <= z
  {
  }

  /** Records i and following are read over the old ones, until the stream ends. */
  function TakeAll<T>(c: Codec<T>, blocks: seq<Index<T>>, i: nat, stream: seq<byte>)
    : (r: (ReturnValue, seq<Index<T>>, seq<byte>))
    requires i <= |blocks|
    ensures |r.1| == |blocks|
    ensures r.0 == if |stream| >= Extent(|blocks| - i, RecordSize(c.info.width)) then OK else STREAM_TOO_SHORT
    decreases |blocks| - i
  {
    if i == |blocks| then (OK, blocks, stream) else
      var (r, x, rest) := TakeIndex(c, blocks[i], stream);
      if r != OK then (r, blocks[i := x], rest) else TakeAll(c, blocks[i := x], i + 1, rest)
  }

  lemma TakeAllStep<T>(c: Codec<T>, blocks: seq<Index<T>>, i: nat, stream: seq<byte>, x: Index<T>, rest: seq<byte>)
    requires i < |blocks| && TakeIndex(c, blocks[i], stream) == (OK, x, rest)
    ensures TakeAll(c, blocks, i, stream) == TakeAll(c, blocks[i := x], i + 1, rest)
  {
  }

  lemma EncodeAllFrom<T>(c: Codec<T>, blocks: seq<Index<T>>, i: nat, rest: seq<byte>)
    requires i < |blocks|
    ensures EncodeAll(c, blocks[i..]) + rest
         == EncodeIndex(c, blocks[i]) + (EncodeAll(c, blocks[i + 1..]) + rest)
  {
    assert blocks[i..][1..] == blocks[i + 1..];
  }

  lemma {:induction false} TakeAllEncoded<T(!new)>(c: Codec<T>, was: seq<Index<T>>, i: nat, blocks: seq<Index<T>>,
                                                   rest: seq<byte>)
    requires Lawful(c.info) && i <= |blocks| == |was| && (forall j :: 0 <= j < i ==> was[j] == blocks[j])
    ensures TakeAll(c, was, i, EncodeAll(c, blocks[i..]) + rest) == (OK, blocks, rest)
    decreases |blocks| - i
  {
    if i == |blocks| {
      assert was == blocks;
      assert EncodeAll(c, blocks[i..]) + rest == rest;
    } else {
      var x := blocks[i];
      var tail := EncodeAll(c, blocks[i + 1..]) + rest;
      var stream := EncodeIndex(c, x) + tail;
      assert TakeAll(c, was, i, stream) == TakeAll(c, was[i := x], i + 1, tail) by {
        TakeIndexEncoded(c, was[i], x, tail);
        TakeAllStep(c, was, i, stream, x, tail);
      }
      TakeAllEncoded(c, was[i := x], i + 1, blocks, rest);
      EncodeAllFrom(c, blocks, i, rest);
    }
  }

  // ---------- the whole index ----------

  /** The index without the additional information before it and the checksum behind it. */
  function Records<T>(c: Codec<T>, s: Store<T>): seq<byte>
    requires InStore(s) && |s.blocks| < TWO_TO_THE_32
  {
    EncodeIndex(c, s.blocks[s.w]) + (Word(|s.blocks|, c.endianness) + EncodeAll(c, s.blocks))
  }

  lemma RecordsAre<T>(c: Codec<T>, s: Store<T>, stream: seq<byte>)
    requires InStore(s) && |s.blocks| < TWO_TO_THE_32
    ensures ((stream + EncodeIndex(c, s.blocks[s.w])) + Word(|s.blocks|, c.endianness)) + EncodeAll(c, s.blocks)
         == stream + Records(c, s)
  {
  }

  lemma {:induction false} ExtentIsProduct(n: nat, size: nat)
    ensures Extent(n, size) == size * n
  {
    if n > 0 {
      ExtentIsProduct(n - 1, size);
      ProductNext(size, n - 1);
    }
  }

  lemma {:induction false} EncodeAllAt<T(!new)>(c: Codec<T>, blocks: seq<Index<T>>, j: nat, size: nat)
    requires Lawful(c.info) && j < |blocks| && size == RecordSize(c.info.width)
    ensures var at := Extent(j, size);
            && at + size <= |EncodeAll(c, blocks)|
            && EncodeAll(c, blocks)[at..at + size] == EncodeIndex(c, blocks[j])
  {
    var first, later := EncodeIndex(c, blocks[0]), EncodeAll(c, blocks[1..]);
    RecordFields(c, blocks[0]);
    if j > 0 {
      EncodeAllAt(c, blocks[1..], j - 1, size);
      SliceBehind(first, later, Extent(j - 1, size), size);
    }
  }

  lemma SliceBehind(a: seq<byte>, b: seq<byte>, at: nat, n: nat)
    requires at + n <= |b|
    ensures (a + b)[|a| + at..|a| + at + n] == b[at..at + n]
  {
  }

  lemma ThreeParts(front: seq<byte>, count: seq<byte>, all: seq<byte>, at: nat, n: nat)
    requires |count| == 4 && at + n <= |all|
    ensures var r := front + (count + all);
            && r[..|front|] == front && r[|front|..|front| + 4] == count
            && r[|front| + 4 + at..|front| + 4 + at + n] == all[at..at + n]
  {
    SliceBehind(count, all, at, n);
    SliceBehind(front, count + all, 4 + at, n);
  }

  /** Where the records are: that of the write block, the number of blocks, and the blocks in ring order. */
  lemma RecordsAt<T(!new)>(c: Codec<T>, s: Store<T>, j: nat)
    requires Lawful(c.info) && InStore(s) && |s.blocks| < TWO_TO_THE_32 && j < |s.blocks|
    ensures var r, size := Records(c, s), 4 + c.info.width + 4 + 4;
            && |r| >= size + 4 + size * j + size
            && r[..size] == EncodeIndex(c, s.blocks[s.w])
            && r[size..size + 4] == Encode(|s.blocks|, 4, c.endianness)
            && r[size + 4 + size * j..size + 4 + size * j + size] == EncodeIndex(c, s.blocks[j])
  {
    var size := RecordSize(c.info.width);
    assert |EncodeIndex(c, s.blocks[s.w])| == size by { RecordFields(c, s.blocks[s.w]); }
    EncodeAllAt(c, s.blocks, j, size);
    ExtentIsProduct(j, size);
    ThreeParts(EncodeIndex(c, s.blocks[s.w]), Word(|s.blocks|, c.endianness), EncodeAll(c, s.blocks), size * j, size);
  }

  /** The part of serialize between the additional information and the checksum. */
  function PutRecords<T>(c: Codec<T>, s: Store<T>, out: seq<byte>, maxSize: nat): (ReturnValue, seq<byte>)
    requires InStore(s) && |s.blocks| < TWO_TO_THE_32
  {
    var (r1, o1) := PutIndex(c, s.blocks[s.w], out, maxSize);
    if r1 != OK then (r1, o1) else
      var (r2, o2) := Put(o1, Word(|s.blocks|, c.endianness), maxSize);
      if r2 != OK then (r2, o2) else PutAll(c, s.blocks, o2, maxSize)
  }

  /** The records are written completely if and only if there is room for all of them; otherwise a part of
      them is. */
  lemma PutRecordsIff<T>(c: Codec<T>, s: Store<T>, out: seq<byte>, maxSize: nat)
    requires InStore(s) && |s.blocks| < TWO_TO_THE_32
    ensures var r := PutRecords(c, s, out, maxSize);
            && (r.0 == OK <==> |out| + |Records(c, s)| <= maxSize)
            && (r.0 == OK ==> r.1 == out + Records(c, s))
            && (r.0 != OK ==> r.0 == BUFFER_TOO_SHORT && out <= r.1 <= out + Records(c, s))
  {
    PutIndexIff(c, s.blocks[s.w], out, maxSize);
    RecordsAre(c, s, out);
    var (r1, o1) := PutIndex(c, s.blocks[s.w], out, maxSize);
    if r1 == OK {
      var (r2, o2) := Put(o1, Word(|s.blocks|, c.endianness), maxSize);
      if r2 == OK {
        PutAllIff(c, s.blocks, o2, maxSize);
      }
    }
  }

  /** What serialize leaves in the stream when it succeeds.  Additional information that does not fit is
      left out without an error. */
  function Written<T>(c: Codec<T>, additional: seq<byte>, s: Store<T>, out: seq<byte>, maxSize: nat): seq<byte>
    requires InStore(s) && |s.blocks| < TWO_TO_THE_32
  {
    Put(out, additional, maxSize).1 + Records(c, s)
  }

  /** When serialize succeeds: the additional information is not accounted for. */
  predicate Succeeds<T>(c: Codec<T>, additional: seq<byte>, s: Store<T>, out: seq<byte>, maxSize: nat)
    requires InStore(s) && |s.blocks| < TWO_TO_THE_32
  {
    |Written(c, additional, s, out, maxSize)| + 2 <= maxSize
  }

  lemma {:induction false} EncodeAllSize<T(!new)>(c: Codec<T>, blocks: seq<Index<T>>)
    requires Lawful(c.info)
    ensures |EncodeAll(c, blocks)| == RecordSize(c.info.width) * |blocks|
  {
    if blocks != [] {
      EncodeAllSize(c, blocks[1..]);
      ProductNext(RecordSize(c.info.width), |blocks| - 1);
    }
  }

  lemma ProductNext(x: nat, n: nat)
    ensures x * (n + 1) == x * n + x
  {
  }

  /** The serialized size that the constructor sets aside room for is the number of bytes written. */
  lemma RecordsHaveIndexSize<T(!new)>(c: Codec<T>, additional: seq<byte>, s: Store<T>)
    requires Lawful(c.info) && InStore(s) && |s.blocks| < TWO_TO_THE_32
    ensures |additional| + |Records(c, s)| + 2 == IndexSize(|additional|, c.info.width, |s.blocks|)
  {
    EncodeAllSize(c, s.blocks);
  }

  /** The constructor sets aside room for the index of as many blocks as the whole region could hold: what
      serialize writes for a store with that many. */
  lemma ReservedIsSerializedSize<T(!new)>(c: Codec<T>, additional: seq<byte>, s: Store<T>, size: nat, bytesPerBlock: nat)
    requires Lawful(c.info) && InStore(s) && bytesPerBlock > 0 && |s.blocks| == size / bytesPerBlock < TWO_TO_THE_32
    ensures ReservedSize(|additional|, c.info.width, size, bytesPerBlock) == |additional| + |Records(c, s)| + 2
  {
    RecordsHaveIndexSize(c, additional, s);
  }

  /** With room for the serialized size, success and a complete index go together.  With less room,
      serialize succeeds without the additional information if and only if that alone does not fit and
      the rest does; otherwise it fails. */
  lemma SuccessMeansCompleteIff<T>(c: Codec<T>, additional: seq<byte>, s: Store<T>, out: seq<byte>, maxSize: nat)
    requires InStore(s) && |s.blocks| < TWO_TO_THE_32 && |out| <= maxSize
    ensures var size := |additional| + |Records(c, s)| + 2;
            && (maxSize - |out| >= size ==>
                  Succeeds(c, additional, s, out, maxSize)
                  && Written(c, additional, s, out, maxSize) == out + additional + Records(c, s))
            && (maxSize - |out| < size ==>
                  (Succeeds(c, additional, s, out, maxSize)
                   <==> maxSize - |out| < |additional| && |Records(c, s)| + 2 <= maxSize - |out|))
  {
  }

  /** A room that fails: exactly that of the index without the additional information, if that is longer. */
  lemma AdditionalInfoIsLost<T>(c: Codec<T>, additional: seq<byte>, s: Store<T>)
    requires InStore(s) && |s.blocks| < TWO_TO_THE_32 && |additional| > |Records(c, s)| + 2
    ensures var room := |Records(c, s)| + 2;
            Succeeds(c, additional, s, [], room) && Written(c, additional, s, [], room) == Records(c, s)
  {
    assert [] + Records(c, s) == Records(c, s);
  }

  /** The comparison of two records leaves out the stored packets. */
  predicate SameBlock<T(==)>(a: Index<T>, b: Index<T>) {
    a.blockStartAddress == b.blockStartAddress && a.size == b.size && a.indexType == b.indexType
  }

  /** The first block from i on that equals the persisted write block. */
  function FindBlock<T(==)>(blocks: seq<Index<T>>, x: Index<T>, i: nat): (r: Option<nat>)
    requires i <= |blocks|
    ensures r.Some? ==> i <= r.value < |blocks|
    decreases |blocks| - i
  {
    if i == |blocks| then None else if SameBlock(x, blocks[i]) then Some(i) else FindBlock(blocks, x, i + 1)
  }

  lemma {:induction false} FindBlockFindsIt<T>(blocks: seq<Index<T>>, w: nat, i: nat)
    requires DistinctAddresses(blocks) && i <= w < |blocks|
    ensures FindBlock(blocks, blocks[w], i) == Some(w)
    decreases w - i
  {
    if i < w { FindBlockFindsIt(blocks, w, i + 1); }
  }

  /** The block found is the first with the same address, size and type, whatever its packets; none if there
      is none. */
  lemma {:induction false} FindBlockIff<T>(blocks: seq<Index<T>>, x: Index<T>, i: nat)
    requires i <= |blocks|
    ensures var found := FindBlock(blocks, x, i);
            && (found.None? <==>
                  forall k :: i <= k < |blocks| ==>
                    blocks[k].blockStartAddress != x.blockStartAddress || blocks[k].size != x.size
                    || blocks[k].indexType != x.indexType)
            && (found.Some? ==>
                  && blocks[found.value].(storedPackets := 0) == x.(storedPackets := 0)
                  && forall k :: i <= k < found.value ==> blocks[k].(storedPackets := 0) != x.(storedPackets := 0))
    decreases |blocks| - i
  {
    if i < |blocks| && !SameBlock(x, blocks[i]) { FindBlockIff(blocks, x, i + 1); }
  }

  lemma TakeIndexRest<T>(c: Codec<T>, was: Index<T>, stream: seq<byte>)
    ensures var r := TakeIndex(c, was, stream);
            r.0 == OK ==> r.2 == stream[RecordSize(c.info.width)..]
  {
  }

  datatype Restored<T> = Restored(result: ReturnValue, additional: seq<byte>, store: Store<T>)

  /** The part of deSerialize behind the number of blocks; `x` is the persisted write block. */
  function RestoreBlocks<T(==)>(c: Codec<T>, additional: seq<byte>, s: Store<T>, x: Index<T>, stream: seq<byte>)
    : (r: Restored<T>)
    requires InStore(s)
    ensures InStore(r.store) && |r.store.blocks| == |s.blocks|
  {
    var (result, blocks, _) := TakeAll(c, s.blocks, 0, stream);
    if result != OK then Restored(result, additional, Store(blocks, s.w)) else
      match FindBlock(blocks, x, 0)
      case None => Restored(FAILED, additional, Store(blocks, s.w))
      case Some(w) => Restored(OK, additional, Store(blocks, w))
  }

  /** deSerialize, starting from a store and default record of the same shape. */
  function Restore<T(==)>(c: Codec<T>, additional: seq<byte>, s: Store<T>, blank: Index<T>, stream: seq<byte>)
    : (r: Restored<T>)
    requires InStore(s)
    ensures InStore(r.store) && |r.store.blocks| == |s.blocks|
  {
    match Take(stream, |additional|)
    case None => Restored(STREAM_TOO_SHORT, additional, s)
    case Some((a, s1)) =>
      var (r, cursor, s2) := TakeIndex(c, blank, s1);
      if r != OK then Restored(r, a, s) else
        match TakeWord(s2, c.endianness)
        case None => Restored(STREAM_TOO_SHORT, a, s)
        case Some((n, s3)) =>
          if n != |s.blocks| then Restored(FAILED, a, s) else RestoreBlocks(c, a, s, cursor, s3)
  }

  /** Whether one of the blocks is x but for its packets. */
  ghost predicate HasBlock<T>(blocks: seq<Index<T>>, x: Index<T>) {
    exists k :: 0 <= k < |blocks| && blocks[k].(storedPackets := 0) == x.(storedPackets := 0)
  }

  /** The record in front, by its fields. */
  function FrontRecord<T>(c: Codec<T>, blank: Index<T>, stream: seq<byte>): Index<T> {
    TakeIndex(c, blank, stream).1
  }

  lemma RestoreFromShortStream<T>(c: Codec<T>, additional: seq<byte>, s: Store<T>, blank: Index<T>, stream: seq<byte>)
    requires InStore(s) && |stream| < |additional| + RecordSize(c.info.width) + 4
    ensures var r := Restore(c, additional, s, blank, stream);
            r.result == STREAM_TOO_SHORT && r.store == s
  {
    if |stream| >= |additional| { TakeIndexRest(c, blank, stream[|additional|..]); }
  }

  lemma RestoreFront<T>(c: Codec<T>, additional: seq<byte>, s: Store<T>, blank: Index<T>, stream: seq<byte>, at: nat)
    requires InStore(s) && at == |additional| + RecordSize(c.info.width) && |stream| >= at + 4
    ensures var a := stream[..|additional|];
            Restore(c, additional, s, blank, stream)
            == if Uint32Codec(c.endianness).decode(stream[at..at + 4]) != |s.blocks| then Restored(FAILED, a, s)
               else RestoreBlocks(c, a, s, FrontRecord(c, blank, stream[|additional|..]), stream[at + 4..])
  {
    var s1 := stream[|additional|..];
    TakeIndexRest(c, blank, s1);
    var s2 := s1[RecordSize(c.info.width)..];
    assert s2 == stream[at..];
    assert s2[..4] == stream[at..at + 4] && s2[4..] == stream[at + 4..];
  }

  lemma RestoreBlocksOutcome<T>(c: Codec<T>, additional: seq<byte>, s: Store<T>, x: Index<T>, stream: seq<byte>)
    requires InStore(s)
    ensures var r := RestoreBlocks(c, additional, s, x, stream);
            && r.additional == additional
            && (if |stream| < RecordSize(c.info.width) * |s.blocks| then r.result == STREAM_TOO_SHORT
                else r.result == if HasBlock(r.store.blocks, x) then OK else FAILED)
            && (r.result != OK ==> r.store.w == s.w)
            && (r.result == OK ==> r.store.blocks[r.store.w].(storedPackets := 0) == x.(storedPackets := 0))
  {
    var taken := TakeAll(c, s.blocks, 0, stream);
    ExtentIsProduct(|s.blocks|, RecordSize(c.info.width));
    FindBlockIff(taken.1, x, 0);
  }

  /** What deSerialize makes of any stream: too short for the front or for the blocks, another number of blocks,
      no block that is the persisted write block but for its packets, or success with that block. */
  lemma RestoreOutcome<T>(c: Codec<T>, additional: seq<byte>, s: Store<T>, blank: Index<T>, stream: seq<byte>, at: nat)
    requires InStore(s) && at == |additional| + (4 + c.info.width + 4 + 4)
    ensures var r := Restore(c, additional, s, blank, stream);
            if |stream| < at + 4 then r.result == STREAM_TOO_SHORT && r.store == s
            else if Uint32Codec(c.endianness).decode(stream[at..at + 4]) != |s.blocks| then
              r == Restored(FAILED, stream[..|additional|], s)
            else
              var x := FrontRecord(c, blank, stream[|additional|..]);
              && r.additional == stream[..|additional|]
              && (if |stream| - at - 4 < (4 + c.info.width + 4 + 4) * |s.blocks| then r.result == STREAM_TOO_SHORT
                  else r.result == if HasBlock(r.store.blocks, x) then OK else FAILED)
              && (r.result != OK ==> r.store.w == s.w)
              && (r.result == OK ==> r.store.blocks[r.store.w].(storedPackets := 0) == x.(storedPackets := 0))
  {
    if |stream| < at + 4 {
      RestoreFromShortStream(c, additional, s, blank, stream);
    } else {
      RestoreFront(c, additional, s, blank, stream, at);
      RestoreBlocksOutcome(c, stream[..|additional|], s, FrontRecord(c, blank, stream[|additional|..]), stream[at + 4..]);
    }
  }

  /** Reading back what was written restores every record, the packets included, and the write block,
      into any store with as many blocks; the block addresses being distinct is what makes the write
      block unique. */
  lemma RestoreRecoversIndex<T(!new)>(c: Codec<T>, additional: seq<byte>, s: Store<T>, tail: seq<byte>,
                                         oldAdditional: seq<byte>, target: Store<T>, blank: Index<T>)
    requires Lawful(c.info) && InStore(s) && |s.blocks| < TWO_TO_THE_32 && DistinctAddresses(s.blocks)
    requires InStore(target) && |target.blocks| == |s.blocks| && |oldAdditional| == |additional|
    ensures Restore(c, oldAdditional, target, blank, additional + (Records(c, s) + tail)) == Restored(OK, additional, s)
  {
    var s1 := Records(c, s) + tail;
    assert Take(additional + s1, |additional|) == Some((additional, s1));
    var s3 := EncodeAll(c, s.blocks) + tail;
    var s2 := Word(|s.blocks|, c.endianness) + s3;
    assert s1 == EncodeIndex(c, s.blocks[s.w]) + s2;
    TakeIndexEncoded(c, blank, s.blocks[s.w], s2);
    TakeWordEncoded(|s.blocks|, c.endianness, s3);
    assert s.blocks[0..] == s.blocks;
    TakeAllEncoded(c, target.blocks, 0, s.blocks, tail);
    FindBlockFindsIt(s.blocks, s.w, 0);
  }

  /** In particular the index of a store as it is constructed survives: its blocks have distinct
      addresses. */
  lemma PersistedIndexSurvives<T(!new)>(c: Codec<T>, g: Layout, additional: seq<byte>, s: Store<T>, tail: seq<byte>,
                                        oldAdditional: seq<byte>, target: Store<T>, blank: Index<T>)
    requires Lawful(c.info) && InStore(s) && |s.blocks| < TWO_TO_THE_32 && LaidOut(g, s.blocks)
    requires InStore(target) && |target.blocks| == |s.blocks| && |oldAdditional| == |additional|
    ensures Restore(c, oldAdditional, target, blank, additional + (Records(c, s) + tail)) == Restored(OK, additional, s)
  {
    LaidOutMeansDistinct(g, s.blocks);
    RestoreRecoversIndex(c, additional, s, tail, oldAdditional, target, blank);
  }

  lemma ConcatAssociates<X>(a: seq<X>, b: seq<X>, c: seq<X>)
    ensures (([] + a) + b) + c == a + (b + c)
  {
  }

  /** With room for exactly the serialized size serialize succeeds and uses all of it. */
  lemma SerializedSizeSuffices<T(!new)>(c: Codec<T>, additional: seq<byte>, s: Store<T>)
    requires Lawful(c.info) && InStore(s) && |s.blocks| < TWO_TO_THE_32
    ensures var room := IndexSize(|additional|, c.info.width, |s.blocks|);
            && Succeeds(c, additional, s, [], room)
            && Written(c, additional, s, [], room) == [] + additional + Records(c, s)
            && |Written(c, additional, s, [], room)| + 2 == room
  {
    RecordsHaveIndexSize(c, additional, s);
  }

  /** What it then leaves, with any two bytes of checksum behind it, is read back by a store of the same shape. */
  lemma SerializedIndexSurvives<T(!new)>(c: Codec<T>, g: Layout, additional: seq<byte>, s: Store<T>, check: seq<byte>,
                                         oldAdditional: seq<byte>, target: Store<T>, blank: Index<T>)
    requires Lawful(c.info) && InStore(s) && |s.blocks| < TWO_TO_THE_32 && LaidOut(g, s.blocks)
    requires InStore(target) && |target.blocks| == |s.blocks| && |oldAdditional| == |additional|
    ensures var room := IndexSize(|additional|, c.info.width, |s.blocks|);
            Restore(c, oldAdditional, target, blank, Written(c, additional, s, [], room) + check)
            == Restored(OK, additional, s)
  {
    SerializedSizeSuffices(c, additional, s);
    ConcatAssociates(additional, Records(c, s), check);
    PersistedIndexSurvives(c, g, additional, s, check, oldAdditional, target, blank);
  }
}
