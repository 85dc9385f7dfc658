/** What FixedMap::serialize writes and deSerialize recovers.

    In both loops the result of the key is overwritten by the result of the value, so a key that does
    not fit goes unnoticed when the value behind it does. Neither loop compares keys. */
module FixedMapCodec {
  import opened Serialization
  import opened FixedMapModel

  /** A byte order, and the encodings of keys and values at that byte order. */
  datatype Codec<!K, !V> = Codec(endianness: Endianness, key: FieldCodec<K>, value: FieldCodec<V>)

  ghost predicate LawfulCodec<K(!new), V(!new)>(c: Codec<K, V>) {
    Lawful(c.key) && Lawful(c.value) && c.key.width > 0 && c.value.width > 0
  }

  function EncodeEntries<K, V>(c: Codec<K, V>, e: seq<Entry<K, V>>): seq<byte> {
    if e == [] then [] else c.key.encode(e[0].key) + c.value.encode(e[0].value) + EncodeEntries(c, e[1..])
  }

  /** The loop of serialize. */
  function PutEntries<K, V>(c: Codec<K, V>, e: seq<Entry<K, V>>, out: seq<byte>, maxSize: nat)
    : (ReturnValue, seq<byte>)
  {
    if e == [] then (OK, out) else
      var afterKey := Put(out, c.key.encode(e[0].key), maxSize).1;
      var (r, o) := Put(afterKey, c.value.encode(e[0].value), maxSize);
      if r != OK then (r, o) else PutEntries(c, e[1..], o, maxSize)
  }

  /** Serialized size of n entries. */
  function Size(n: nat, keyWidth: nat, valueWidth: nat): nat {
    n * (keyWidth + valueWidth)
  }

  lemma SizeNext(n: nat, keyWidth: nat, valueWidth: nat)
    requires n > 0
    ensures Size(n, keyWidth, valueWidth) == keyWidth + valueWidth + Size(n - 1, keyWidth, valueWidth)
  {
  }

  lemma {:induction false} EncodedSize<K(!new), V(!new)>(c: Codec<K, V>, e: seq<Entry<K, V>>)
    requires LawfulCodec(c)
    ensures |EncodeEntries(c, e)| == Size(|e|, c.key.width, c.value.width)
  {
    if e != [] {
      EncodedSize(c, e[1..]);
      SizeNext(|e|, c.key.width, c.value.width);
    }
  }

  lemma SliceBehind(a: seq<byte>, b: seq<byte>, at: nat, n: nat)
    requires at + n <= |b|
    ensures (a + b)[|a| + at..|a| + at + n] == b[at..at + n]
  {
  }

  /** Where an entry is: all entries before it take the same room, and its key comes before its value. */
  lemma {:induction false} EncodedEntryAt<K(!new), V(!new)>(c: Codec<K, V>, e: seq<Entry<K, V>>, j: nat)
    requires LawfulCodec(c) && j < |e|
    ensures var at, all := Size(j, c.key.width, c.value.width), EncodeEntries(c, e);
            && at + (c.key.width + c.value.width) <= |all|
            && all[at..at + (c.key.width + c.value.width)] == c.key.encode(e[j].key) + c.value.encode(e[j].value)
  {
    var first, later := c.key.encode(e[0].key) + c.value.encode(e[0].value), EncodeEntries(c, e[1..]);
    var n := c.key.width + c.value.width;
    assert |first| == n;
    if j > 0 {
      EncodedEntryAt(c, e[1..], j - 1);
      SizeNext(j, c.key.width, c.value.width);
      SliceBehind(first, later, Size(j - 1, c.key.width, c.value.width), n);
    }
  }

  /** With enough room everything is written. */
  lemma {:induction false} PutEntriesComplete<K(!new), V(!new)>(c: Codec<K, V>, e: seq<Entry<K, V>>, out: seq<byte>,
                                                               maxSize: nat)
    requires |out| + |EncodeEntries(c, e)| <= maxSize
    ensures PutEntries(c, e, out, maxSize) == (OK, out + EncodeEntries(c, e))
    decreases |e|
  {
    if e == [] {
      assert out + EncodeEntries(c, e) == out;
    } else {
      var k, v := c.key.encode(e[0].key), c.value.encode(e[0].value);
      PutEntriesComplete(c, e[1..], out + k + v, maxSize);
      assert out + k + v + EncodeEntries(c, e[1..]) == out + (k + v + EncodeEntries(c, e[1..]));
    }
  }

  /** When the loop reports success with `room` bytes for n entries: as many whole entries as fit, and
      then, if entries are left, only values fit, one for each of them. */
  predicate SucceedsWith(room: nat, n: nat, keyWidth: nat, valueWidth: nat)
    decreases n
  {
    if n == 0 then true
    else if room >= keyWidth + valueWidth then SucceedsWith(room - (keyWidth + valueWidth), n - 1, keyWidth, valueWidth)
    else room < keyWidth && n * valueWidth <= room
  }

  /** The same entry by entry: whether the key fits matters only for the room that is left. */
  lemma SucceedsWithNext(room: nat, n: nat, keyWidth: nat, valueWidth: nat)
    requires 0 < n && 0 < valueWidth
    ensures var left := if keyWidth <= room then room - keyWidth else room;
            SucceedsWith(room, n, keyWidth, valueWidth)
            <==> valueWidth <= left && SucceedsWith(left - valueWidth, n - 1, keyWidth, valueWidth)
  {
    assert n * valueWidth == (n - 1) * valueWidth + valueWidth;
    assert n == 1 ==> n * valueWidth == valueWidth;
  }

  lemma {:induction false} PutEntriesSucceedsIff<K(!new), V(!new)>(c: Codec<K, V>, e: seq<Entry<K, V>>, out: seq<byte>,
                                                                 maxSize: nat)
    requires LawfulCodec(c) && |out| <= maxSize
    ensures PutEntries(c, e, out, maxSize).0 == OK
            <==> SucceedsWith(maxSize - |out|, |e|, c.key.width, c.value.width)
    decreases |e|
  {
    if e != [] {
      var afterKey := Put(out, c.key.encode(e[0].key), maxSize).1;
      var (r, o) := Put(afterKey, c.value.encode(e[0].value), maxSize);
      SucceedsWithNext(maxSize - |out|, |e|, c.key.width, c.value.width);
      if r == OK {
        PutEntriesSucceedsIff(c, e[1..], o, maxSize);
      }
    }
  }

  lemma {:induction false} WideValuesAreNotMasked(room: nat, n: nat, keyWidth: nat, valueWidth: nat)
    requires 0 < keyWidth <= valueWidth
    ensures SucceedsWith(room, n, keyWidth, valueWidth) ==> room >= Size(n, keyWidth, valueWidth)
    decreases n
  {
    if n > 0 {
      SizeNext(n, keyWidth, valueWidth);
      assert n * valueWidth >= valueWidth;
      if room >= keyWidth + valueWidth {
        WideValuesAreNotMasked(room - (keyWidth + valueWidth), n - 1, keyWidth, valueWidth);
      }
    }
  }

  predicate SuccessMeansComplete(room: nat, n: nat, keyWidth: nat, valueWidth: nat) {
    SucceedsWith(room, n, keyWidth, valueWidth) ==> room >= Size(n, keyWidth, valueWidth)
  }

  /** Success means that everything was written, for every room and number of entries, if and only if
      values are at least as wide as keys. */
  lemma SuccessMeansCompleteIff(keyWidth: nat, valueWidth: nat)
    requires 0 < keyWidth && 0 < valueWidth
    ensures (forall room: nat, n: nat :: SuccessMeansComplete(room, n, keyWidth, valueWidth))
        <==> keyWidth <= valueWidth
  {
    if keyWidth <= valueWidth {
      forall room: nat, n: nat
        ensures SuccessMeansComplete(room, n, keyWidth, valueWidth)
      {
        WideValuesAreNotMasked(room, n, keyWidth, valueWidth);
      }
    } else {
      var room, n: nat := valueWidth, 1;
      assert SucceedsWith(room, n, keyWidth, valueWidth);
      assert Size(n, keyWidth, valueWidth) == keyWidth + valueWidth > room;
      assert !SuccessMeansComplete(room, n, keyWidth, valueWidth);
    }
  }

  // ---------- reading back ----------

  /** One field off the stream; `was` stays if the stream is too short. */
  function TakeField<T>(c: FieldCodec<T>, was: T, stream: seq<byte>): (ReturnValue, T, seq<byte>) {
    match Take(stream, c.width)
    case None => (STREAM_TOO_SHORT, was, stream)
    case Some((bytes, rest)) => (OK, c.decode(bytes), rest)
  }

  /** The loop of deSerialize, from slot i up to slot n. */
  function TakeEntries<K, V>(c: Codec<K, V>, slots: seq<Entry<K, V>>, i: nat, n: nat, stream: seq<byte>)
    : (r: (ReturnValue, seq<Entry<K, V>>, seq<byte>))
    requires i <= n <= |slots|
    ensures |r.1| == |slots|
    decreases n - i
  {
    if i == n then (OK, slots, stream) else
      var (_, k, s1) := TakeField(c.key, slots[i].key, stream);
      var (r, v, s2) := TakeField(c.value, slots[i].value, s1);
      var slots' := slots[i := Entry(k, v)];
      if r != OK then (r, slots', s2) else TakeEntries(c, slots', i + 1, n, s2)
  }

  /** Whether the slots are those of a map afterwards. */
  ghost predicate LeavesAMap<K, V>(c: Codec<K, V>, slots: seq<Entry<K, V>>, n: nat, stream: seq<byte>) {
    n <= |slots| && DistinctKeys(TakeEntries(c, slots, 0, n, stream).1[..n])
  }

  // ---------- which keys are in the slots afterwards ----------

  /** The key that stands at a place of the stream, or the old one if the stream ends before its last byte. */
  function KeyIn<K, V>(c: Codec<K, V>, was: K, stream: seq<byte>, at: nat): K {
    if at + c.key.width <= |stream| then c.key.decode(stream[at..at + c.key.width]) else was
  }

  function KeyAt<K, V>(c: Codec<K, V>, slots: seq<Entry<K, V>>, stream: seq<byte>, i: nat): K
    requires i < |slots|
  {
    KeyIn(c, slots[i].key, stream, Size(i, c.key.width, c.value.width))
  }

  lemma KeyInBehind<K, V>(c: Codec<K, V>, was: K, stream: seq<byte>, k: nat, at: nat)
    requires k <= |stream|
    ensures KeyIn(c, was, stream[k..], at) == KeyIn(c, was, stream, k + at)
  {
    if k + at + c.key.width <= |stream| {
      assert stream[k..][at..at + c.key.width] == stream[k + at..k + at + c.key.width];
    }
  }

  lemma {:induction false} EarlierSlotsAreKept<K, V>(c: Codec<K, V>, slots: seq<Entry<K, V>>, i: nat, n: nat,
                                                     stream: seq<byte>, j: nat)
    requires j < i <= n <= |slots|
    ensures TakeEntries(c, slots, i, n, stream).1[j] == slots[j]
    decreases n - i
  {
    if i < n {
      var (_, k, s1) := TakeField(c.key, slots[i].key, stream);
      var (r, v, s2) := TakeField(c.value, slots[i].value, s1);
      if r == OK {
        EarlierSlotsAreKept(c, slots[i := Entry(k, v)], i + 1, n, s2, j);
      }
    }
  }

  lemma FirstKey<K, V>(c: Codec<K, V>, was: K, stream: seq<byte>)
    ensures TakeField(c.key, was, stream).1 == KeyIn(c, was, stream, 0)
  {
  }

  /** What an entry leaves of the stream has the later keys in the same places. */
  lemma LaterKeysMove<K, V>(c: Codec<K, V>, slots: seq<Entry<K, V>>, i: nat, stream: seq<byte>, was: K, later: nat)
    requires i < |slots|
    ensures var (_, k, s1) := TakeField(c.key, slots[i].key, stream);
            var (r, v, s2) := TakeField(c.value, slots[i].value, s1);
            KeyIn(c, was, stream, c.key.width + c.value.width + later)
            == if r == OK then KeyIn(c, was, s2, later) else was
  {
    if |stream| >= c.key.width + c.value.width {
      assert stream[c.key.width..][c.value.width..] == stream[c.key.width + c.value.width..];
      KeyInBehind(c, was, stream, c.key.width + c.value.width, later);
    }
  }

  /** The key in a slot is the one at its place in the stream, also if keys or values before it are missing. */
  lemma {:induction false} KeyAfterTaking<K, V>(c: Codec<K, V>, slots: seq<Entry<K, V>>, i: nat, n: nat,
                                                stream: seq<byte>, j: nat)
    requires i <= j < n <= |slots|
    ensures TakeEntries(c, slots, i, n, stream).1[j].key
         == KeyIn(c, slots[j].key, stream, Size(j - i, c.key.width, c.value.width))
    decreases n - i
  {
    var (_, k, s1) := TakeField(c.key, slots[i].key, stream);
    var (r, v, s2) := TakeField(c.value, slots[i].value, s1);
    var next := slots[i := Entry(k, v)];
    if j == i {
      FirstKey(c, slots[i].key, stream);
      if r == OK { EarlierSlotsAreKept(c, next, i + 1, n, s2, j); }
    } else {
      SizeNext(j - i, c.key.width, c.value.width);
      LaterKeysMove(c, slots, i, stream, slots[j].key, Size(j - i - 1, c.key.width, c.value.width));
      if r == OK { KeyAfterTaking(c, next, i + 1, n, s2, j); }
    }
  }

  /** Enough slots, and no key twice: in each slot the key that the stream has in its place, or the old key if
      the stream ends before. */
  ghost predicate KeysDiffer<K, V>(c: Codec<K, V>, slots: seq<Entry<K, V>>, n: nat, stream: seq<byte>) {
    && n <= |slots|
    && forall i, j :: 0 <= i < j < n ==> KeyAt(c, slots, stream, i) != KeyAt(c, slots, stream, j)
  }

  /** A map is left if and only if the keys of the stream, and behind its end those of the old slots, are
      distinct. */
  lemma LeavesAMapIff<K, V>(c: Codec<K, V>, slots: seq<Entry<K, V>>, n: nat, stream: seq<byte>)
    ensures LeavesAMap(c, slots, n, stream) <==> KeysDiffer(c, slots, n, stream)
  {
    if n <= |slots| {
      var e := TakeEntries(c, slots, 0, n, stream).1[..n];
      forall i | 0 <= i < n
        ensures e[i].key == KeyAt(c, slots, stream, i)
      {
        KeyAfterTaking(c, slots, 0, n, stream, i);
      }
      if KeysDiffer(c, slots, n, stream) {
        forall i, j | 0 <= i < j < n
          ensures e[i].key != e[j].key
        {
          assert KeyAt(c, slots, stream, i) != KeyAt(c, slots, stream, j);
        }
      }
      if DistinctKeys(e) {
        forall i, j | 0 <= i < j < n
          ensures KeyAt(c, slots, stream, i) != KeyAt(c, slots, stream, j)
        {
          assert e[i].key != e[j].key;
        }
      }
    }
  }

  /** An input that fails: a stream that ends early turns stale slots into entries. */
  lemma ShortStreamRevivesStaleSlots<K, V>(c: Codec<K, V>, slots: seq<Entry<K, V>>)
    requires 0 < c.key.width && 0 < c.value.width
    requires |slots| >= 2 && slots[0].key == slots[1].key
    ensures TakeEntries(c, slots, 0, 2, []).0 == STREAM_TOO_SHORT && !LeavesAMap(c, slots, 2, [])
  {
    LeavesAMapIff(c, slots, 2, []);
    assert KeyAt(c, slots, [], 0) == KeyAt(c, slots, [], 1);
  }

  /** What was written for the entries comes back in the same order, in the same slots. */
  lemma {:induction false} TakeEntriesEncoded<K(!new), V(!new)>(c: Codec<K, V>, slots: seq<Entry<K, V>>, i: nat,
                                                               e: seq<Entry<K, V>>, tail: seq<byte>)
    requires LawfulCodec(c) && i <= |e| <= |slots| && (forall j :: 0 <= j < i ==> slots[j] == e[j])
    ensures TakeEntries(c, slots, i, |e|, EncodeEntries(c, e[i..]) + tail) == (OK, e + slots[|e|..], tail)
    decreases |e| - i
  {
    if i == |e| {
      assert slots == e + slots[|e|..];
      assert EncodeEntries(c, e[i..]) + tail == tail;
    } else {
      var rest := EncodeEntries(c, e[i + 1..]) + tail;
      var v := c.value.encode(e[i].value) + rest;
      var k := c.key.encode(e[i].key) + v;
      assert e[i..][1..] == e[i + 1..];
      assert EncodeEntries(c, e[i..]) + tail == k;
      TakeEncoded(c.key, e[i].key, v);
      TakeEncoded(c.value, e[i].value, rest);
      var next := slots[i := e[i]];
      assert TakeEntries(c, slots, i, |e|, k) == TakeEntries(c, next, i + 1, |e|, rest);
      TakeEntriesEncoded(c, next, i + 1, e, tail);
      assert next[|e|..] == slots[|e|..];
    }
  }

  /** The loop reports success for exactly as many bytes as the writing loop needs room. */
  lemma {:induction false} TakeEntriesSucceedsIff<K, V>(c: Codec<K, V>, slots: seq<Entry<K, V>>, i: nat, n: nat,
                                                        stream: seq<byte>)
    requires i <= n <= |slots| && c.value.width > 0
    ensures TakeEntries(c, slots, i, n, stream).0 == OK
            <==> SucceedsWith(|stream|, n - i, c.key.width, c.value.width)
    decreases n - i
  {
    if i < n {
      SucceedsWithNext(|stream|, n - i, c.key.width, c.value.width);
      var (_, k, s1) := TakeField(c.key, slots[i].key, stream);
      var (r, v, s2) := TakeField(c.value, slots[i].value, s1);
      if r == OK {
        TakeEntriesSucceedsIff(c, slots[i := Entry(k, v)], i + 1, n, s2);
      }
    }
  }

  /** The n entries at the start of a stream that has them all. */
  function ReadEntries<K, V>(c: Codec<K, V>, n: nat, stream: seq<byte>): (e: seq<Entry<K, V>>)
    requires |stream| >= Size(n, c.key.width, c.value.width)
    ensures |e| == n
    decreases n
  {
    if n == 0 then [] else
      SizeNext(n, c.key.width, c.value.width);
      var afterKey := stream[c.key.width..];
      [Entry(c.key.decode(stream[..c.key.width]), c.value.decode(afterKey[..c.value.width]))]
      + ReadEntries(c, n - 1, afterKey[c.value.width..])
  }

  lemma {:induction false} TakeEntriesComplete<K, V>(c: Codec<K, V>, slots: seq<Entry<K, V>>, i: nat, n: nat,
                                                     stream: seq<byte>)
    requires i <= n <= |slots| && |stream| >= Size(n - i, c.key.width, c.value.width)
    ensures var r := TakeEntries(c, slots, i, n, stream);
            r.0 == OK && r.1 == slots[..i] + ReadEntries(c, n - i, stream) + slots[n..]
    decreases n - i
  {
    if i < n {
      SizeNext(n - i, c.key.width, c.value.width);
      var afterKey := stream[c.key.width..];
      var rest := afterKey[c.value.width..];
      var e := Entry(c.key.decode(stream[..c.key.width]), c.value.decode(afterKey[..c.value.width]));
      var next := slots[i := e];
      TakeEntriesComplete(c, next, i + 1, n, rest);
      var later := ReadEntries(c, n - i - 1, rest);
      assert next[n..] == slots[n..] && next[..i + 1] == slots[..i] + [e];
      assert slots[..i] + [e] + later + slots[n..] == slots[..i] + ([e] + later) + slots[n..];
    }
  }

  /** Success on a stream too short for all entries: the last slot keeps the key it had. */
  lemma {:induction false} ShortSuccessKeepsLastKey<K, V>(c: Codec<K, V>, slots: seq<Entry<K, V>>, i: nat, n: nat,
                                                          stream: seq<byte>)
    requires i <= n <= |slots| && c.value.width > 0
    requires TakeEntries(c, slots, i, n, stream).0 == OK
    requires |stream| < Size(n - i, c.key.width, c.value.width)
    ensures i < n && TakeEntries(c, slots, i, n, stream).1[n - 1].key == slots[n - 1].key
    decreases n - i
  {
    if i < n {
      SizeNext(n - i, c.key.width, c.value.width);
      var (_, k, s1) := TakeField(c.key, slots[i].key, stream);
      var (r, v, s2) := TakeField(c.value, slots[i].value, s1);
      if i + 1 < n {
        SizeNext(n - i - 1, c.key.width, c.value.width);
        ShortSuccessKeepsLastKey(c, slots[i := Entry(k, v)], i + 1, n, s2);
      }
    }
  }

  /** Success means that every entry is what the stream has in its place. */
  predicate ReadsAll<K(==), V(==)>(c: Codec<K, V>, slots: seq<Entry<K, V>>, n: nat, stream: seq<byte>) {
    n <= |slots| && TakeEntries(c, slots, 0, n, stream).0 == OK ==>
      && |stream| >= Size(n, c.key.width, c.value.width)
      && TakeEntries(c, slots, 0, n, stream).1[..n] == ReadEntries(c, n, stream)
  }

  /** An input that fails: a value's width of bytes and a wider key.  The slot keeps its key. */
  lemma UnreadKeyGoesUnnoticed<K, V>(c: Codec<K, V>, slots: seq<Entry<K, V>>, stream: seq<byte>)
    requires slots != [] && |stream| == c.value.width < c.key.width
    ensures TakeEntries(c, slots, 0, 1, stream)
         == (OK, slots[0 := Entry(slots[0].key, c.value.decode(stream))], [])
  {
    assert stream[..c.value.width] == stream;
    var next := slots[0 := Entry(slots[0].key, c.value.decode(stream))];
    assert TakeEntries(c, next, 1, 1, []) == (OK, next, []);
  }

  /** Success means that everything was read, for all streams, slots and numbers of entries, if and only if
      values are at least as wide as keys. */
  lemma ReadingSuccessMeansCompleteIff<K(!new), V(!new)>(c: Codec<K, V>, blank: Entry<K, V>)
    requires 0 < c.key.width && 0 < c.value.width
    ensures (forall slots: seq<Entry<K, V>>, n: nat, stream: seq<byte> :: ReadsAll(c, slots, n, stream))
        <==> c.key.width <= c.value.width
  {
    if c.key.width <= c.value.width {
      forall slots: seq<Entry<K, V>>, n: nat, stream: seq<byte>
        ensures ReadsAll(c, slots, n, stream)
      {
        if n <= |slots| && TakeEntries(c, slots, 0, n, stream).0 == OK {
          TakeEntriesSucceedsIff(c, slots, 0, n, stream);
          WideValuesAreNotMasked(|stream|, n, c.key.width, c.value.width);
          TakeEntriesComplete(c, slots, 0, n, stream);
        }
      }
    } else {
      var stream: seq<byte> := seq(c.value.width, _ => 0);
      UnreadKeyGoesUnnoticed(c, [blank], stream);
      SizeNext(1, c.key.width, c.value.width);
      assert !ReadsAll(c, [blank], 1, stream);
    }
  }

  /** The keys read from a complete stream are distinct if and only if those written were: nothing in the
      loop compares them. */
  lemma DistinctAfterReadingIff<K(!new), V(!new)>(c: Codec<K, V>, slots: seq<Entry<K, V>>, e: seq<Entry<K, V>>,
                                                  tail: seq<byte>)
    requires LawfulCodec(c) && |e| <= |slots|
    ensures var r := TakeEntries(c, slots, 0, |e|, EncodeEntries(c, e) + tail);
            r.0 == OK && (LeavesAMap(c, slots, |e|, EncodeEntries(c, e) + tail) <==> DistinctKeys(e))
  {
    TakeEntriesEncoded(c, slots, 0, e, tail);
    assert e[0..] == e;
    assert (e + slots[|e|..])[..|e|] == e;
  }

  /** An input that fails: the same key twice. */
  lemma DuplicateKeyGoesUnnoticed<K(!new), V(!new)>(c: Codec<K, V>, slots: seq<Entry<K, V>>, k: K, v: V, w: V)
    requires LawfulCodec(c) && |slots| >= 2
    ensures var r := TakeEntries(c, slots, 0, 2, EncodeEntries(c, [Entry(k, v), Entry(k, w)]));
            r.0 == OK && !LeavesAMap(c, slots, 2, EncodeEntries(c, [Entry(k, v), Entry(k, w)]))
  {
    var e := [Entry(k, v), Entry(k, w)];
    DistinctAfterReadingIff(c, slots, e, []);
    assert EncodeEntries(c, e) + [] == EncodeEntries(c, e);
    assert e[0].key == e[1].key;
  }
}
