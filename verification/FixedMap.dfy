/** The map in its array (src/fsfw/container/FixedMap.h).  Iterators are slot numbers; erasing through an
    iterator at the first slot leaves it one before the first slot. */
module FixedMaps {
  import opened Serialization
  import opened FixedMapModel
  import Codecs = FixedMapCodec

  class FixedMap<K(==), V> {
    const theMap: array<Entry<K, V>>
    var size: nat

    ghost function Entries(): seq<Entry<K, V>>
      requires size <= theMap.Length
      reads this, theMap
    {
      theMap[..size]
    }

    ghost predicate Valid()
      reads this, theMap
    {
      size <= theMap.Length < TWO_TO_THE_32 && DistinctKeys(Entries())
    }

    constructor (maxSize: uint32, blank: Entry<K, V>)
      ensures Valid() && fresh(theMap) && theMap.Length == maxSize && Entries() == []
    {
      theMap := new Entry<K, V>[maxSize](_ => blank);
      size := 0;
    }

    /** The slot of the key; without the key the number of entries, but 1 if there are none. */
    method FindIndex(key: K) returns (i: nat)
      requires Valid()
      ensures i < size ==> i == Find(Entries(), key)
      ensures i >= size ==> Find(Entries(), key) == size && i == if size == 0 then 1 else size
    {
      if size == 0 {
        return 1;
      }
      i := 0;
      while i < size
        invariant i <= size
        invariant forall j :: 0 <= j < i ==> theMap[j].key != key
      {
        if theMap[i].key == key {
          return i;
        }
        i := i + 1;
      }
    }

    method Exists(key: K) returns (result: ReturnValue)
      requires Valid()
      ensures result == if key in ToMap(Entries()) then OK else KEY_DOES_NOT_EXIST
    {
      FindTells(Entries(), key);
      var i := FindIndex(key);
      result := if i < size then OK else KEY_DOES_NOT_EXIST;
    }

    method Insert(key: K, value: V) returns (result: ReturnValue, storedValue: Option<nat>)
      requires Valid()
      modifies this`size, theMap
      ensures Valid()
      ensures (result, Entries()) == Step(old(Entries()), theMap.Length, Op.Insert(key, value))
      ensures (result, ToMap(Entries())) == MapStep(ToMap(old(Entries())), theMap.Length, Op.Insert(key, value))
      ensures result == if key in ToMap(old(Entries())) then KEY_ALREADY_EXISTS
                        else if old(size) == theMap.Length then MAP_FULL else OK
      ensures Entries() == if result == OK then old(Entries()) + [Entry(key, value)] else old(Entries())
      ensures storedValue == if result == OK then Some(old(size)) else None
      ensures result == OK ==> theMap[old(size)] == Entry(key, value)
    {
      StepAgrees(Entries(), theMap.Length, Op.Insert(key, value));
      FindTells(Entries(), key);
      var there := Exists(key);
      if there == OK {
        return KEY_ALREADY_EXISTS, None;
      }
      if size == theMap.Length {
        return MAP_FULL, None;
      }
      ghost var e := Entries();
      theMap[size] := Entry(key, value);
      storedValue := Some(size);
      size := size + 1;
      assert Entries() == e + [Entry(key, value)];
      result := OK;
    }

    /** Erase the entry with the key of the slot under the iterator, and step the iterator back.  For a
        live slot that is the slot itself. */
    method EraseIterator(iter: nat) returns (result: ReturnValue, iter': int)
      requires Valid() && iter < theMap.Length
      modifies this`size, theMap
      ensures Valid()
      ensures (result, Entries()) == Step(old(Entries()), theMap.Length, Op.Erase(old(theMap[iter]).key))
      ensures iter' == if result == OK then iter - 1 else iter
      ensures iter < old(size) ==> result == OK && Entries() == EraseAt(old(Entries()), iter)
    {
      if iter < size {
        FindOwn(Entries(), iter);
      }
      var i := FindIndex(theMap[iter].key);
      if i >= size {
        return KEY_DOES_NOT_EXIST, iter;
      }
      EraseKeepsDistinct(Entries(), i);
      theMap[i] := theMap[size - 1];
      size := size - 1;
      assert Entries() == EraseAt(old(Entries()), i);
      result, iter' := OK, iter - 1;
    }

    method EraseKey(key: K) returns (result: ReturnValue)
      requires Valid()
      modifies this`size, theMap
      ensures Valid()
      ensures (result, Entries()) == Step(old(Entries()), theMap.Length, Op.Erase(key))
      ensures (result, ToMap(Entries())) == MapStep(ToMap(old(Entries())), theMap.Length, Op.Erase(key))
      ensures result == if key in ToMap(old(Entries())) then OK else KEY_DOES_NOT_EXIST
      ensures ToMap(Entries()) == ToMap(old(Entries())) - {key}
    {
      FindTells(Entries(), key);
      StepAgrees(Entries(), theMap.Length, Op.Erase(key));
      var i := FindIndex(key);
      if i >= size {
        return KEY_DOES_NOT_EXIST;
      }
      theMap[i] := theMap[size - 1];
      size := size - 1;
      assert Entries() == EraseAt(old(Entries()), i);
      result := OK;
    }

    /** The end iterator if the key is not there. */
    method FindIterator(key: K) returns (iter: nat)
      requires Valid()
      ensures iter == Find(Entries(), key)
      ensures iter < size <==> key in ToMap(Entries())
    {
      FindTells(Entries(), key);
      var there := Exists(key);
      if there != OK {
        return size;
      }
      iter := FindIndex(key);
    }

    method FindValue(key: K) returns (result: ReturnValue, value: Option<V>)
      requires Valid()
      ensures result == if key in ToMap(Entries()) then OK else KEY_DOES_NOT_EXIST
      ensures value == if key in ToMap(Entries()) then Some(ToMap(Entries())[key]) else None
    {
      FindTells(Entries(), key);
      result := Exists(key);
      if result != OK {
        return result, None;
      }
      var i := FindIndex(key);
      value := Some(theMap[i].value);
    }

    method Clear()
      requires Valid()
      modifies this`size
      ensures Valid() && Entries() == []
    {
      size := 0;
    }

    // ---------- serialization ----------

    /** The sum is kept in 32 bits. */
    method GetSerializedSize(c: Codecs.Codec<K, V>) returns (printSize: uint32)
      requires Valid()
      ensures printSize == (4 + Codecs.Size(size, c.key.width, c.value.width)) % TWO_TO_THE_32
    {
      printSize := 4;
      ghost var total := 4;
      var i := 0;
      while i < size
        invariant i <= size && total == 4 + Codecs.Size(i, c.key.width, c.value.width)
        invariant printSize == total % TWO_TO_THE_32
      {
        Codecs.SizeNext(i + 1, c.key.width, c.value.width);
        SumIn32Bits(total, c.key.width);
        printSize := (printSize + c.key.width) % TWO_TO_THE_32;
        total := total + c.key.width;
        SumIn32Bits(total, c.value.width);
        printSize := (printSize + c.value.width) % TWO_TO_THE_32;
        total := total + c.value.width;
        i := i + 1;
      }
    }

    method Serialize(c: Codecs.Codec<K, V>, stream: seq<byte>, maxSize: nat) returns (result: ReturnValue, out: seq<byte>)
      requires Valid()
      ensures (result, out) == var header := Put(stream, Encode(size, 4, c.endianness), maxSize);
                               if header.0 == OK then Codecs.PutEntries(c, Entries(), header.1, maxSize) else header
    {
      var step := Put(stream, Encode(size, 4, c.endianness), maxSize);
      result, out := step.0, step.1;
      ghost var e := Entries();
      assert e[0..] == e;
      var i := 0;
      while result == OK && i < size
        invariant i <= size
        invariant step.0 == OK && result == OK ==>
          Codecs.PutEntries(c, e[i..], out, maxSize) == Codecs.PutEntries(c, e, step.1, maxSize)
        invariant step.0 == OK && result != OK ==> (result, out) == Codecs.PutEntries(c, e, step.1, maxSize)
        invariant step.0 != OK ==> (result, out) == step
      {
        assert e[i..][1..] == e[i + 1..];
        var field := Put(out, c.key.encode(theMap[i].key), maxSize);
        out := field.1;
        field := Put(out, c.value.encode(theMap[i].value), maxSize);
        result, out := field.0, field.1;
        i := i + 1;
      }
    }

    /** The number of entries is taken over before it is checked. */
    method DeSerialize(c: Codecs.Codec<K, V>, stream: seq<byte>) returns (result: ReturnValue, rest: seq<byte>)
      requires Valid()
      modifies this`size, theMap
      ensures |stream| < 4 ==> result == STREAM_TOO_SHORT && rest == stream && size == old(size)
                               && theMap[..] == old(theMap[..])
      ensures |stream| >= 4 ==> size == Uint32Codec(c.endianness).decode(stream[..4])
      ensures |stream| >= 4 && size > theMap.Length ==>
                result == TOO_MANY_ELEMENTS && theMap[..] == old(theMap[..])
      ensures |stream| >= 4 && size <= theMap.Length ==>
                (result, theMap[..], rest) == Codecs.TakeEntries(c, old(theMap[..]), 0, size, stream[4..])
      ensures Valid() <==> |stream| < 4 || Codecs.KeysDiffer(c, old(theMap[..]), size, stream[4..])
    {
      rest := stream;
      result := OK;
      match Take(stream, 4) {
        case None => result := STREAM_TOO_SHORT;
        case Some((bytes, s)) => size, rest := Uint32Codec(c.endianness).decode(bytes), s;
      }
      if size > theMap.Length {
        return TOO_MANY_ELEMENTS, rest;
      }
      ghost var slots, start := theMap[..], rest;
      Codecs.LeavesAMapIff(c, slots, size, start);
      var i := 0;
      while result == OK && i < size
        invariant i <= size <= theMap.Length
        invariant |stream| < 4 ==> result == STREAM_TOO_SHORT && rest == stream && theMap[..] == slots
        invariant |stream| >= 4 && result == OK ==>
          Codecs.TakeEntries(c, theMap[..], i, size, rest) == Codecs.TakeEntries(c, slots, 0, size, start)
        invariant |stream| >= 4 && result != OK ==>
          (result, theMap[..], rest) == Codecs.TakeEntries(c, slots, 0, size, start)
        modifies theMap
      {
        ghost var before := theMap[..];
        var key := Codecs.TakeField(c.key, theMap[i].key, rest);
        theMap[i] := theMap[i].(key := key.1);
        rest := key.2;
        var value := Codecs.TakeField(c.value, theMap[i].value, rest);
        theMap[i] := theMap[i].(value := value.1);
        result, rest := value.0, value.2;
        assert theMap[..] == before[i := Entry(key.1, value.1)];
        i := i + 1;
      }
    }
  }

  lemma SumIn32Bits(sum: nat, width: nat)
    ensures (sum % TWO_TO_THE_32 + width) % TWO_TO_THE_32 == (sum + width) % TWO_TO_THE_32
  {
  }

  lemma ConcatEmpty<T>(s: seq<T>)
    ensures [] + s == s
  {
  }

  /** A loop from begin to end that erases the doomed entries through its iterator. */
  method EraseWhileIterating<K(==), V>(m: FixedMap<K, V>, doomed: set<K>) returns (visited: seq<Entry<K, V>>)
    requires m.Valid()
    modifies m`size, m.theMap
    ensures m.Valid() && (visited, m.Entries()) == Sweep(old(m.Entries()), 0, doomed)
  {
    ghost var e := m.Entries();
    visited := [];
    var it: int := 0;
    ConcatEmpty(Sweep(e, 0, doomed).0);
    while it != m.size
      invariant m.Valid() && 0 <= it <= m.size
      invariant visited + Sweep(m.Entries(), it, doomed).0 == Sweep(e, 0, doomed).0
      invariant Sweep(m.Entries(), it, doomed).1 == Sweep(e, 0, doomed).1
      decreases m.size - it
    {
      SweepRound(m.Entries(), it, doomed, visited);
      visited := visited + [m.theMap[it]];
      if m.theMap[it].key in doomed {
        var _, it' := m.EraseIterator(it);
        it := it';
      }
      it := it + 1;
    }
    assert visited + [] == visited;
  }

  /** Serializing with room for the serialized size and reading into a map with enough slots gives the same
      entries in the same order and uses all of that size, if it is less than 2^32.  A larger one has wrapped,
      and then serializing fails unless it masks the failure. */
  method RoundTrip<K(==,!new), V(!new)>(c: Codecs.Codec<K, V>, m: FixedMap<K, V>, target: FixedMap<K, V>)
    returns (r1: ReturnValue, r2: ReturnValue, out: seq<byte>)
    requires Codecs.LawfulCodec(c) && m.Valid() && target.Valid()
    requires target.theMap != m.theMap && target != m && m.size <= target.theMap.Length
    modifies target`size, target.theMap
    ensures 4 + Codecs.Size(m.size, c.key.width, c.value.width) < TWO_TO_THE_32 ==>
              && r1 == r2 == OK && target.Valid() && target.Entries() == m.Entries()
              && |out| == 4 + Codecs.Size(m.size, c.key.width, c.value.width)
    ensures 4 + Codecs.Size(m.size, c.key.width, c.value.width) >= TWO_TO_THE_32 && c.key.width <= c.value.width ==>
              r1 != OK
  {
    var room := m.GetSerializedSize(c);
    ghost var e, slots := m.Entries(), target.theMap[..];
    r1, out := m.Serialize(c, [], room);
    if 4 + Codecs.Size(m.size, c.key.width, c.value.width) < TWO_TO_THE_32 {
      SerializedSizeSuffices(c, e, slots, room);
    } else if c.key.width <= c.value.width {
      WrappedSizeIsTooSmall(c, e, room);
    }
    var rest;
    r2, rest := target.DeSerialize(c, out);
    assert |e| <= |slots| && (e + slots[|e|..])[..|e|] == e;
  }

  /** With room for the serialized size everything is written and can be read back. */
  lemma SerializedSizeSuffices<K(!new), V(!new)>(c: Codecs.Codec<K, V>, e: seq<Entry<K, V>>, slots: seq<Entry<K, V>>,
                                                room: nat)
    requires Codecs.LawfulCodec(c) && |e| <= |slots| && |e| < TWO_TO_THE_32 && DistinctKeys(e)
    requires room == 4 + Codecs.Size(|e|, c.key.width, c.value.width)
    ensures var header := Put([], Encode(|e|, 4, c.endianness), room);
            var (r, out) := Codecs.PutEntries(c, e, header.1, room);
            && header.0 == OK && r == OK && |out| == room
            && Uint32Codec(c.endianness).decode(out[..4]) == |e|
            && Codecs.TakeEntries(c, slots, 0, |e|, out[4..]) == (OK, e + slots[|e|..], [])
            && Codecs.LeavesAMap(c, slots, |e|, out[4..])
  {
    var header := Encode(|e|, 4, c.endianness);
    Codecs.EncodedSize(c, e);
    Codecs.PutEntriesComplete(c, e, header, room);
    assert [] + header == header;
    var out := header + Codecs.EncodeEntries(c, e);
    Uint32CodecIsLawful(c.endianness);
    assert Uint32Codec(c.endianness).encode(|e|) == header;
    assert out[..4] == header && out[4..] == Codecs.EncodeEntries(c, e);
    assert e[0..] == e;
    assert Codecs.EncodeEntries(c, e) + [] == Codecs.EncodeEntries(c, e);
    Codecs.TakeEntriesEncoded(c, slots, 0, e, []);
    assert (e + slots[|e|..])[..|e|] == e;
  }

  /** A serialized size that wraps leaves too little room. */
  lemma WrappedSizeIsTooSmall<K(!new), V(!new)>(c: Codecs.Codec<K, V>, e: seq<Entry<K, V>>, room: nat)
    requires Codecs.LawfulCodec(c) && c.key.width <= c.value.width
    requires room < 4 + Codecs.Size(|e|, c.key.width, c.value.width)
    ensures var header := Put([], Encode(|e|, 4, c.endianness), room);
            header.0 == OK ==> Codecs.PutEntries(c, e, header.1, room).0 != OK
  {
    var header := Put([], Encode(|e|, 4, c.endianness), room);
    if header.0 == OK {
      Codecs.PutEntriesSucceedsIff(c, e, header.1, room);
      Codecs.WideValuesAreNotMasked(room - 4, |e|, c.key.width, c.value.width);
    }
  }
}
