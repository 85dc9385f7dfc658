/** What a dump of an indexed ring store is to read.

    `ByteAddresses` lists the addresses of all stored bytes block by block.  A read position is a
    position in the age order of the last block to read, and an offset in that block; `Todo` is what
    is left to read from there. */
module RingStoreDump {
  import opened RingStoreModel
  import opened RingStoreGeometry

  function Span(start: nat, length: nat): (s: seq<nat>)
    ensures |s| == length
  {
    seq(length, i requires 0 <= i => start + i)
  }

  function ByteAddresses<T>(a: seq<Index<T>>): seq<nat> {
    if a == [] then [] else Span(a[0].blockStartAddress, a[0].size) + ByteAddresses(a[1..])
  }

  function Todo<T>(a: seq<Index<T>>, position: nat, offset: nat): seq<nat>
    requires position < |a| && offset <= a[position].size
  {
    Span(a[position].blockStartAddress + offset, a[position].size - offset) + ByteAddresses(a[position + 1..])
  }

  lemma TodoFromStart<T>(a: seq<Index<T>>, position: nat)
    requires position < |a|
    ensures Todo(a, position, 0) == ByteAddresses(a[position..])
  {
    assert a[position..][1..] == a[position + 1..];
  }

  /** Reading on within a block. */
  lemma TodoWithinBlock<T>(a: seq<Index<T>>, position: nat, offset: nat, k: nat)
    requires position < |a| && offset + k <= a[position].size
    ensures k <= |Todo(a, position, offset)|
    ensures Todo(a, position, offset + k) == Todo(a, position, offset)[k..]
    ensures Todo(a, position, offset)[..k] == Span(a[position].blockStartAddress + offset, k)
  {
    var start := a[position].blockStartAddress + offset;
    var rest := ByteAddresses(a[position + 1..]);
    SpanSplit(start, a[position].size - offset, k);
    assert (Span(start, k) + Span(start + k, a[position].size - offset - k) + rest)[k..]
        == Span(start + k, a[position].size - offset - k) + rest;
  }

  lemma SpanSplit(start: nat, length: nat, k: nat)
    requires k <= length
    ensures Span(start, length) == Span(start, k) + Span(start + k, length - k)
  {
  }

  /** Empty blocks add nothing. */
  lemma {:induction false} SkipEmptyBlocks<T>(a: seq<Index<T>>, i: nat, j: nat)
    requires i <= j <= |a| && forall k :: i <= k < j ==> a[k].size == 0
    ensures ByteAddresses(a[i..]) == ByteAddresses(a[j..])
    decreases j - i
  {
    if i < j {
      SkipEmptyBlocks(a, i + 1, j);
      assert a[i..][1..] == a[i + 1..];
      assert ByteAddresses(a[i..]) == Span(a[i].blockStartAddress, 0) + ByteAddresses(a[i + 1..]);
    }
  }

  /** Finishing a block and going on with the next block that is not empty. */
  lemma TodoNextBlock<T>(a: seq<Index<T>>, position: nat, offset: nat, next: nat)
    requires position < next < |a| && offset <= a[position].size
    requires forall k :: position < k < next ==> a[k].size == 0
    ensures a[position].size - offset <= |Todo(a, position, offset)|
    ensures Todo(a, next, 0) == Todo(a, position, offset)[a[position].size - offset..]
  {
    SkipEmptyBlocks(a, position + 1, next);
    TodoFromStart(a, next);
  }

  /** Going on from an empty block, with only empty blocks in between. */
  lemma TodoSkip<T>(a: seq<Index<T>>, position: nat, next: nat)
    requires position <= next < |a|
    requires forall k :: position <= k < next ==> a[k].size == 0
    ensures Todo(a, next, 0) == Todo(a, position, 0)
    ensures a[next].size != 0 ==> Todo(a, next, 0) != []
    ensures next == |a| - 1 && a[next].size == 0 ==> Todo(a, next, 0) == []
  {
    SkipEmptyBlocks(a, position, next);
    TodoFromStart(a, position);
    TodoFromStart(a, next);
  }

  lemma TodoEmptyIff<T>(a: seq<Index<T>>, position: nat, offset: nat)
    requires position < |a| && offset <= a[position].size
    requires position == |a| - 1 || a[position].size > offset
    ensures Todo(a, position, offset) == [] <==> a[position].size == offset
  {
  }

  /** From the first non-empty block on, everything is to be read. */
  lemma TodoFromOldest<T>(a: seq<Index<T>>)
    requires a != []
    ensures Todo(a, FirstNonEmpty(a), 0) == ByteAddresses(a)
    ensures ByteAddresses(a) != [] ==> a[FirstNonEmpty(a)].size > 0
  {
    var r := FirstNonEmpty(a);
    SkipEmptyBlocks(a, 0, r);
    TodoFromStart(a, r);
    assert a[0..] == a;
    TodoEmptyIff(a, r, 0);
  }

  // ---------- the list is complete and has no duplicates ----------

  lemma {:induction false} AsManyAsTheTotal<T>(a: seq<Index<T>>)
    ensures |ByteAddresses(a)| == Total(Entries(a), Bytes)
  {
    if a != [] {
      AsManyAsTheTotal(a[1..]);
      assert Entries(a)[1..] == Entries(a[1..]);
    }
  }

  lemma {:induction false} AddressesAreInBlocks<T>(a: seq<Index<T>>, x: nat)
    ensures x in ByteAddresses(a) <==> exists i :: 0 <= i < |a| && a[i].blockStartAddress <= x < a[i].End()
  {
    if a != [] {
      AddressesAreInBlocks(a[1..], x);
      var span := Span(a[0].blockStartAddress, a[0].size);
      assert x in span <==> a[0].blockStartAddress <= x < a[0].End() by {
        if a[0].blockStartAddress <= x < a[0].End() {
          assert span[x - a[0].blockStartAddress] == x;
        }
      }
      if i :| 0 <= i < |a| && a[i].blockStartAddress <= x < a[i].End() {
        if i > 0 { assert a[1..][i - 1] == a[i]; }
      }
    }
  }

  predicate Apart<T>(x: Index<T>, y: Index<T>) {
    x.End() <= y.blockStartAddress || y.End() <= x.blockStartAddress
  }

  ghost predicate PairwiseApart<T>(a: seq<Index<T>>) {
    forall i, j :: 0 <= i < j < |a| ==> Apart(a[i], a[j])
  }

  ghost predicate Distinct(s: seq<nat>) {
    forall i, j :: 0 <= i < j < |s| ==> s[i] != s[j]
  }

  lemma DistinctConcat(s: seq<nat>, t: seq<nat>)
    requires Distinct(s) && Distinct(t) && forall x :: x in t ==> x !in s
    ensures Distinct(s + t)
  {
    forall i, j | 0 <= i < j < |s + t|
      ensures (s + t)[i] != (s + t)[j]
    {
      if i < |s| <= j {
        assert t[j - |s|] in t;
      }
    }
  }

  lemma {:induction false} ApartBlocksHaveDistinctAddresses<T>(a: seq<Index<T>>)
    requires PairwiseApart(a)
    ensures Distinct(ByteAddresses(a))
  {
    if a != [] {
      var rest := ByteAddresses(a[1..]);
      ApartBlocksHaveDistinctAddresses(a[1..]);
      forall x | x in rest
        ensures x !in Span(a[0].blockStartAddress, a[0].size)
      {
        AddressesAreInBlocks(a[1..], x);
        var i :| 0 <= i < |a[1..]| && a[1..][i].blockStartAddress <= x < a[1..][i].End();
        assert Apart(a[0], a[i + 1]);
      }
      DistinctConcat(Span(a[0].blockStartAddress, a[0].size), rest);
    }
  }

  lemma AgedBlocksAreApart<T>(g: Layout, s: Store<T>)
    requires InStore(s) && LaidOut(g, s.blocks) && Contained(g, s.blocks)
    ensures PairwiseApart(Aged(s))
  {
    var n := |s.blocks|;
    forall i, j | 0 <= i < j < n
      ensures Apart(Aged(s)[i], Aged(s)[j])
    {
      var p, q := RingPosition(i, s.w, n), RingPosition(j, s.w, n);
      DataIsDisjointAndInside(g, s.blocks, p, q);
      DataIsDisjointAndInside(g, s.blocks, q, p);
    }
  }

  /** In a laid-out, contained store the bytes in age order are as many as the store reports, no
      address occurs twice, and every address is inside the store. */
  lemma DumpIsCompleteAndDistinct<T>(g: Layout, s: Store<T>)
    requires InStore(s) && LaidOut(g, s.blocks) && Contained(g, s.blocks)
    ensures |ByteAddresses(Aged(s))| == Total(Entries(s.blocks), Bytes)
    ensures Distinct(ByteAddresses(Aged(s)))
    ensures forall x :: x in ByteAddresses(Aged(s)) ==> g.start <= x < g.start + g.total
  {
    AsManyAsTheTotal(Aged(s));
    AgeOrderKeepsTotal(s.blocks, s.w, Bytes);
    AgedBlocksAreApart(g, s);
    ApartBlocksHaveDistinctAddresses(Aged(s));
    forall x | x in ByteAddresses(Aged(s))
      ensures g.start <= x < g.start + g.total
    {
      AddressesAreInBlocks(Aged(s), x);
      var i :| 0 <= i < |Aged(s)| && Aged(s)[i].blockStartAddress <= x < Aged(s)[i].End();
      DataIsDisjointAndInside(g, s.blocks, RingPosition(i, s.w, |s.blocks|), 0);
    }
  }
}
