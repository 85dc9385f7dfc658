/** A fixed-capacity map as the list of its entries, in slot order. */
module FixedMapModel {
  import opened Serialization

  datatype Entry<K, V> = Entry(key: K, value: V)

  ghost predicate DistinctKeys<K, V>(e: seq<Entry<K, V>>) {
    forall i, j :: 0 <= i < j < |e| ==> e[i].key != e[j].key
  }

  /** The first slot with the key, or the number of entries. */
  function Find<K(==), V>(e: seq<Entry<K, V>>, k: K): (i: nat)
    ensures i <= |e|
    ensures i < |e| ==> e[i].key == k
    ensures forall j :: 0 <= j < i ==> e[j].key != k
  {
    if e == [] then 0 else if e[0].key == k then 0 else
      var i := 1 + Find(e[1..], k);
      assert forall j :: 0 < j < i ==> e[j] == e[1..][j - 1];
      i
  }

  /** Erasing puts the last entry into the hole. */
  function EraseAt<K, V>(e: seq<Entry<K, V>>, i: nat): (r: seq<Entry<K, V>>)
    requires i < |e|
    ensures |r| == |e| - 1
  {
    seq(|e| - 1, j requires 0 <= j < |e| - 1 => if j == i then e[|e| - 1] else e[j])
  }

  lemma EraseKeepsDistinct<K, V>(e: seq<Entry<K, V>>, i: nat)
    requires DistinctKeys(e) && i < |e|
    ensures DistinctKeys(EraseAt(e, i))
  {
  }

  // ---------- the map the entries stand for ----------

  ghost function ToMap<K, V>(e: seq<Entry<K, V>>): (m: map<K, V>)
    requires DistinctKeys(e)
    ensures forall i :: 0 <= i < |e| ==> e[i].key in m && m[e[i].key] == e[i].value
    ensures forall k :: k in m ==> exists i :: 0 <= i < |e| && e[i].key == k
  {
    map i | 0 <= i < |e| :: e[i].key := e[i].value
  }

  lemma FindTells<K, V>(e: seq<Entry<K, V>>, k: K)
    requires DistinctKeys(e)
    ensures Find(e, k) < |e| <==> k in ToMap(e)
    ensures Find(e, k) < |e| ==> ToMap(e)[k] == e[Find(e, k)].value
  {
    if k in ToMap(e) {
      var i :| 0 <= i < |e| && e[i].key == k;
    }
  }

  lemma FindOwn<K, V>(e: seq<Entry<K, V>>, i: nat)
    requires DistinctKeys(e) && i < |e|
    ensures Find(e, e[i].key) == i
  {
  }

  lemma EraseIsRemoval<K, V>(e: seq<Entry<K, V>>, i: nat)
    requires DistinctKeys(e) && i < |e|
    ensures DistinctKeys(EraseAt(e, i))
    ensures ToMap(EraseAt(e, i)) == ToMap(e) - {e[i].key}
  {
    var r := EraseAt(e, i);
    EraseKeepsDistinct(e, i);
    forall k
      ensures k in ToMap(r) <==> k in ToMap(e) && k != e[i].key
    {
      ErasedKeys(e, i, k);
    }
  }

  lemma ErasedKeys<K, V>(e: seq<Entry<K, V>>, i: nat, k: K)
    requires DistinctKeys(e) && i < |e| && DistinctKeys(EraseAt(e, i))
    ensures k in ToMap(EraseAt(e, i)) <==> k in ToMap(e) && k != e[i].key
  {
    var r := EraseAt(e, i);
    FindTells(e, k);
    FindTells(r, k);
    var j := Find(e, k);
    if j < |e| && j != i {
      assert r[if j == |e| - 1 then i else j].key == k;
    }
    if Find(r, k) < |r| {
      assert r[Find(r, k)] == e[if Find(r, k) == i then |e| - 1 else Find(r, k)];
    }
  }

  lemma InsertIsUpdate<K, V>(e: seq<Entry<K, V>>, k: K, v: V)
    requires DistinctKeys(e) && k !in ToMap(e)
    ensures DistinctKeys(e + [Entry(k, v)])
    ensures ToMap(e + [Entry(k, v)]) == ToMap(e)[k := v]
  {
    var r := e + [Entry(k, v)];
    assert DistinctKeys(r);
    forall x
      ensures x in ToMap(r) <==> x in ToMap(e) || x == k
    {
      if x in ToMap(e) {
        var j :| 0 <= j < |e| && e[j].key == x;
        assert r[j].key == x;
      }
      if x == k {
        assert r[|e|].key == x;
      }
    }
  }

  lemma {:induction false} AsManyKeysAsEntries<K, V>(e: seq<Entry<K, V>>)
    requires DistinctKeys(e)
    ensures |ToMap(e)| == |e|
    decreases |e|
  {
    if e != [] {
      var front, last := e[..|e| - 1], e[|e| - 1];
      FindTells(front, last.key);
      InsertIsUpdate(front, last.key, last.value);
      AsManyKeysAsEntries(front);
      assert front + [last] == e;
    }
  }

  // ---------- runs ----------

  datatype Op<K, V> = Insert(key: K, value: V) | Erase(key: K) | Clear

  function Step<K(==), V>(e: seq<Entry<K, V>>, capacity: nat, op: Op<K, V>): (ReturnValue, seq<Entry<K, V>>) {
    match op
    case Insert(k, v) =>
      if Find(e, k) < |e| then (KEY_ALREADY_EXISTS, e)
      else if |e| == capacity then (MAP_FULL, e)
      else (OK, e + [Entry(k, v)])
    case Erase(k) =>
      if Find(e, k) < |e| then (OK, EraseAt(e, Find(e, k))) else (KEY_DOES_NOT_EXIST, e)
    case Clear => (OK, [])
  }

  /** A map of bounded size, with no slots in it. */
  function MapStep<K, V>(m: map<K, V>, capacity: nat, op: Op<K, V>): (ReturnValue, map<K, V>) {
    match op
    case Insert(k, v) =>
      if k in m then (KEY_ALREADY_EXISTS, m)
      else if |m| == capacity then (MAP_FULL, m)
      else (OK, m[k := v])
    case Erase(k) =>
      if k in m then (OK, m - {k}) else (KEY_DOES_NOT_EXIST, m)
    case Clear => (OK, map[])
  }

  lemma StepAgrees<K, V>(e: seq<Entry<K, V>>, capacity: nat, op: Op<K, V>)
    requires DistinctKeys(e) && |e| <= capacity
    ensures var (r, e') := Step(e, capacity, op);
            DistinctKeys(e') && |e'| <= capacity && (r, ToMap(e')) == MapStep(ToMap(e), capacity, op)
  {
    match op
    case Insert(k, v) =>
      FindTells(e, k);
      AsManyKeysAsEntries(e);
      if Find(e, k) == |e| { InsertIsUpdate(e, k, v); }
    case Erase(k) =>
      FindTells(e, k);
      if Find(e, k) < |e| { EraseIsRemoval(e, Find(e, k)); }
    case Clear =>
  }

  function Run<K(==), V>(e: seq<Entry<K, V>>, capacity: nat, ops: seq<Op<K, V>>): (seq<ReturnValue>, seq<Entry<K, V>>)
    decreases |ops|
  {
    if ops == [] then ([], e) else
      var (r, e') := Step(e, capacity, ops[0]);
      var (rest, end) := Run(e', capacity, ops[1..]);
      ([r] + rest, end)
  }

  function MapRun<K, V>(m: map<K, V>, capacity: nat, ops: seq<Op<K, V>>): (seq<ReturnValue>, map<K, V>)
    decreases |ops|
  {
    if ops == [] then ([], m) else
      var (r, m') := MapStep(m, capacity, ops[0]);
      var (rest, end) := MapRun(m', capacity, ops[1..]);
      ([r] + rest, end)
  }

  /** Over any run the keys stay distinct, and both the results and the contents are those of an
      abstract map of bounded size. */
  lemma {:induction false} RunAgrees<K, V>(e: seq<Entry<K, V>>, capacity: nat, ops: seq<Op<K, V>>)
    requires DistinctKeys(e) && |e| <= capacity
    ensures var (results, end) := Run(e, capacity, ops);
            && DistinctKeys(end) && |end| <= capacity
            && (results, ToMap(end)) == MapRun(ToMap(e), capacity, ops)
    decreases |ops|
  {
    if ops != [] {
      StepAgrees(e, capacity, ops[0]);
      RunAgrees(Step(e, capacity, ops[0]).1, capacity, ops[1..]);
    }
  }

  // ---------- erasing while iterating ----------

  /** One round of a loop over the map: the entry under the iterator is visited, and erased if its key
      is doomed; erasing steps the iterator back, and the loop steps it forward again. */
  function Sweep<K(==), V>(e: seq<Entry<K, V>>, i: nat, doomed: set<K>): (r: (seq<Entry<K, V>>, seq<Entry<K, V>>))
    requires i <= |e|
    decreases |e| - i
  {
    if i == |e| then ([], e) else
      var (visited, end) :=
        if e[i].key in doomed then Sweep(EraseAt(e, i), (i - 1) + 1, doomed) else Sweep(e, i + 1, doomed);
      ([e[i]] + visited, end)
  }

  lemma SweepRound<K, V>(e: seq<Entry<K, V>>, i: nat, doomed: set<K>, visited: seq<Entry<K, V>>)
    requires i < |e|
    ensures var next := if e[i].key in doomed then Sweep(EraseAt(e, i), i, doomed) else Sweep(e, i + 1, doomed);
            && visited + Sweep(e, i, doomed).0 == (visited + [e[i]]) + next.0
            && Sweep(e, i, doomed).1 == next.1
  {
  }

  lemma EraseMovesLast<K, V>(e: seq<Entry<K, V>>, i: nat)
    requires i < |e|
    ensures EraseAt(e, i)[..i] == e[..i]
    ensures multiset(EraseAt(e, i)[i..]) + multiset{e[i]} == multiset(e[i..])
  {
    var last := |e| - 1;
    if i == last {
      assert EraseAt(e, i)[i..] == [];
      assert e[i..] == [e[i]];
    } else {
      assert EraseAt(e, i)[i..] == [e[last]] + e[i + 1..last];
      assert e[i..] == [e[i]] + e[i + 1..last] + [e[last]];
    }
  }

  /** The sweep visits every entry from i on exactly once, whichever keys are doomed. */
  lemma {:induction false} SweepVisitsAllOnce<K, V>(e: seq<Entry<K, V>>, i: nat, doomed: set<K>)
    requires i <= |e|
    ensures multiset(Sweep(e, i, doomed).0) == multiset(e[i..])
    decreases |e| - i
  {
    if i < |e| {
      if e[i].key in doomed {
        SweepVisitsAllOnce(EraseAt(e, i), i, doomed);
        EraseMovesLast(e, i);
      } else {
        SweepVisitsAllOnce(e, i + 1, doomed);
        assert e[i..] == [e[i]] + e[i + 1..];
      }
    }
  }

  /** What is left are the entries before i and the entries from i on whose keys are not doomed. */
  lemma {:induction false} SweepLeavesTheKept<K, V>(e: seq<Entry<K, V>>, i: nat, doomed: set<K>, x: Entry<K, V>)
    requires DistinctKeys(e) && i <= |e|
    ensures DistinctKeys(Sweep(e, i, doomed).1)
    ensures x in Sweep(e, i, doomed).1 <==> x in e[..i] || (x in e[i..] && x.key !in doomed)
    decreases |e| - i
  {
    if i == |e| {
      assert e[..i] == e;
    } else {
      assert e[i..] == [e[i]] + e[i + 1..];
      if e[i].key in doomed {
        EraseKeepsDistinct(e, i);
        SweepLeavesTheKept(EraseAt(e, i), i, doomed, x);
        EraseMovesLast(e, i);
        assert x in e[i..] <==> x in multiset(e[i..]);
        assert x in EraseAt(e, i)[i..] <==> x in multiset(EraseAt(e, i)[i..]);
      } else {
        SweepLeavesTheKept(e, i + 1, doomed, x);
        assert e[..i + 1] == e[..i] + [e[i]];
      }
    }
  }
}
