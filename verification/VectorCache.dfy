/** The embedding cache: a map and a recency list under one bound on the bytes of the vectors. */
module VectorCache {
  import opened Wrappers

  /** A model and the hash of a passage. */
  type Key = nat
  type Vector = seq<real>

  datatype Entry = Entry(key: Key, vector: Vector)

  // ---- the recency list, most recent first ----

  predicate Holds(order: seq<Entry>, key: Key) { exists i :: 0 <= i < |order| && order[i].key == key }

  ghost predicate Distinct(order: seq<Entry>) {
    forall i, j :: 0 <= i < j < |order| ==> order[i].key != order[j].key
  }

  /** The bytes its vectors take. */
  function Bytes(order: seq<Entry>): (n: nat)
    decreases |order|
  {
    if order == [] then 0 else Bytes(order[..|order| - 1]) + 4 * |order[|order| - 1].vector|
  }

  function Without(order: seq<Entry>, key: Key): (r: seq<Entry>)
    decreases |order|
  {
    if order == [] then []
    else
      var n := |order| - 1;
      Without(order[..n], key) + (if order[n].key == key then [] else [order[n]])
  }

  function Find(order: seq<Entry>, key: Key): (r: Entry)
    requires Holds(order, key)
    ensures r.key == key && r in order
    decreases |order|
  {
    var n := |order| - 1;
    if order[n].key == key then order[n]
    else
      assert Holds(order[..n], key) by {
        var i :| 0 <= i < |order| && order[i].key == key;
        assert order[..n][i].key == key;
      }
      Find(order[..n], key)
  }

  /** Using an entry puts it in front of all others. */
  function Use(order: seq<Entry>, e: Entry): (r: seq<Entry>) { [e] + Without(order, e.key) }

  /** The longest front of the list within the bound. */
  function Front(order: seq<Entry>, max: int): (r: seq<Entry>)
    ensures r <= order
    ensures Bytes(r) <= max || r == []
    decreases |order|
  {
    if order == [] || Bytes(order) <= max then order else Front(order[..|order| - 1], max)
  }

  // ---- what the list keeps ----

  lemma {:induction false} WithoutMembers(order: seq<Entry>, key: Key)
    ensures forall e :: e in Without(order, key) <==> e in order && e.key != key
    ensures !Holds(order, key) ==> Without(order, key) == order
    decreases |order|
  {
    if order != [] {
      var n := |order| - 1;
      WithoutMembers(order[..n], key);
      assert order == order[..n] + [order[n]];
      if !Holds(order, key) {
        assert !Holds(order[..n], key);
      }
    }
  }

  lemma {:induction false} WithoutIsDistinct(order: seq<Entry>, key: Key)
    requires Distinct(order)
    ensures Distinct(Without(order, key))
    decreases |order|
  {
    if order != [] {
      var n := |order| - 1;
      WithoutIsDistinct(order[..n], key);
      WithoutMembers(order[..n], key);
      assert forall i :: 0 <= i < n ==> order[..n][i].key != order[n].key;
    }
  }

  lemma WithoutFacts(order: seq<Entry>, key: Key)
    requires Distinct(order)
    ensures var r := Without(order, key);
            && Distinct(r) && !Holds(r, key)
            && (forall e :: e in r <==> e in order && e.key != key)
            && (!Holds(order, key) ==> r == order)
  {
    WithoutIsDistinct(order, key);
    WithoutMembers(order, key);
  }

  lemma {:induction false} WithoutBytes(order: seq<Entry>, key: Key)
    requires Distinct(order)
    ensures Bytes(Without(order, key)) + (if Holds(order, key) then 4 * |Find(order, key).vector| else 0) == Bytes(order)
    decreases |order|
  {
    if order != [] {
      var n := |order| - 1;
      var before := Without(order[..n], key);
      WithoutBytes(order[..n], key);
      assert Holds(order[..n], key) ==> Holds(order, key) by {
        if Holds(order[..n], key) {
          var i :| 0 <= i < n && order[..n][i].key == key;
          assert order[i].key == key;
        }
      }
      if order[n].key == key {
        assert !Holds(order[..n], key);
        assert Without(order, key) == before;
      } else {
        assert (before + [order[n]])[..|before|] == before;
        assert Holds(order, key) ==> Holds(order[..n], key) by {
          if Holds(order, key) {
            var i :| 0 <= i < |order| && order[i].key == key;
            assert order[..n][i].key == key;
          }
        }
      }
    }
  }

  lemma {:induction false} BytesInFront(e: Entry, order: seq<Entry>)
    ensures Bytes([e] + order) == 4 * |e.vector| + Bytes(order)
    decreases |order|
  {
    var r := [e] + order;
    if order == [] {
      assert r[..0] == [];
    } else {
      assert r[..|r| - 1] == [e] + order[..|order| - 1];
      BytesInFront(e, order[..|order| - 1]);
    }
  }

  lemma UseKeepsDistinct(order: seq<Entry>, e: Entry)
    requires Distinct(order)
    ensures Distinct(Use(order, e))
  {
    WithoutFacts(order, e.key);
    var r := Without(order, e.key);
    assert forall i :: 0 <= i < |r| ==> r[i].key != e.key;
  }

  /** Nothing longer than the front that is kept would fit. */
  lemma {:induction false} FrontIsLongest(order: seq<Entry>, max: int, n: nat)
    requires |Front(order, max)| < n <= |order|
    ensures Bytes(order[..n]) > max
    decreases |order|
  {
    if n < |order| {
      FrontIsLongest(order[..|order| - 1], max, n);
      assert order[..|order| - 1][..n] == order[..n];
    } else {
      assert order[..n] == order;
    }
  }

  lemma {:induction false} FindIsTheEntry(order: seq<Entry>, key: Key)
    requires Distinct(order) && Holds(order, key)
    ensures forall i :: 0 <= i < |order| && order[i].key == key ==> order[i] == Find(order, key)
    decreases |order|
  {
    var e := Find(order, key);
    var k :| 0 <= k < |order| && order[k] == e;
  }

  lemma HoldsInFront(e: Entry, order: seq<Entry>)
    ensures forall key :: Holds([e] + order, key) <==> key == e.key || Holds(order, key)
  {
    var r := [e] + order;
    assert r[0] == e && forall i :: 0 <= i < |order| ==> r[i + 1] == order[i];
    forall key | Holds(order, key)
      ensures Holds(r, key)
    {
      var i :| 0 <= i < |order| && order[i].key == key;
      assert r[i + 1].key == key;
    }
  }

  lemma HoldsSnoc(order: seq<Entry>, e: Entry)
    ensures forall key :: Holds(order + [e], key) <==> key == e.key || Holds(order, key)
  {
    var r := order + [e];
    assert r[|order|] == e;
    forall key | Holds(order, key)
      ensures Holds(r, key)
    {
      var i :| 0 <= i < |order| && order[i].key == key;
      assert r[i].key == key;
    }
  }

  /** Moving an entry to the front keeps what is held and its bytes. */
  lemma UseKeeps(order: seq<Entry>, e: Entry)
    requires Distinct(order) && Holds(order, e.key) && e == Find(order, e.key)
    ensures var r := Use(order, e);
            && Distinct(r) && Bytes(r) == Bytes(order)
            && (forall x :: x in r <==> x in order)
            && (forall key :: Holds(r, key) <==> Holds(order, key))
  {
    UseKeepsDistinct(order, e);
    WithoutFacts(order, e.key);
    WithoutBytes(order, e.key);
    BytesInFront(e, Without(order, e.key));
    FindIsTheEntry(order, e.key);
    SameHeld(Use(order, e), order);
  }

  lemma SameHeld(a: seq<Entry>, b: seq<Entry>)
    requires forall x :: x in a <==> x in b
    ensures forall key :: Holds(a, key) <==> Holds(b, key)
  {
    forall key
      ensures Holds(a, key) <==> Holds(b, key)
    {
      if Holds(a, key) {
        var i :| 0 <= i < |a| && a[i].key == key;
        assert a[i] in b;
      }
      if Holds(b, key) {
        var i :| 0 <= i < |b| && b[i].key == key;
        assert b[i] in a;
      }
    }
  }

  // ---- the map beside the list ----

  /** The map and the list hold the same keys, with the same vectors. */
  ghost predicate Mirrors(entries: map<Key, Vector>, order: seq<Entry>) {
    && (forall key :: key in entries <==> Holds(order, key))
    && (forall i :: 0 <= i < |order| ==> order[i].key in entries && entries[order[i].key] == order[i].vector)
  }

  lemma MirrorsUse(entries: map<Key, Vector>, order: seq<Entry>, key: Key)
    requires Distinct(order) && Mirrors(entries, order) && key in entries
    ensures Holds(order, key) && Find(order, key) == Entry(key, entries[key])
    ensures var r := Use(order, Find(order, key)); Distinct(r) && Bytes(r) == Bytes(order) && Mirrors(entries, r)
  {
    var e := Find(order, key);
    FindIsTheEntry(order, key);
    UseKeeps(order, e);
    var r := Use(order, e);
    forall i | 0 <= i < |r|
      ensures r[i].key in entries && entries[r[i].key] == r[i].vector
    {
      assert r[i] in order;
    }
  }

  lemma MirrorsPush(entries: map<Key, Vector>, order: seq<Entry>, e: Entry)
    requires Distinct(order) && Mirrors(entries, order) && e.key !in entries
    ensures var r := [e] + order;
            && r == Use(order, e) && Distinct(r) && Bytes(r) == Bytes(order) + 4 * |e.vector|
            && Mirrors(entries[e.key := e.vector], r)
  {
    hide Bytes, Without;
    WithoutFacts(order, e.key);
    BytesInFront(e, order);
    UseKeepsDistinct(order, e);
    PushedMap(entries, order, e);
  }

  lemma PushedMap(entries: map<Key, Vector>, order: seq<Entry>, e: Entry)
    requires Mirrors(entries, order) && e.key !in entries
    ensures Mirrors(entries[e.key := e.vector], [e] + order)
  {
    var r, after := [e] + order, entries[e.key := e.vector];
    HoldsInFront(e, order);
    forall i | 0 <= i < |r|
      ensures r[i].key in after && after[r[i].key] == r[i].vector
    {
      if i > 0 {
        assert r[i] == order[i - 1];
      }
    }
  }

  lemma MirrorsPop(entries: map<Key, Vector>, order: seq<Entry>)
    requires Distinct(order) && Mirrors(entries, order) && order != []
    ensures var oldest, r := order[|order| - 1], order[..|order| - 1];
            && Distinct(r) && Bytes(r) == Bytes(order) - 4 * |oldest.vector|
            && Mirrors(entries - {oldest.key}, r)
  {
    var oldest, r := order[|order| - 1], order[..|order| - 1];
    HoldsSnoc(r, oldest);
    assert r + [oldest] == order;
    assert !Holds(r, oldest.key);
  }

  lemma FrontOfFitting(order: seq<Entry>, max: int)
    ensures order == [] || Bytes(order) <= max ==> Front(order, max) == order
    ensures order != [] && Bytes(order) > max ==> Front(order, max) == Front(order[..|order| - 1], max)
  {
  }

  // ---- the cache ----

  datatype Op = Get(key: Key) | Put(key: Key, vector: Vector)

  /** The list after an operation, as the methods leave it. */
  function Step(order: seq<Entry>, max: int, op: Op): seq<Entry> {
    if Holds(order, op.key) then Use(order, Find(order, op.key))
    else if op.Get? then order
    else Front(Use(order, Entry(op.key, op.vector)), max)
  }

  class VectorCache {
    const max: int
    var size: int
    var entries: map<Key, Vector>
    var order: seq<Entry>

    ghost predicate Valid()
      reads this
    {
      Distinct(order) && size == Bytes(order) && Mirrors(entries, order)
    }

    constructor (max: int)
      ensures Valid() && this.max == max && order == []
    {
      this.max := max;
      size, entries, order := 0, map[], [];
    }

    method Get(key: Key) returns (r: Option<Vector>)
      requires Valid()
      modifies this`order
      ensures Valid()
      ensures r.Some? == Holds(old(order), key)
      ensures r.Some? ==> r.value == Find(old(order), key).vector
      ensures order == Step(old(order), max, Op.Get(key))
    {
      if key !in entries {
        return None;
      }
      MirrorsUse(entries, order, key);
      hide Mirrors, Distinct, Bytes, Without;
      order := [Entry(key, entries[key])] + Without(order, key);
      return Some(entries[key]);
    }

    method Put(key: Key, vector: Vector)
      requires Valid()
      modifies this
      ensures Valid()
      ensures order == Step(old(order), max, Op.Put(key, vector))
    {
      if key in entries {
        var hit := Get(key);
        return;
      }
      MirrorsPush(entries, order, Entry(key, vector));
      hide Mirrors, Distinct, Without, Bytes, Front;
      order := [Entry(key, vector)] + order;
      entries := entries[key := vector];
      size := size + 4 * |vector|;
      Evict();
    }

    /** The least recently used vectors go while the rest take more than the bound. */
    method Evict()
      requires Valid()
      modifies this
      ensures Valid() && order == Front(old(order), max)
    {
      hide Mirrors, Distinct, Bytes, Front;
      while size > max && |order| > 0
        invariant Valid() && Front(order, max) == Front(old(order), max)
        decreases |order|
      {
        FrontOfFitting(order, max);
        MirrorsPop(entries, order);
        var oldest := order[|order| - 1];
        order := order[..|order| - 1];
        entries := entries - {oldest.key};
        size := size - 4 * |oldest.vector|;
      }
      FrontOfFitting(order, max);
    }
  }

  // ---- whole runs ----

  function Run(max: int, ops: seq<Op>): seq<Entry>
    decreases |ops|
  {
    if ops == [] then [] else Step(Run(max, ops[..|ops| - 1]), max, ops[|ops| - 1])
  }

  /** The entry an operation used: a hit, or a vector put in; none for a miss. */
  function Used(order: seq<Entry>, op: Op): (e: Option<Entry>)
    ensures e.Some? ==> e.value.key == op.key
  {
    if Holds(order, op.key) then Some(Find(order, op.key))
    else if op.Get? then None
    else Some(Entry(op.key, op.vector))
  }

  /** Every entry ever used, by its last use, with nothing evicted: what an unbounded cache would hold. */
  function Recency(max: int, ops: seq<Op>): seq<Entry>
    decreases |ops|
  {
    if ops == [] then []
    else
      var before := ops[..|ops| - 1];
      var e := Used(Run(max, before), ops[|ops| - 1]);
      if e.None? then Recency(max, before) else Use(Recency(max, before), e.value)
  }

  lemma {:induction false} WithoutOfPrefix(a: seq<Entry>, b: seq<Entry>, key: Key)
    requires a <= b && Distinct(b)
    ensures Without(a, key) <= Without(b, key)
    decreases |b|
  {
    if |a| < |b| {
      WithoutOfPrefix(a, b[..|b| - 1], key);
    } else {
      assert a == b;
    }
  }

  /**
   * After any operations, whatever the bound, the cache holds the most recently used entries and nothing else:
   * what was evicted is always the least recently used end.
   */
  lemma {:induction false} HoldsTheMostRecent(max: int, ops: seq<Op>)
    ensures Distinct(Run(max, ops)) && Distinct(Recency(max, ops)) && Run(max, ops) <= Recency(max, ops)
    decreases |ops|
  {
    if ops != [] {
      var n := |ops| - 1;
      var order, all := Run(max, ops[..n]), Recency(max, ops[..n]);
      HoldsTheMostRecent(max, ops[..n]);
      var e := Used(order, ops[n]);
      if e.Some? {
        UseKeepsDistinct(order, e.value);
        UseKeepsDistinct(all, e.value);
        WithoutOfPrefix(order, all, e.value.key);
        assert Run(max, ops) <= Use(order, e.value);
      }
    }
  }

  /** Once within its bound the cache stays within it. */
  lemma {:induction false} StaysWithinBound(max: int, ops: seq<Op>)
    ensures Run(max, ops) == [] || Bytes(Run(max, ops)) <= max
    decreases |ops|
  {
    if ops != [] {
      var n := |ops| - 1;
      StaysWithinBound(max, ops[..n]);
      HoldsTheMostRecent(max, ops[..n]);
      var order := Run(max, ops[..n]);
      if Holds(order, ops[n].key) {
        UseKeeps(order, Find(order, ops[n].key));
      }
    }
  }

  predicate WasPut(ops: seq<Op>, e: Entry) { exists i :: 0 <= i < |ops| && ops[i] == Put(e.key, e.vector) }

  /** Every vector a hit can return was put in for that very key. */
  lemma {:induction false} EveryVectorWasPut(max: int, ops: seq<Op>, e: Entry)
    requires e in Run(max, ops)
    ensures WasPut(ops, e)
    decreases |ops|
  {
    var n := |ops| - 1;
    var order := Run(max, ops[..n]);
    HoldsTheMostRecent(max, ops[..n]);
    if e in order {
      EveryVectorWasPut(max, ops[..n], e);
      var i :| 0 <= i < n && ops[..n][i] == Put(e.key, e.vector);
      assert ops[i] == ops[..n][i];
    } else {
      if Holds(order, ops[n].key) {
        UseKeeps(order, Find(order, ops[n].key));
      } else {
        WithoutFacts(order, ops[n].key);
      }
      assert ops[n] == Put(e.key, e.vector);
    }
  }

  /** A cache big enough for every vector put in never misses one. */
  lemma {:induction false} NothingIsLostInARoomyCache(max: int, ops: seq<Op>, i: nat)
    requires i < |ops| && ops[i].Put?
    requires forall n :: 0 <= n <= |ops| ==> Bytes(Recency(max, ops[..n])) <= max
    ensures Run(max, ops) == Recency(max, ops) && Holds(Run(max, ops), ops[i].key)
    decreases |ops|
  {
    RoomyCache(max, ops);
    PutIsHeld(max, ops, i);
  }

  lemma {:induction false} RoomyCache(max: int, ops: seq<Op>)
    requires forall n :: 0 <= n <= |ops| ==> Bytes(Recency(max, ops[..n])) <= max
    ensures Run(max, ops) == Recency(max, ops)
    decreases |ops|
  {
    if ops != [] {
      var n := |ops| - 1;
      assert forall m :: 0 <= m <= n ==> ops[..n][..m] == ops[..m];
      RoomyCache(max, ops[..n]);
      assert ops[..|ops|] == ops;
    }
  }

  lemma HeldAfterUse(order: seq<Entry>, e: Entry, key: Key)
    requires Distinct(order) && (key == e.key || Holds(order, key))
    ensures Holds(Use(order, e), key)
  {
    WithoutFacts(order, e.key);
    HoldsInFront(e, Without(order, e.key));
    if key != e.key {
      var k :| 0 <= k < |order| && order[k].key == key;
      assert order[k] in Without(order, e.key);
    }
  }

  lemma {:induction false} PutIsHeld(max: int, ops: seq<Op>, i: nat)
    requires i < |ops| && ops[i].Put?
    ensures Holds(Recency(max, ops), ops[i].key)
    decreases |ops|
  {
    hide Run, Use, Distinct;
    var n := |ops| - 1;
    HoldsTheMostRecent(max, ops[..n]);
    var e := Used(Run(max, ops[..n]), ops[n]);
    if i < n {
      PutIsHeld(max, ops[..n], i);
    }
    if e.Some? {
      HeldAfterUse(Recency(max, ops[..n]), e.value, ops[i].key);
    }
  }
}
