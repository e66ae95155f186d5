/**
 The bucket table of map.c as a value: what is in it, where keys may sit, and how
 the buckets are threaded together. Pointers between buckets are indices.
 */
module HashTables {
  import opened Wire
  import opened OrderedMaps

  /** A bucket without a key is unused (value 0) or a tombstone (any other value). */
  datatype Bucket = Bucket(next: int, key: Option<Key>, hash: u32, value: Value)

  /** The null pointer, and in `last` the imaginary bucket in front of the first. */
  const NIL := -1

  const UNUSED := Bucket(NIL, None, 0, 0)
  const TOMBSTONE: Value := 0xDEAD

  type Table = seq<Bucket>

  predicate Used(b: Bucket) { b.key.Some? || b.value != 0 }

  /** hash % m->capacity */
  function Home(h: u32, capacity: nat): (i: nat)
    requires capacity > 0
    ensures i < capacity
  {
    h % capacity
  }

  /** Going round from `home`, j comes before i. */
  predicate OnPath(home: nat, j: nat, i: nat) {
    if home <= i then home <= j < i else j >= home || j < i
  }

  // ----- The table

  /** `order` lists the used buckets in the order of the linked list. */
  ghost predicate Ordered(t: Table, order: seq<nat>) {
    && (forall a :: 0 <= a < |order| ==> order[a] < |t|)
    && (forall a, b :: 0 <= a < b < |order| ==> order[a] != order[b])
    && (forall i :: 0 <= i < |t| ==> (Used(t[i]) <==> i in order))
  }

  /** No unused bucket lies between a live key's home and its bucket. */
  ghost predicate Reachable(t: Table, hash: Key -> u32, i: nat)
    requires i < |t|
  {
    t[i].key.Some? ==>
      && t[i].hash == hash(t[i].key.value)
      && forall j :: 0 <= j < |t| && OnPath(Home(t[i].hash, |t|), j, i) ==> Used(t[j])
  }

  ghost predicate Sound(t: Table, hash: Key -> u32) {
    && |t| > 0
    && (forall i :: 0 <= i < |t| ==> Reachable(t, hash, i))
    && (forall i, j :: 0 <= i < j < |t| && t[i].key.Some? ==> t[i].key != t[j].key)
  }

  /** The list from `first` runs through `order` and ends at `last`. */
  ghost predicate Linked(t: Table, order: seq<nat>, first: int, last: int) {
    && (forall a :: 0 <= a < |order| ==> order[a] < |t|)
    && first == (if order == [] then NIL else order[0])
    && last == (if order == [] then NIL else order[|order| - 1])
    && (forall a :: 0 <= a < |order| - 1 ==> t[order[a]].next == order[a + 1])
    && (order != [] ==> t[order[|order| - 1]].next == NIL)
  }

  /** The live entries in the order of the list. */
  function EntriesOf(t: Table, order: seq<nat>): (es: Entries)
    ensures |es| <= |order|
  {
    if order == [] then []
    else EntriesOf(t, order[..|order| - 1]) + EntryAt(t, order[|order| - 1])
  }

  function EntryAt(t: Table, i: nat): (es: Entries)
    ensures |es| <= 1
  {
    if i < |t| && t[i].key.Some? then [(t[i].key.value, t[i].value)] else []
  }

  lemma {:induction false} EntriesMore(t: Table, order: seq<nat>, i: nat)
    ensures EntriesOf(t, order + [i]) == EntriesOf(t, order) + EntryAt(t, i)
  {
  }

  /** Every entry comes from a bucket of the list. */
  lemma {:induction false} EntryComesFrom(t: Table, order: seq<nat>, x: nat) returns (a: nat)
    requires x < |EntriesOf(t, order)|
    ensures a < |order| && order[a] < |t|
    ensures t[order[a]].key == Some(EntriesOf(t, order)[x].0) && t[order[a]].value == EntriesOf(t, order)[x].1
  {
    var n := |order| - 1;
    if x < |EntriesOf(t, order[..n])| {
      a := EntryComesFrom(t, order[..n], x);
    } else {
      a := n;
    }
  }

  /** Every live bucket of the list is an entry. */
  lemma {:induction false} BucketIsEntry(t: Table, order: seq<nat>, a: nat)
    requires a < |order| && order[a] < |t| && t[order[a]].key.Some?
    ensures (t[order[a]].key.value, t[order[a]].value) in EntriesOf(t, order)
  {
    var n := |order| - 1;
    if a < n {
      BucketIsEntry(t, order[..n], a);
    }
  }

  lemma {:induction false} EntriesAreUnique(t: Table, hash: Key -> u32, order: seq<nat>)
    requires Sound(t, hash)
    requires forall a :: 0 <= a < |order| ==> order[a] < |t|
    requires forall a, b :: 0 <= a < b < |order| ==> order[a] != order[b]
    ensures Unique(EntriesOf(t, order))
  {
    if order != [] {
      var n := |order| - 1;
      EntriesAreUnique(t, hash, order[..n]);
      var init := EntriesOf(t, order[..n]);
      forall x | 0 <= x < |init| && t[order[n]].key.Some? ensures init[x].0 != t[order[n]].key.value {
        var a := EntryComesFrom(t, order[..n], x);
        assert order[a] != order[n];
      }
    }
  }

  lemma {:induction false} FoundLookup(t: Table, hash: Key -> u32, order: seq<nat>, i: nat)
    requires Sound(t, hash) && Ordered(t, order) && i < |t| && t[i].key.Some?
    ensures Unique(EntriesOf(t, order)) && Lookup(EntriesOf(t, order), t[i].key.value) == Some(t[i].value)
  {
    EntriesAreUnique(t, hash, order);
    assert i in order;
    var a :| 0 <= a < |order| && order[a] == i;
    BucketIsEntry(t, order, a);
    LookupIn(EntriesOf(t, order), t[i].key.value, t[i].value);
  }

  ghost predicate Absent(t: Table, key: Key) {
    forall i :: 0 <= i < |t| ==> t[i].key != Some(key)
  }

  lemma {:induction false} AbsentLookup(t: Table, order: seq<nat>, key: Key)
    requires Absent(t, key)
    ensures Lookup(EntriesOf(t, order), key) == None
  {
    var es := EntriesOf(t, order);
    if x :| 0 <= x < |es| && es[x].0 == key {
      var a := EntryComesFrom(t, order, x);
      assert false;
    }
  }

  // ----- Probing

  /** There is always an unused bucket. */
  lemma {:induction false} Pigeonhole(order: seq<nat>, n: nat) returns (e: nat)
    requires forall a :: 0 <= a < |order| ==> order[a] < n
    requires forall a, b :: 0 <= a < b < |order| ==> order[a] != order[b]
    requires |order| < n
    ensures e < n && e !in order
  {
    if n - 1 in order {
      var a :| 0 <= a < |order| && order[a] == n - 1;
      var rest := order[..a] + order[a + 1..];
      assert forall b :: 0 <= b < |rest| ==> rest[b] == order[if b < a then b else b + 1];
      e := Pigeonhole(rest, n - 1);
      forall b | 0 <= b < |order| ensures order[b] != e {
        if b != a {
          assert rest[if b < a then b else b - 1] == order[b];
        }
      }
    } else {
      e := n - 1;
    }
  }

  function Distance(from: nat, to: nat, capacity: nat): nat
    requires from < capacity && to < capacity
  {
    if from <= to then to - from else to + capacity - from
  }

  function Next(i: nat, capacity: nat): (r: nat)
    requires i < capacity
    ensures r < capacity
  {
    if i + 1 == capacity then 0 else i + 1
  }

  lemma {:induction false} NextWraps(i: nat, capacity: nat)
    requires i < capacity
    ensures (i + 1) % capacity == Next(i, capacity)
  {
    if i + 1 == capacity {
      assert capacity % capacity == 0;
    }
  }

  /** Where a probe for the key ends. */
  ghost predicate Found(t: Table, hash: Key -> u32, key: Key, i: nat) {
    && i < |t|
    && (t[i].key == Some(key) ||
        (!Used(t[i]) && Absent(t, key)
         && forall j :: 0 <= j < |t| && OnPath(Home(hash(key), |t|), j, i) ==> Used(t[j])))
  }

  /** The buckets passed on the way to i are used, and none of them has the key. */
  ghost predicate Passed(t: Table, hash: Key -> u32, key: Key, i: nat)
    requires |t| > 0
  {
    forall j :: 0 <= j < |t| && OnPath(Home(hash(key), |t|), j, i) ==> Used(t[j]) && t[j].key != Some(key)
  }

  lemma {:induction false} PassOne(t: Table, hash: Key -> u32, key: Key, i: nat)
    requires i < |t| && Passed(t, hash, key, i) && Used(t[i]) && t[i].key != Some(key)
    ensures Passed(t, hash, key, Next(i, |t|))
  {
  }

  lemma {:induction false} EndAtUnused(t: Table, hash: Key -> u32, key: Key, i: nat)
    requires Sound(t, hash) && i < |t| && Passed(t, hash, key, i) && !Used(t[i])
    ensures Found(t, hash, key, i)
  {
    forall k | 0 <= k < |t| ensures t[k].key != Some(key) {
      assert Reachable(t, hash, k);
    }
  }

  // ----- Changes to the table

  /** The tables differ in the links only. */
  ghost predicate SameButLinks(t: Table, t': Table) {
    |t| == |t'| && forall i :: 0 <= i < |t| ==> t'[i] == t[i].(next := t'[i].next)
  }

  lemma {:induction false} LinksDoNotMatter(t: Table, t': Table, hash: Key -> u32, order: seq<nat>)
    requires SameButLinks(t, t') && Sound(t, hash) && Ordered(t, order)
    ensures Sound(t', hash) && Ordered(t', order) && EntriesOf(t', order) == EntriesOf(t, order)
  {
    forall i | 0 <= i < |t| ensures Reachable(t', hash, i) {
      assert Reachable(t, hash, i);
    }
    SameEntries(t, t', order);
  }

  lemma {:induction false} SameEntries(t: Table, t': Table, order: seq<nat>)
    requires forall a :: 0 <= a < |order| ==> EntryAt(t, order[a]) == EntryAt(t', order[a])
    ensures EntriesOf(t', order) == EntriesOf(t, order)
  {
    if order != [] {
      SameEntries(t, t', order[..|order| - 1]);
    }
  }

  /** A new value for a live key. */
  lemma {:induction false} Overwrite(t: Table, hash: Key -> u32, order: seq<nat>, i: nat, v: Value)
    requires Sound(t, hash) && Ordered(t, order) && i < |t| && t[i].key.Some?
    ensures var t' := t[i := t[i].(value := v)];
      Sound(t', hash) && Ordered(t', order) && EntriesOf(t', order) == Put(EntriesOf(t, order), t[i].key.value, v)
  {
    hide EntriesOf, Lookup, Rebind;
    var t' := t[i := t[i].(value := v)];
    forall j | 0 <= j < |t| ensures Reachable(t', hash, j) {
      assert Reachable(t, hash, j);
    }
    RebindEntries(t, order, i, v);
    FoundLookup(t, hash, order, i);
  }

  lemma {:induction false} RebindEntries(t: Table, order: seq<nat>, i: nat, v: Value)
    requires i < |t| && t[i].key.Some?
    requires forall j :: 0 <= j < |t| && j != i ==> t[j].key != t[i].key
    ensures EntriesOf(t[i := t[i].(value := v)], order) == Rebind(EntriesOf(t, order), t[i].key.value, v)
  {
    if order != [] {
      var n, k, t' := |order| - 1, t[i].key.value, t[i := t[i].(value := v)];
      RebindEntries(t, order[..n], i, v);
      assert EntryAt(t', order[n]) == Rebind(EntryAt(t, order[n]), k, v);
      hide EntryAt, Rebind;
      RebindJoin(EntriesOf(t, order[..n]), EntryAt(t, order[n]), k, v);
    }
  }

  lemma {:induction false} RebindJoin(es: Entries, es': Entries, k: Key, v: Value)
    ensures Rebind(es + es', k, v) == Rebind(es, k, v) + Rebind(es', k, v)
  {
  }

  /** A live key becomes a tombstone. */
  lemma {:induction false} Bury(t: Table, hash: Key -> u32, order: seq<nat>, i: nat)
    requires Sound(t, hash) && Ordered(t, order) && i < |t| && t[i].key.Some?
    ensures var t' := t[i := t[i].(key := None, value := TOMBSTONE)];
      Sound(t', hash) && Ordered(t', order) && EntriesOf(t', order) == Del(EntriesOf(t, order), t[i].key.value)
  {
    var t' := t[i := t[i].(key := None, value := TOMBSTONE)];
    forall j | 0 <= j < |t| ensures Reachable(t', hash, j) {
      assert Reachable(t, hash, j);
    }
    DelEntries(t, order, i);
  }

  lemma {:induction false} DelEntries(t: Table, order: seq<nat>, i: nat)
    requires i < |t| && t[i].key.Some?
    requires forall j :: 0 <= j < |t| && j != i ==> t[j].key != t[i].key
    ensures EntriesOf(t[i := t[i].(key := None, value := TOMBSTONE)], order) == Del(EntriesOf(t, order), t[i].key.value)
  {
    if order != [] {
      var n, k, t' := |order| - 1, t[i].key.value, t[i := t[i].(key := None, value := TOMBSTONE)];
      EntriesLast(t, order);
      EntriesLast(t', order);
      DeadEntry(t, i, order[n]);
      hide EntriesOf, EntryAt, Del;
      DelEntries(t, order[..n], i);
      DelLast(EntriesOf(t, order[..n]), EntryAt(t, order[n]), k);
    }
  }

  lemma {:induction false} EntriesLast(t: Table, order: seq<nat>)
    requires order != []
    ensures EntriesOf(t, order) == EntriesOf(t, order[..|order| - 1]) + EntryAt(t, order[|order| - 1])
  {
  }

  lemma {:induction false} DeadEntry(t: Table, i: nat, j: nat)
    requires i < |t| && t[i].key.Some?
    requires forall k :: 0 <= k < |t| && k != i ==> t[k].key != t[i].key
    ensures var e := EntryAt(t, j);
      EntryAt(t[i := t[i].(key := None, value := TOMBSTONE)], j)
      == if e != [] && e[0].0 != t[i].key.value then e else []
  {
  }

  lemma {:induction false} DelLast(es: Entries, last: Entries, k: Key)
    requires |last| <= 1
    ensures Del(es + last, k) == Del(es, k) + if last != [] && last[0].0 != k then last else []
  {
    if last == [] {
      assert es + last == es;
    } else {
      assert (es + last)[..|es|] == es && last == [last[0]];
    }
  }

  /** A new key in an unused bucket on its path. */
  lemma {:induction false} Occupy(t: Table, hash: Key -> u32, order: seq<nat>, i: nat, b: Bucket)
    requires Sound(t, hash) && Ordered(t, order) && i < |t| && b.key.Some? && b.hash == hash(b.key.value)
    requires Found(t, hash, b.key.value, i) && !Used(t[i])
    ensures var t' := t[i := b];
      && Sound(t', hash) && Ordered(t', order + [i])
      && EntriesOf(t', order + [i]) == EntriesOf(t, order) + [(b.key.value, b.value)]
  {
    var t' := t[i := b];
    forall j | 0 <= j < |t| ensures Reachable(t', hash, j) {
      assert Reachable(t, hash, j);
    }
    assert i !in order;
    assert Ordered(t', order + [i]) by {
      forall j | 0 <= j < |t| ensures Used(t'[j]) <==> j in order + [i] {
      }
    }
    SameEntries(t, t', order);
    EntriesMore(t', order, i);
  }

  /** Linking the new bucket behind the last one. */
  lemma {:induction false} LinkMore(t: Table, order: seq<nat>, first: int, last: int, i: nat, t': Table)
    requires Linked(t, order, first, last) && i < |t| && i !in order && |t'| == |t|
    requires forall a, b :: 0 <= a < b < |order| ==> order[a] != order[b]
    requires t'[i].next == NIL && (order != [] ==> t'[order[|order| - 1]].next == i)
    requires forall j :: 0 <= j < |t| && j != i && j != last ==> t'[j].next == t[j].next
    ensures Linked(t', order + [i], if order == [] then i else first, i)
  {
    var order' := order + [i];
    forall a | 0 <= a < |order'| - 1 ensures t'[order'[a]].next == order'[a + 1] {
      if a < |order| - 1 {
        assert order[a] != order[|order| - 1];
        assert order[a] in order;
      }
    }
  }
}
