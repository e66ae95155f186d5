/** The open-addressing hash map of map.c, in place. */
module HashMap {
  import opened Wire
  import opened OrderedMaps
  import opened HashTables

  const DEFAULT_CAPACITY := 20

  class HashMap {
    /** hash_data */
    const hash: Key -> u32
    var buckets: array<Bucket>
    var count: nat
    var tombstoneCount: nat
    var first: int
    var last: int

    /** The used buckets in the order of the list. */
    ghost var order: seq<nat>

    ghost predicate Valid()
      reads this, buckets
    {
      && Sound(buckets[..], hash) && Ordered(buckets[..], order) && Linked(buckets[..], order, first, last)
      && count == |order| && tombstoneCount == |order| - |View()|
      && buckets.Length >= DEFAULT_CAPACITY
      && 4 * count <= 3 * buckets.Length
    }

    ghost function View(): Entries
      reads this, buckets
    {
      EntriesOf(buckets[..], order)
    }

    /** hashmap_create */
    constructor (hash: Key -> u32)
      ensures Valid() && View() == [] && count == 0 && fresh(buckets) && this.hash == hash
      ensures buckets.Length == 20
    {
      this.hash := hash;
      buckets := new Bucket[DEFAULT_CAPACITY](_ => UNUSED);
      count, tombstoneCount, first, last, order := 0, 0, NIL, NIL, [];
    }

    /** hashmap_size */
    method Size() returns (n: int)
      requires Valid()
      ensures n == |View()|
    {
      n := count - tombstoneCount;
    }

    /** find_entry. The probing ends because an unused bucket is ahead. */
    method FindEntry(key: Key, h: u32) returns (index: nat)
      requires Valid() && h == hash(key)
      ensures Found(buckets[..], hash, key, index)
    {
      hide Linked, View, EntriesOf;
      ghost var t := buckets[..];
      ghost var free := Pigeonhole(order, buckets.Length);
      index := h % buckets.Length;
      while true
        invariant index < buckets.Length && Passed(t, hash, key, index)
        decreases Distance(index, free, buckets.Length)
      {
        var entry := buckets[index];
        var nullKey, nullValue := entry.key.None?, entry.value == 0;
        assert Reachable(t, hash, index);
        if nullKey && nullValue {
          EndAtUnused(t, hash, key, index);
          return;
        }
        if !nullKey && |entry.key.value| == |key| && entry.hash == h && entry.key.value == key {
          return;
        }
        PassOne(t, hash, key, index);
        NextWraps(index, buckets.Length);
        index := (index + 1) % buckets.Length;
      }
    }

    /** hashmap_get */
    method Get(key: Key) returns (found: bool, value: Value)
      requires Valid()
      ensures found == Lookup(View(), key).Some?
      ensures value == if found then Lookup(View(), key).value else 0
    {
      hide Linked, EntriesOf, Reachable;
      var h := hash(key);
      var index := FindEntry(key, h);
      var entry := buckets[index];
      if entry.key.Some? {
        FoundLookup(buckets[..], hash, order, index);
      } else {
        AbsentLookup(buckets[..], order, key);
      }
      return entry.key.Some?, entry.value;
    }

    /** The part of hashmap_set and hashmap_get_set that adds a key: the bucket goes
        to the end of the list. */
    method Append(index: nat, key: Key, h: u32, value: Value)
      requires Valid() && h == hash(key) && index < buckets.Length
      requires Found(buckets[..], hash, key, index) && !Used(buckets[index])
      requires 4 * (count + 1) <= 3 * buckets.Length
      modifies this, buckets
      ensures Valid() && buckets == old(buckets)
      ensures View() == old(View()) + [(key, value)] && count == old(count) + 1
    {
      hide Sound, Reachable, EntriesOf, Found, Ordered, Linked, Used;
      ghost var t, first0, last0 := buckets[..], first, last;
      LastInRange(t, order, first, last);
      if last == NIL {
        first := index;
      } else {
        buckets[last] := buckets[last].(next := index);
      }
      ghost var t1 := buckets[..];
      last := index;
      count := count + 1;
      buckets[index] := Bucket(NIL, Some(key), h, value);
      AppendTable(t, hash, order, first0, last0, index, buckets[index], t1, buckets[..]);
      order := order + [index];
    }

    /** hashmap_remove: a tombstone keeps its place in the table and in the list. */
    method Remove(key: Key)
      requires Valid()
      modifies this, buckets
      ensures Valid() && buckets == old(buckets)
      ensures View() == Del(old(View()), key) && count == old(count)
    {
      hide Sound, Reachable, EntriesOf, Ordered, Linked;
      var index := FindEntry(key, hash(key));
      ghost var t := buckets[..];
      if buckets[index].key.Some? {
        buckets[index] := buckets[index].(key := None, value := TOMBSTONE);
        tombstoneCount := tombstoneCount + 1;
        assert buckets[..] == t[index := t[index].(key := None, value := TOMBSTONE)];
        BuryTable(t, hash, order, first, last, index);
      } else {
        AbsentLookup(t, order, key);
        DelAbsent(old(View()), key);
      }
    }

    // ----- Growing

    /** m->last->next, where the imaginary bucket's next is m->first. */
    function LastNext(): int
      requires last == NIL || 0 <= last < buckets.Length
      reads this, buckets
    {
      if last == NIL then first else buckets[last].next
    }

    method SetLastNext(next: int)
      requires last == NIL || 0 <= last < buckets.Length
      modifies `first, buckets
      ensures first == if last == NIL then next else old(first)
      ensures buckets[..]
              == if last == NIL then old(buckets[..]) else old(buckets[..])[last := old(buckets[last]).(next := next)]
    {
      if last == NIL {
        first := next;
      } else {
        buckets[last] := buckets[last].(next := next);
      }
    }

    /** resize_entry: into the first bucket without a key. */
    method ResizeEntry(oldEntry: Bucket, ghost placed: seq<nat>) returns (index: nat)
      requires Filling(buckets[..], hash, placed) && |placed| < buckets.Length
      requires oldEntry.key.Some? && oldEntry.hash == hash(oldEntry.key.value)
      requires Absent(buckets[..], oldEntry.key.value)
      modifies buckets
      ensures index < buckets.Length && !Used(old(buckets[index]))
      ensures Found(old(buckets[..]), hash, oldEntry.key.value, index)
      ensures buckets[..] == old(buckets[..])[index := oldEntry]
    {
      ghost var t, key := buckets[..], oldEntry.key.value;
      ghost var free := Pigeonhole(placed, buckets.Length);
      index := oldEntry.hash % buckets.Length;
      while true
        invariant index < buckets.Length && Passed(t, hash, key, index) && buckets[..] == t
        decreases Distance(index, free, buckets.Length)
      {
        if buckets[index].key == None {
          EndAtUnused(t, hash, key, index);
          buckets[index] := oldEntry;
          return;
        }
        PassOne(t, hash, key, index);
        NextWraps(index, buckets.Length);
        index := (index + 1) % buckets.Length;
      }
    }

    /** hashmap_resize: the live buckets move to a table twice as large, in the
        order of the list; tombstones stay behind. */
    method Resize()
      requires Valid() && order != []
      modifies this
      ensures Valid() && fresh(buckets) && buckets.Length == 2 * old(buckets.Length)
      ensures View() == old(View()) && count == |View()| && count <= old(count) && tombstoneCount == 0
    {
      hide Sound, Reachable, Ordered, EntriesOf, Linked, HalfLinked, Filling, Resizing;
      var oldBuckets := buckets;
      ghost var old0, order0 := buckets[..], order;
      buckets := new Bucket[2 * oldBuckets.Length](_ => UNUSED);
      StartResizing(old0, hash, order0, buckets[..], first, last);
      last := NIL;
      count := count - tombstoneCount;
      tombstoneCount := 0;
      order := [];
      ghost var done := 0;
      var more := true;
      while more
        invariant fresh(buckets) && buckets.Length == 2 * |old0| && old0 == oldBuckets[..] && oldBuckets != buckets
        invariant Resizing(old0, hash, order0, done, buckets[..], order, first, last)
        invariant done <= |order0| && (more <==> done < |order0|)
        invariant count == |EntriesOf(old0, order0)| && tombstoneCount == 0
        decreases |order0| - done
      {
        Turn(oldBuckets, order0, done);
        done := done + 1;
        ResizingNext(old0, hash, order0, done, buckets[..], order, first, last);
        more := LastNext() != NIL;
      }
      Resized(old0, hash, order0, buckets[..], order, first, last);
    }

    /** The body of the do loop. */
    method Turn(oldBuckets: array<Bucket>, ghost order0: seq<nat>, ghost done: nat)
      requires oldBuckets != buckets && done < |order0| <= oldBuckets.Length < buckets.Length
      requires Resizing(oldBuckets[..], hash, order0, done, buckets[..], order, first, last)
      modifies `first, `last, `order, buckets
      ensures Resizing(oldBuckets[..], hash, order0, done + 1, buckets[..], order, first, last)
    {
      hide Sound, Reachable, Ordered, EntriesOf, Linked, HalfLinked, Filling, Resizing, Found, Absent;
      ghost var old0, t, placed, first0 := oldBuckets[..], buckets[..], order, first;
      ResizingNext(old0, hash, order0, done, t, order, first, last);
      var current := LastNext();
      if oldBuckets[current].key == None {
        SetLastNext(oldBuckets[current].next);
        SkipOne(old0, hash, order0, done, t, placed, first0, last, buckets[..], first);
      } else {
        NotThereYet(old0, hash, order0, done, t, placed, first, last);
        var index := ResizeEntry(oldBuckets[current], placed);
        ghost var t1, last0 := buckets[..], last;
        SetLastNext(index);
        last := index;
        order := order + [index];
        MoveOne(old0, hash, order0, done, t, placed, first0, last0, index, t1, buckets[..], first);
      }
    }

    /** The capacity after a key may have come in: it doubles exactly when one more
        used bucket would fill more than three quarters of the table. */
    static function Grown(count: nat, capacity: nat): nat {
      if 4 * (count + 1) > 3 * capacity then 2 * capacity else capacity
    }

    /** m->count + 1 > HASHMAP_MAX_LOAD * m->capacity */
    method MakeRoom()
      requires Valid()
      modifies this
      ensures Valid() && View() == old(View()) && (buckets == old(buckets) || fresh(buckets)) && count <= old(count)
      ensures 4 * (count + 1) <= 3 * buckets.Length
      ensures buckets.Length == Grown(old(count), old(buckets.Length))
      ensures count == if buckets == old(buckets) then old(count) else |old(View())|
    {
      hide Sound, Reachable, Ordered, EntriesOf, Linked;
      if 4 * (count + 1) > 3 * buckets.Length {
        Resize();
      }
    }

    /** hashmap_set */
    method Set(key: Key, val: Value)
      requires Valid()
      modifies this, buckets
      ensures Valid() && (buckets == old(buckets) || fresh(buckets))
      ensures View() == Put(old(View()), key, val) && count <= old(count) + 1
      ensures buckets.Length == Grown(old(count), old(buckets.Length))
    {
      hide Sound, Reachable, EntriesOf;
      MakeRoom();
      var h := hash(key);
      var index := FindEntry(key, h);
      if buckets[index].key == None {
        AbsentLookup(buckets[..], order, key);
        Append(index, key, h, val);
      } else {
        OverwriteAt(index, key, val);
      }
    }

    method OverwriteAt(index: nat, key: Key, val: Value)
      requires Valid() && index < buckets.Length && buckets[index].key == Some(key)
      modifies buckets
      ensures Valid() && View() == Put(old(View()), key, val)
    {
      hide Sound, Reachable, EntriesOf, Ordered;
      ghost var t := buckets[..];
      buckets[index] := buckets[index].(value := val);
      Overwrite(t, hash, order, index, val);
      FoundLookup(t, hash, order, index);
      assert buckets[..] == t[index := buckets[index]];
    }

    /** hashmap_get_set: `found` says that the key was there, and `out` is its value
        then, and `val` otherwise. */
    method GetSet(key: Key, val: Value) returns (found: bool, out: Value)
      requires Valid()
      modifies this, buckets
      ensures Valid() && (buckets == old(buckets) || fresh(buckets))
      ensures found == Lookup(old(View()), key).Some?
      ensures out == if found then Lookup(old(View()), key).value else val
      ensures View() == Apply(old(View()), GetSetOp(key, val)) && count <= old(count) + 1
      ensures buckets.Length == Grown(old(count), old(buckets.Length))
    {
      hide Sound, Reachable, EntriesOf;
      MakeRoom();
      var h := hash(key);
      var index := FindEntry(key, h);
      if buckets[index].key == None {
        AbsentLookup(buckets[..], order, key);
        Append(index, key, h, val);
        return false, val;
      }
      FoundLookup(buckets[..], hash, order, index);
      return true, buckets[index].value;
    }

    /** hashmap_iterate, up to its limit: the entries that it calls back on. */
    method Iterate() returns (visited: Entries)
      requires Valid()
      ensures visited == EntriesOf(buckets[..], if |order| <= 1002 then order else order[..1002])
    {
      hide Sound, Ordered, Reachable, EntriesOf, Linked;
      visited := [];
      LinkAt(buckets[..], order, first, last, 0);
      NoEntries(buckets[..]);
      var current, co := first, 0;
      while current != NIL
        invariant 0 <= co <= 1001 && co <= |order|
        invariant current == NextOf(order, co)
        invariant visited == EntriesOf(buckets[..], order[..co])
        decreases |order| - co
      {
        assert order[..co + 1] == order[..co] + [order[co]];
        EntriesMore(buckets[..], order[..co], order[co]);
        LinkAt(buckets[..], order, first, last, co);
        if buckets[current].key != None {
          visited := visited + [(buckets[current].key.value, buckets[current].value)];
        }
        current := buckets[current].next;
        if co > 1000 {
          break;
        }
        co := co + 1;
      }
      if current == NIL && co <= |order| {
        assert order[..|order|] == order;
      }
    }

    /** Any sequence of operations, and the map that it comes from. */
    method Perform(ghost done: seq<Op>, op: Op)
      requires Valid() && View() == Replay(done)
      modifies this, buckets
      ensures Valid() && (buckets == old(buckets) || fresh(buckets))
      ensures View() == Replay(done + [op]) && count <= old(count) + 1
    {
      hide Sound, Ordered, Reachable, EntriesOf, Linked;
      assert (done + [op])[..|done|] == done;
      match op {
        case SetOp(k, v) => Set(k, v);
        case GetSetOp(k, v) => var found, out := GetSet(k, v);
        case GetOp(k) => var found, out := Get(k);
        case RemoveOp(k) => Remove(k);
      }
    }
  }

  /** Following the list from the first bucket. */
  lemma {:induction false} LinkAt(t: Table, order: seq<nat>, first: int, last: int, a: nat)
    requires Linked(t, order, first, last) && a <= |order|
    ensures a == 0 ==> first == NextOf(order, 0)
    ensures a < |order| ==> order[a] < |t| && t[order[a]].next == NextOf(order, a + 1)
  {
  }

  lemma {:induction false} NoEntries(t: Table)
    ensures EntriesOf(t, []) == []
  {
  }

  lemma {:induction false} LastInRange(t: Table, order: seq<nat>, first: int, last: int)
    requires Linked(t, order, first, last)
    ensures last == NIL || 0 <= last < |t|
  {
  }

  lemma {:induction false} BuryTable(t: Table, hash: Key -> u32, order: seq<nat>, first: int, last: int, index: nat)
    requires Sound(t, hash) && Ordered(t, order) && Linked(t, order, first, last)
    requires index < |t| && t[index].key.Some?
    ensures var t' := t[index := t[index].(key := None, value := TOMBSTONE)];
      && Sound(t', hash) && Ordered(t', order) && Linked(t', order, first, last)
      && EntriesOf(t', order) == Del(EntriesOf(t, order), t[index].key.value)
      && |EntriesOf(t', order)| == |EntriesOf(t, order)| - 1
  {
    hide Sound, EntriesOf, Ordered;
    Bury(t, hash, order, index);
    FoundLookup(t, hash, order, index);
    DelPresent(EntriesOf(t, order), t[index].key.value);
  }

  /** A bucket linked behind the last one and then filled. */
  lemma {:induction false} AppendTable(t: Table, hash: Key -> u32, order: seq<nat>, first: int, last: int, index: nat,
                                       b: Bucket, t1: Table, t': Table)
    requires Sound(t, hash) && Ordered(t, order) && Linked(t, order, first, last)
    requires b.key.Some? && b.hash == hash(b.key.value) && b.next == NIL
    requires index < |t| && Found(t, hash, b.key.value, index) && !Used(t[index])
    requires last == NIL || 0 <= last < |t|
    requires t1 == (if last == NIL then t else t[last := t[last].(next := index)]) && t' == t1[index := b]
    ensures Sound(t', hash) && Ordered(t', order + [index])
    ensures Linked(t', order + [index], if last == NIL then index as int else first, index)
    ensures EntriesOf(t', order + [index]) == EntriesOf(t, order) + [(b.key.value, b.value)]
  {
    hide Sound, EntriesOf, Reachable, Found;
    LinksDoNotMatter(t, t1, hash, order);
    FoundStays(t, t1, hash, b.key.value, index);
    Occupy(t1, hash, order, index, b);
    assert index !in order;
    LinkMore(t, order, first, last, index, t');
  }

  lemma {:induction false} FoundStays(t: Table, t': Table, hash: Key -> u32, key: Key, i: nat)
    requires SameButLinks(t, t') && Found(t, hash, key, i)
    ensures Found(t', hash, key, i)
  {
  }

  lemma {:induction false} DelAbsent(es: Entries, k: Key)
    requires Lookup(es, k).None?
    ensures Del(es, k) == es
  {
    if es != [] {
      var n := |es| - 1;
      assert es[n].0 != k && Lookup(es[..n], k).None?;
      DelAbsent(es[..n], k);
      assert es == es[..n] + [es[n]];
    }
  }

  lemma {:induction false} DelPresent(es: Entries, k: Key)
    requires Unique(es) && Lookup(es, k).Some?
    ensures |Del(es, k)| == |es| - 1
  {
    var n := |es| - 1;
    if es[n].0 == k {
      forall i | 0 <= i < n ensures es[..n][i].0 != k {
        assert es[i].0 != es[n].0;
      }
      DelAbsent(es[..n], k);
    } else {
      DelPresent(es[..n], k);
    }
  }

  /** A new table that is being filled: no tombstones. */
  ghost predicate Filling(t: Table, hash: Key -> u32, placed: seq<nat>) {
    Sound(t, hash) && Ordered(t, placed) && forall i :: 0 <= i < |t| && t[i].key.None? ==> t[i].value == 0
  }

  /** The list while the map is resized: its new part, whose last bucket still
      carries a link into the old table. */
  ghost predicate HalfLinked(t: Table, placed: seq<nat>, first: int, last: int, next: int) {
    && (forall a :: 0 <= a < |placed| ==> placed[a] < |t|)
    && first == (if placed == [] then next else placed[0])
    && last == (if placed == [] then NIL else placed[|placed| - 1])
    && (forall a :: 0 <= a < |placed| - 1 ==> t[placed[a]].next == placed[a + 1])
    && (placed != [] ==> t[placed[|placed| - 1]].next == next)
  }

  /** The first `done` buckets of the old list have been dealt with. */
  ghost predicate Resizing(old0: Table, hash: Key -> u32, order0: seq<nat>, done: nat, t: Table, placed: seq<nat>,
                           first: int, last: int)
  {
    && done <= |order0| && |placed| <= done && Filling(t, hash, placed)
    && Sound(old0, hash) && Ordered(old0, order0)
    && (forall a :: 0 <= a < |order0| ==> old0[order0[a]].next == NextOf(order0, a + 1))
    && EntriesOf(t, placed) == EntriesOf(old0, order0[..done])
    && HalfLinked(t, placed, first, last, NextOf(order0, done))
  }

  function NextOf(order: seq<nat>, a: nat): int {
    if a < |order| then order[a] else NIL
  }

  lemma {:induction false} StartResizing(old0: Table, hash: Key -> u32, order0: seq<nat>, t: Table, first: int,
                                         last: int)
    requires Sound(old0, hash) && Ordered(old0, order0) && Linked(old0, order0, first, last) && order0 != []
    requires |t| > 0 && forall i :: 0 <= i < |t| ==> t[i] == UNUSED
    ensures Resizing(old0, hash, order0, 0, t, [], first, NIL)
  {
    assert order0[..0] == [];
    assert Sound(t, hash);
  }

  /** The last new bucket's link leads to the next old one. */
  lemma {:induction false} ResizingNext(old0: Table, hash: Key -> u32, order0: seq<nat>, done: nat, t: Table,
                                        placed: seq<nat>, first: int, last: int)
    requires Resizing(old0, hash, order0, done, t, placed, first, last)
    ensures last == NIL || 0 <= last < |t|
    ensures (if last == NIL then first else t[last].next) == NextOf(order0, done)
    ensures done < |order0| ==> 0 <= NextOf(order0, done) < |old0|
  {
    hide Sound, EntriesOf, Filling;
  }

  lemma {:induction false} SkipOne(old0: Table, hash: Key -> u32, order0: seq<nat>, done: nat, t: Table,
                                   placed: seq<nat>, first: int, last: int, t': Table, first': int)
    requires Resizing(old0, hash, order0, done, t, placed, first, last) && done < |order0|
    requires order0[done] < |old0| && old0[order0[done]].key == None && (last == NIL || 0 <= last < |t|)
    requires var next := old0[order0[done]].next;
      && first' == (if last == NIL then next else first)
      && t' == if last == NIL then t else t[last := t[last].(next := next)]
    ensures Resizing(old0, hash, order0, done + 1, t', placed, first', last)
  {
    hide Sound, EntriesOf, HalfLinked, Filling, Ordered, Reachable, Used;
    assert order0[..done + 1] == order0[..done] + [order0[done]];
    EntriesMore(old0, order0[..done], order0[done]);
    Relinked(t, t', hash, placed);
    SkipLinks(t, hash, placed, first, last, NextOf(order0, done), NextOf(order0, done + 1), t', first');
  }

  lemma {:induction false} Relinked(t: Table, t': Table, hash: Key -> u32, placed: seq<nat>)
    requires SameButLinks(t, t') && Filling(t, hash, placed)
    ensures Filling(t', hash, placed) && EntriesOf(t', placed) == EntriesOf(t, placed)
  {
    hide Sound, Ordered, EntriesOf;
    LinksDoNotMatter(t, t', hash, placed);
  }

  lemma {:induction false} SkipLinks(t: Table, hash: Key -> u32, placed: seq<nat>, first: int, last: int, next: int,
                                     next': int, t': Table, first': int)
    requires HalfLinked(t, placed, first, last, next) && (last == NIL || 0 <= last < |t|) && Filling(t, hash, placed)
    requires first' == (if last == NIL then next' else first)
    requires t' == if last == NIL then t else t[last := t[last].(next := next')]
    ensures HalfLinked(t', placed, first', last, next')
  {
  }

  lemma {:induction false} NotThereYet(old0: Table, hash: Key -> u32, order0: seq<nat>, done: nat, t: Table,
                                       placed: seq<nat>, first: int, last: int)
    requires Resizing(old0, hash, order0, done, t, placed, first, last) && done < |order0|
    requires order0[done] < |old0| && old0[order0[done]].key.Some?
    ensures Filling(t, hash, placed) && |placed| <= done
    ensures old0[order0[done]].hash == hash(old0[order0[done]].key.value)
    ensures Absent(t, old0[order0[done]].key.value)
  {
    var i, key := order0[done], old0[order0[done]].key.value;
    assert Reachable(old0, hash, i);
    NotBefore(old0, hash, order0, done);
    hide Reachable, EntriesOf;
    forall k | 0 <= k < |t| ensures t[k].key != Some(key) {
      if t[k].key == Some(key) {
        FoundLookup(t, hash, placed, k);
        assert false;
      }
    }
  }

  lemma {:induction false} NotBefore(t: Table, hash: Key -> u32, order: seq<nat>, done: nat)
    requires Sound(t, hash) && Ordered(t, order) && done < |order| && t[order[done]].key.Some?
    ensures Lookup(EntriesOf(t, order[..done]), t[order[done]].key.value) == None
  {
    var es, key := EntriesOf(t, order[..done]), t[order[done]].key.value;
    forall x | 0 <= x < |es| ensures es[x].0 != key {
      var a := EntryComesFrom(t, order[..done], x);
      assert order[a] != order[done];
    }
  }

  lemma {:induction false} MoveOne(old0: Table, hash: Key -> u32, order0: seq<nat>, done: nat, t: Table,
                                   placed: seq<nat>, first: int, last: int, index: nat, t1: Table, t2: Table,
                                   first': int)
    requires Resizing(old0, hash, order0, done, t, placed, first, last) && done < |order0|
    requires order0[done] < |old0| && old0[order0[done]].key.Some? && (last == NIL || 0 <= last < |t|)
    requires var b := old0[order0[done]];
      && b.hash == hash(b.key.value)
      && index < |t| && !Used(t[index]) && Found(t, hash, b.key.value, index) && t1 == t[index := b]
      && first' == (if last == NIL then index as int else first)
      && t2 == if last == NIL then t1 else t1[last := t1[last].(next := index)]
    ensures Resizing(old0, hash, order0, done + 1, t2, placed + [index], first', index)
  {
    hide Sound, EntriesOf, HalfLinked, Found, Ordered, Filling, Reachable, Used;
    var b := old0[order0[done]];
    assert order0[..done + 1] == order0[..done] + [order0[done]];
    EntriesMore(old0, order0[..done], order0[done]);
    Placed(t, hash, placed, index, b, t1);
    Relinked(t1, t2, hash, placed + [index]);
    MovedLinks(t, hash, placed, first, last, NextOf(order0, done), index, b, t2, first');
  }

  lemma {:induction false} Placed(t: Table, hash: Key -> u32, placed: seq<nat>, index: nat, b: Bucket, t1: Table)
    requires Filling(t, hash, placed) && index < |t| && !Used(t[index]) && t1 == t[index := b]
    requires b.key.Some? && b.hash == hash(b.key.value) && Found(t, hash, b.key.value, index)
    ensures Filling(t1, hash, placed + [index])
    ensures EntriesOf(t1, placed + [index]) == EntriesOf(t, placed) + [(b.key.value, b.value)]
  {
    hide Sound, Ordered, EntriesOf, Found;
    Occupy(t, hash, placed, index, b);
  }

  lemma {:induction false} MovedLinks(t: Table, hash: Key -> u32, placed: seq<nat>, first: int, last: int, next: int,
                                      index: nat, b: Bucket, t2: Table, first': int)
    requires HalfLinked(t, placed, first, last, next) && Filling(t, hash, placed) && index < |t| && !Used(t[index])
    requires first' == (if last == NIL then index as int else first)
    requires last == NIL || 0 <= last < |t|
    requires t2 == if last == NIL then t[index := b] else t[index := b][last := t[index := b][last].(next := index)]
    ensures HalfLinked(t2, placed + [index], first', index, b.next)
  {
    var placed' := placed + [index];
    assert index !in placed;
    assert t2[index].next == b.next;
    forall a | 0 <= a < |placed'| - 1 ensures t2[placed'[a]].next == placed'[a + 1] {
      if a < |placed| - 1 {
        assert placed[a] != placed[|placed| - 1] && placed[a] in placed;
      }
    }
  }

  lemma {:induction false} AllLive(t: Table, placed: seq<nat>)
    requires forall a :: 0 <= a < |placed| ==> placed[a] < |t| && t[placed[a]].key.Some?
    ensures |EntriesOf(t, placed)| == |placed|
  {
    if placed != [] {
      AllLive(t, placed[..|placed| - 1]);
    }
  }

  lemma {:induction false} Resized(old0: Table, hash: Key -> u32, order0: seq<nat>, t: Table, placed: seq<nat>,
                                   first: int, last: int)
    requires Resizing(old0, hash, order0, |order0|, t, placed, first, last)
    ensures Sound(t, hash) && Ordered(t, placed) && Linked(t, placed, first, last)
    ensures EntriesOf(t, placed) == EntriesOf(old0, order0) && |placed| == |EntriesOf(t, placed)| <= |order0|
  {
    hide Sound, EntriesOf;
    assert order0[..|order0|] == order0;
    forall a | 0 <= a < |placed| ensures placed[a] < |t| && t[placed[a]].key.Some? {
      assert placed[a] in placed;
    }
    AllLive(t, placed);
  }

  // ----- Whole histories

  /** A new map, and any sequence of operations on it. */
  method PerformAll(hash: Key -> u32, ops: seq<Op>) returns (m: HashMap)
    ensures fresh(m) && fresh(m.buckets) && m.Valid() && m.View() == Replay(ops) && m.count <= |ops|
  {
    hide Sound, Ordered, Reachable, EntriesOf, Linked, Apply;
    m := new HashMap(hash);
    for i := 0 to |ops|
      invariant fresh(m) && fresh(m.buckets) && m.Valid() && m.View() == Replay(ops[..i]) && m.count <= i
    {
      assert ops[..i + 1] == ops[..i] + [ops[i]];
      m.Perform(ops[..i], ops[i]);
    }
    assert ops[..|ops|] == ops;
  }

  /**
   After any sequence of operations a lookup finds the last value written to the
   key and not removed since, the size is that of the finite map which the
   operations describe, and iteration sees its entries in their order, all of them
   unless there have been more than 1002 operations.
   */
  method LookupAfter(hash: Key -> u32, ops: seq<Op>,
                     key: Key) returns (found: bool, value: Value, size: int, all: Entries)
    ensures found == LastWrite(ops, key).Some?
    ensures value == if found then LastWrite(ops, key).value else 0
    ensures size == |Replay(ops)|
    ensures all <= Replay(ops) && (|ops| <= 1002 ==> all == Replay(ops))
  {
    hide Sound, Ordered, Reachable, EntriesOf, Linked, Replay, LastWrite, Lookup;
    var m := PerformAll(hash, ops);
    LookupIsLastWrite(ops, key);
    found, value := m.Get(key);
    size := m.Size();
    all := m.Iterate();
    if |m.order| > 1002 {
      IterateSees(m.buckets[..], m.order, 1002);
    }
  }

  /** Stopping the iteration early leaves out exactly the live entries behind. */
  lemma {:induction false} IterateSees(t: Table, order: seq<nat>, n: nat)
    requires n <= |order|
    ensures EntriesOf(t, order[..n]) <= EntriesOf(t, order)
    ensures EntriesOf(t, order[..n]) == EntriesOf(t, order)
            <==> forall a :: n <= a < |order| ==> EntryAt(t, order[a]) == []
    decreases |order|
  {
    hide EntryAt;
    if n == |order| {
      assert order[..n] == order;
    } else {
      var k := |order| - 1;
      IterateSees(t, order[..k], n);
      assert order[..k][..n] == order[..n];
      assert |EntriesOf(t, order[..n])| <= |EntriesOf(t, order[..k])|;
    }
  }
}
