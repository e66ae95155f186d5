/** What the hash map is for: a finite map that remembers the order in which its
    keys came in. */
module OrderedMaps {
  import opened Wire

  type Key = seq<byte>

  /** uintptr_t */
  type Value = nat

  type Entries = seq<(Key, Value)>

  ghost predicate Unique(es: Entries) {
    forall i, j :: 0 <= i < j < |es| ==> es[i].0 != es[j].0
  }

  function Lookup(es: Entries, k: Key): (r: Option<Value>)
    ensures r.Some? <==> exists i :: 0 <= i < |es| && es[i].0 == k
    ensures r.Some? ==> exists i :: 0 <= i < |es| && es[i] == (k, r.value)
  {
    if es == [] then None
    else if es[|es| - 1].0 == k then Some(es[|es| - 1].1)
    else Lookup(es[..|es| - 1], k)
  }

  /** A new value in the old place. */
  function Rebind(es: Entries, k: Key, v: Value): (r: Entries)
    ensures |r| == |es| && forall i :: 0 <= i < |es| ==> r[i] == if es[i].0 == k then (k, v) else es[i]
  {
    seq(|es|, i requires 0 <= i < |es| => if es[i].0 == k then (k, v) else es[i])
  }

  /** A new value in the old place, or a new entry at the end. */
  function Put(es: Entries, k: Key, v: Value): Entries {
    if Lookup(es, k).Some? then Rebind(es, k, v) else es + [(k, v)]
  }

  function Del(es: Entries, k: Key): Entries {
    if es == [] then []
    else Del(es[..|es| - 1], k) + if es[|es| - 1].0 == k then [] else [es[|es| - 1]]
  }

  lemma {:induction false} LookupAt(es: Entries, i: nat)
    requires Unique(es) && i < |es|
    ensures Lookup(es, es[i].0) == Some(es[i].1)
  {
  }

  lemma {:induction false} LookupMore(es: Entries, e: (Key, Value), k: Key)
    ensures Lookup(es + [e], k) == if e.0 == k then Some(e.1) else Lookup(es, k)
  {
  }

  /** Put binds its key and nothing else. */
  lemma {:induction false} LookupPut(es: Entries, k: Key, v: Value, k': Key)
    requires Unique(es)
    ensures Unique(Put(es, k, v))
    ensures Lookup(Put(es, k, v), k') == if k' == k then Some(v) else Lookup(es, k')
  {
    if Lookup(es, k).Some? {
      var ps := Put(es, k, v);
      if i :| 0 <= i < |es| && es[i].0 == k' {
        assert ps[i].0 == k';
        LookupAt(ps, i);
        LookupAt(es, i);
      }
    } else {
      assert Unique(Put(es, k, v)) by {
        forall i | 0 <= i < |es| ensures es[i].0 != k {
        }
      }
      LookupMore(es, (k, v), k');
    }
  }

  lemma {:induction false} DelKeeps(es: Entries, k: Key)
    requires Unique(es)
    ensures Unique(Del(es, k))
    ensures forall e :: e in Del(es, k) <==> e in es && e.0 != k
  {
    if es != [] {
      var n := |es| - 1;
      DelKeeps(es[..n], k);
      assert es == es[..n] + [es[n]];
      forall i, j | 0 <= i < j < |Del(es, k)| ensures Del(es, k)[i].0 != Del(es, k)[j].0 {
        if j == |Del(es[..n], k)| {
          assert Del(es[..n], k)[i] in es[..n];
        }
      }
    }
  }

  lemma {:induction false} LookupIn(es: Entries, k: Key, v: Value)
    requires Unique(es)
    ensures Lookup(es, k) == Some(v) <==> (k, v) in es
  {
  }

  /** Del unbinds its key and nothing else. */
  lemma {:induction false} LookupDel(es: Entries, k: Key, k': Key)
    requires Unique(es)
    ensures Unique(Del(es, k))
    ensures Lookup(Del(es, k), k') == if k' == k then None else Lookup(es, k')
  {
    DelKeeps(es, k);
    var ds := Del(es, k);
    if Lookup(ds, k').Some? {
      LookupIn(ds, k', Lookup(ds, k').value);
      LookupIn(es, k', Lookup(ds, k').value);
    } else if k' != k && Lookup(es, k').Some? {
      LookupIn(es, k', Lookup(es, k').value);
      LookupIn(ds, k', Lookup(es, k').value);
    }
  }

  // ----- Whole histories

  datatype Op = SetOp(k: Key, v: Value) | GetSetOp(k: Key, v: Value) | GetOp(k: Key) | RemoveOp(k: Key)

  function Apply(es: Entries, op: Op): Entries {
    match op
    case SetOp(k, v) => Put(es, k, v)
    case GetSetOp(k, v) => if Lookup(es, k).Some? then es else es + [(k, v)]
    case GetOp(_) => es
    case RemoveOp(k) => Del(es, k)
  }

  function Replay(ops: seq<Op>): Entries {
    if ops == [] then [] else Apply(Replay(ops[..|ops| - 1]), ops[|ops| - 1])
  }

  /** The last value written to the key and not removed since. */
  function LastWrite(ops: seq<Op>, k: Key): Option<Value> {
    if ops == [] then None
    else
      var before := LastWrite(ops[..|ops| - 1], k);
      match ops[|ops| - 1]
      case SetOp(k', v) => if k' == k then Some(v) else before
      case GetSetOp(k', v) => if k' == k && before.None? then Some(v) else before
      case GetOp(_) => before
      case RemoveOp(k') => if k' == k then None else before
  }

  /** After any history, lookup returns the last value written and not removed. */
  lemma {:induction false} LookupIsLastWrite(ops: seq<Op>, k: Key)
    ensures Unique(Replay(ops))
    ensures Lookup(Replay(ops), k) == LastWrite(ops, k)
  {
    if ops != [] {
      var init, op := ops[..|ops| - 1], ops[|ops| - 1];
      LookupIsLastWrite(init, k);
      match op {
        case SetOp(k', v) => LookupPut(Replay(init), k', v, k);
        case GetSetOp(k', v) =>
          LookupPut(Replay(init), k', v, k);
          LookupIsLastWrite(init, k');
        case GetOp(_) =>
        case RemoveOp(k') => LookupDel(Replay(init), k', k);
      }
    }
  }

  /** The operation that put the key where it is now, or |ops|. */
  function Born(ops: seq<Op>, k: Key): (n: nat)
    ensures n <= |ops|
    ensures LastWrite(ops, k).Some? ==> n < |ops|
  {
    if LastWrite(ops, k).None? then |ops|
    else if LastWrite(ops[..|ops| - 1], k).None? then |ops| - 1
    else Born(ops[..|ops| - 1], k)
  }

  /** Sorted by the operation that put them there. */
  ghost predicate InOrder(es: Entries, ops: seq<Op>) {
    && (forall i :: 0 <= i < |es| ==> Born(ops, es[i].0) < |ops|)
    && (forall i, j :: 0 <= i < j < |es| ==> Born(ops, es[i].0) < Born(ops, es[j].0))
  }

  lemma {:induction false} DelInOrder(es: Entries, k: Key, ops: seq<Op>)
    requires Unique(es) && InOrder(es, ops)
    ensures InOrder(Del(es, k), ops)
  {
    hide Born;
    if es != [] {
      var n := |es| - 1;
      DelInOrder(es[..n], k, ops);
      DelKeeps(es[..n], k);
      EarlierBorn(es, Del(es[..n], k), ops);
    }
  }

  lemma {:induction false} EarlierBorn(es: Entries, some: Entries, ops: seq<Op>)
    requires es != [] && InOrder(es, ops) && forall e :: e in some ==> e in es[..|es| - 1]
    ensures forall i :: 0 <= i < |some| ==> Born(ops, some[i].0) < Born(ops, es[|es| - 1].0)
  {
    hide Born;
    forall i | 0 <= i < |some| ensures Born(ops, some[i].0) < Born(ops, es[|es| - 1].0) {
      assert some[i] in some && some[i] in es[..|es| - 1];
      var j :| 0 <= j < |es| - 1 && es[j] == some[i];
    }
  }

  /** A key that stays bound keeps its place in time. */
  lemma {:induction false} BornStays(ops: seq<Op>, k: Key)
    requires ops != [] && LastWrite(ops, k).Some?
    ensures Born(ops, k) == if LastWrite(ops[..|ops| - 1], k).Some? then Born(ops[..|ops| - 1], k) else |ops| - 1
  {
  }

  lemma {:induction false} KeysStay(es: Entries, es': Entries, ops: seq<Op>)
    requires ops != [] && InOrder(es, ops[..|ops| - 1])
    requires |es'| == |es| && forall i :: 0 <= i < |es| ==> es'[i].0 == es[i].0
    requires forall i :: 0 <= i < |es| ==> LastWrite(ops, es[i].0).Some? && LastWrite(ops[..|ops| - 1], es[i].0).Some?
    ensures InOrder(es', ops)
  {
  }

  lemma {:induction false} BoundNow(ops: seq<Op>, i: nat)
    requires i < |Replay(ops)|
    ensures LastWrite(ops, Replay(ops)[i].0).Some?
  {
    LookupIsLastWrite(ops, Replay(ops)[i].0);
    assert Lookup(Replay(ops), Replay(ops)[i].0).Some?;
  }

  lemma {:induction false} Appended(ops: seq<Op>, e: (Key, Value))
    requires ops != [] && InOrder(Replay(ops[..|ops| - 1]), ops[..|ops| - 1])
    requires Replay(ops) == Replay(ops[..|ops| - 1]) + [e] && LastWrite(ops[..|ops| - 1], e.0).None?
    ensures InOrder(Replay(ops), ops)
  {
    hide Born, LastWrite, Replay;
    var es, es' := Replay(ops[..|ops| - 1]), Replay(ops);
    forall i | 0 <= i < |es'|
      ensures Born(ops, es'[i].0) == if i < |es| then Born(ops[..|ops| - 1], es[i].0) else |ops| - 1
    {
      BoundNow(ops, i);
      if i < |es| {
        BoundNow(ops[..|ops| - 1], i);
      }
      BornStays(ops, es'[i].0);
    }
  }

  lemma {:induction false} Removed(ops: seq<Op>, k: Key)
    requires ops != [] && InOrder(Replay(ops[..|ops| - 1]), ops[..|ops| - 1])
    requires Replay(ops) == Del(Replay(ops[..|ops| - 1]), k)
    ensures InOrder(Replay(ops), ops)
  {
    var init := ops[..|ops| - 1];
    var es, es' := Replay(init), Replay(ops);
    LookupIsLastWrite(init, k);
    DelInOrder(es, k, init);
    DelKeeps(es, k);
    forall i | 0 <= i < |es'| ensures LastWrite(ops, es'[i].0).Some? && LastWrite(init, es'[i].0).Some? {
      BoundNow(ops, i);
      assert es'[i] in es;
      var j :| 0 <= j < |es| && es[j] == es'[i];
      BoundNow(init, j);
    }
    KeysStay(es', es', ops);
  }

  lemma {:induction false} SameKeys(ops: seq<Op>)
    requires ops != [] && InOrder(Replay(ops[..|ops| - 1]), ops[..|ops| - 1])
    requires var es, es' := Replay(ops[..|ops| - 1]), Replay(ops);
      |es'| == |es| && forall i :: 0 <= i < |es| ==> es'[i].0 == es[i].0
    ensures InOrder(Replay(ops), ops)
  {
    var es := Replay(ops[..|ops| - 1]);
    forall i | 0 <= i < |es| ensures LastWrite(ops, es[i].0).Some? && LastWrite(ops[..|ops| - 1], es[i].0).Some? {
      BoundNow(ops, i);
      BoundNow(ops[..|ops| - 1], i);
    }
    KeysStay(es, Replay(ops), ops);
  }

  /** The entries are in the order in which their keys came in, counted from their
      last removal. */
  lemma {:induction false} OrderIsInsertion(ops: seq<Op>)
    ensures InOrder(Replay(ops), ops)
  {
    if ops != [] {
      var init, op := ops[..|ops| - 1], ops[|ops| - 1];
      OrderIsInsertion(init);
      hide InOrder;
      match op {
        case SetOp(k, v) =>
          LookupIsLastWrite(init, k);
          if Lookup(Replay(init), k).Some? {
            SameKeys(ops);
          } else {
            Appended(ops, (k, v));
          }
        case GetSetOp(k, v) =>
          LookupIsLastWrite(init, k);
          if Lookup(Replay(init), k).Some? {
            SameKeys(ops);
          } else {
            Appended(ops, (k, v));
          }
        case GetOp(_) => SameKeys(ops);
        case RemoveOp(k) => Removed(ops, k);
      }
    }
  }
}
