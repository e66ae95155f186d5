/**
 Where the shrinking loop stops: with a message that fits, at a record that it
 cuts, or in failure. Each is decided by the sizes of the upstream message alone.
 */
module Stopping {
  import opened Wire
  import opened Records
  import opened Messages
  import opened Responder
  import opened Shrinking

  // ----- The loop on sizes

  /** The loop may replace this record. */
  predicate Reducible(recs: seq<Record>, ids: seq<u16>, i: nat)
    requires i < |recs| == |ids|
  {
    ids[i] != 0 && recs[i].rdata != []
  }

  /** The order in which the loop takes the records: by rdsize, then by position. */
  predicate Earlier(recs: seq<Record>, i: nat, j: nat)
    requires i < |recs| && j < |recs|
  {
    |recs[i].rdata| > |recs[j].rdata| || (|recs[i].rdata| == |recs[j].rdata| && i < j)
  }

  function Sum(ws: seq<nat>): nat {
    if ws == [] then 0 else ws[0] + Sum(ws[1..])
  }

  /** The bytes of record i when the loop comes to record j. */
  function SizeAt(recs: seq<Record>, ids: seq<u16>, i: nat, j: nat): nat
    requires i < |recs| == |ids| && j < |recs|
  {
    if Reducible(recs, ids, i) && Earlier(recs, i, j) then RRFRAGHEADER else |RecordToBytes(recs[i])|
  }

  function SizesAt(recs: seq<Record>, ids: seq<u16>, j: nat): (ws: seq<nat>)
    requires |recs| == |ids| && j < |recs|
    ensures |ws| == |recs| && forall i :: 0 <= i < |recs| ==> ws[i] == SizeAt(recs, ids, i, j)
  {
    seq(|recs|, i requires 0 <= i < |recs| => SizeAt(recs, ids, i, j))
  }

  /** cur_size when the loop comes to record j. */
  function CurAt(base: nat, recs: seq<Record>, ids: seq<u16>, j: nat): nat
    requires |recs| == |ids| && j < |recs|
  {
    base + Sum(SizesAt(recs, ids, j))
  }

  function FloorAt(recs: seq<Record>, ids: seq<u16>, i: nat): nat
    requires i < |recs| == |ids|
  {
    if Reducible(recs, ids, i) then RRFRAGHEADER else |RecordToBytes(recs[i])|
  }

  function FloorSizes(recs: seq<Record>, ids: seq<u16>): (ws: seq<nat>)
    requires |recs| == |ids|
    ensures |ws| == |recs| && forall i :: 0 <= i < |recs| ==> ws[i] == FloorAt(recs, ids, i)
  {
    seq(|recs|, i requires 0 <= i < |recs| => FloorAt(recs, ids, i))
  }

  /** What a message shrinks to when every record with rdata and an id is
      reduced to the 15 bytes of an empty fragment. */
  function FloorWidth(recs: seq<Record>, ids: seq<u16>): nat
    requires |recs| == |ids|
  {
    Sum(FloorSizes(recs, ids))
  }

  /** Without the data of record j the message is still no smaller than the limit:
      the loop reduces the record and goes on. */
  predicate GoesOn(base: nat, limit: nat, recs: seq<Record>, ids: seq<u16>, j: nat)
    requires |recs| == |ids| && j < |recs|
  {
    CurAt(base, recs, ids, j) - |recs[j].rdata| >= limit
  }

  /** The loop goes on at every record and arrives at a floor that is too large. */
  predicate Fails(base: nat, limit: nat, recs: seq<Record>, ids: seq<u16>)
    requires |recs| == |ids|
  {
    && base + FloorWidth(recs, ids) > limit
    && forall j :: 0 <= j < |recs| && Reducible(recs, ids, j) ==> GoesOn(base, limit, recs, ids, j)
  }

  /** The loop goes on at every record before j, and then still has to replace j. */
  predicate ComesTo(base: nat, limit: nat, recs: seq<Record>, ids: seq<u16>, j: nat)
    requires |recs| == |ids| && j < |recs|
  {
    && Reducible(recs, ids, j) && CurAt(base, recs, ids, j) > limit
    && forall i :: 0 <= i < |recs| && Reducible(recs, ids, i) && Earlier(recs, i, j) ==>
         GoesOn(base, limit, recs, ids, i)
  }

  /** The loop ends by cutting record j. */
  predicate CutHere(base: nat, limit: nat, recs: seq<Record>, ids: seq<u16>, j: nat)
    requires |recs| == |ids| && j < |recs|
  {
    ComesTo(base, limit, recs, ids, j) && !GoesOn(base, limit, recs, ids, j)
  }

  /** The fragment of a record that is cut has no room for data: it is over the
      limit by as much as its data and its name, less five bytes, or the name is
      longer than its data and that overshoot together. */
  predicate WithoutRoom(rr: Record, cur: int, limit: nat) {
    || cur - limit >= |rr.rdata| + |rr.nameBytes| - 5
    || |rr.nameBytes| - 5 - (cur - limit) >= |rr.rdata|
  }

  /** The data bytes for which there is room in the fragment of a record that is cut:
      its data less the overshoot, made good or enlarged by what the name has over
      five bytes, whichever way round the difference is. */
  function RoomLeft(rr: Record, cur: int, limit: nat): nat {
    var over, name := cur - limit, |rr.nameBytes| - 5;
    if WithoutRoom(rr, cur, limit) then 0
    else if over >= name then |rr.rdata| - (over - name) else |rr.rdata| - (name - over)
  }

  /** A first piece of the record, whole blocks of 32 bytes and as many as there is
      room for; without any room, a fragment that says that the record has length 0. */
  ghost predicate CutTo(f: Frag, rr: Record, id: u16, room: nat) {
    && f.rrid == id && f.curidx == 0
    && f.fragsize % 32 == 0 && f.fragsize <= room < f.fragsize + 32
    && if room == 0 then f.rrsize == 0 && f.data == None
       else
         && f.rrsize == |RecordToBytes(rr)| && f.fragsize <= |RecordToBytes(rr)|
         && f.data == Some(RecordToBytes(rr)[..f.fragsize])
  }

  /** The loop ends with a record that it advertises with length 0. */
  predicate CutWithoutRoom(base: nat, limit: nat, recs: seq<Record>, ids: seq<u16>)
    requires |recs| == |ids|
  {
    exists j :: 0 <= j < |recs| && CutHere(base, limit, recs, ids, j)
                && WithoutRoom(recs[j], CurAt(base, recs, ids, j), limit)
  }

  /** Two records that share an id, as equal ones may, are both replaced. */
  predicate SharedPieces(base: nat, limit: nat, recs: seq<Record>, ids: seq<u16>)
    requires |recs| == |ids|
  {
    exists i, j :: 0 <= i < j < |recs| && ids[i] == ids[j]
                   && ComesTo(base, limit, recs, ids, i) && ComesTo(base, limit, recs, ids, j)
  }

  // ----- Two facts about sizes

  /** There is no room exactly in the two cases that abs does not tell apart. */
  lemma {:induction false} RoomExactly(rr: Record, cur: int, limit: nat)
    requires limit < cur < 0x7fff_0000 && |rr.nameBytes| <= cur
    ensures RoomFor(rr, cur, limit) == 0 <==> WithoutRoom(rr, cur, limit)
    ensures RoomFor(rr, cur, limit) == RoomLeft(rr, cur, limit)
  {
    var x := cur + (RRFRAGHEADER - RRHEADER - |rr.nameBytes|) - limit;
    assert Abs32(x) == if x < 0 then -x else x;
  }

  /** The code's fragment keeps all whole blocks for which there is room. */
  lemma {:induction false} LastFragKeeps(rr: Record, id: u16, cs: nat)
    requires cs <= |rr.rdata| && |RecordToBytes(rr)| < 0x1_0000_0000
    ensures CutTo(LastFrag(rr, id, cs), rr, id, cs)
  {
    assert |rr.rdata| <= |RecordToBytes(rr)|;
    hide RecordToBytes;
  }

  lemma {:induction false} SumLess(vs: seq<nat>, ws: seq<nat>, j: nat, slack: nat)
    requires |vs| == |ws| && j < |vs| && vs[j] + slack <= ws[j]
    requires forall i :: 0 <= i < |vs| ==> vs[i] <= ws[i]
    ensures Sum(vs) + slack <= Sum(ws)
  {
    if j > 0 {
      SumLess(vs[1..], ws[1..], j - 1, slack);
    } else {
      SumAtMost(vs[1..], ws[1..]);
    }
  }

  lemma {:induction false} SumAtMost(vs: seq<nat>, ws: seq<nat>)
    requires |vs| == |ws| && forall i :: 0 <= i < |vs| ==> vs[i] <= ws[i]
    ensures Sum(vs) <= Sum(ws)
  {
    if vs != [] {
      SumAtMost(vs[1..], ws[1..]);
    }
  }

  /** For names of five bytes or more the floor alone decides: the loop fails if
      and only if the message exceeds the limit there. */
  lemma {:induction false} FloorDecides(base: nat, limit: nat, recs: seq<Record>, ids: seq<u16>)
    requires |recs| == |ids| && forall i :: 0 <= i < |recs| ==> |recs[i].nameBytes| >= 5
    ensures Fails(base, limit, recs, ids) <==> base + FloorWidth(recs, ids) > limit
  {
    hide RecordToBytes, Sum;
    forall j | 0 <= j < |recs| && Reducible(recs, ids, j)
      ensures FloorWidth(recs, ids) + |recs[j].rdata| <= Sum(SizesAt(recs, ids, j))
    {
      assert !Earlier(recs, j, j);
      SumLess(FloorSizes(recs, ids), SizesAt(recs, ids, j), j, |recs[j].rdata|);
    }
  }

  // ----- What the loop keeps

  /** The record at i as it was, or replaced by an empty fragment. */
  ghost predicate Untouched(cache: Cache, k: Shrunk, recs: seq<Record>, ids: seq<u16>, i: nat)
    requires i < |recs| == |ids| == |k.records| == |k.rrids|
  {
    && Bound(cache, ids[i], recs[i])
    && ((k.rrids[i] == ids[i] && k.records[i] == Whole(recs[i]))
        || (ids[i] != 0 && k.rrids[i] == 0 && recs[i].rdata != []
            && k.records[i] == Fragment(EmptyFrag(recs[i], ids[i]))))
  }

  /** The sizes of the message stay within an int, with five bytes to spare for
      every record that may still grow into a fragment. */
  predicate InRange(k: Shrunk) {
    k.cur + 5 * Considered(k.rrids) < 0x7fff_0000
  }

  /** cur_size is the size on the wire, and every record is whole or reduced. */
  ghost predicate Tracked(cache: Cache, base: nat, k: Shrunk, recs: seq<Record>, ids: seq<u16>) {
    && |k.records| == |k.rrids| == |recs| == |ids|
    && AllSized(k.records)
    && k.cur == base + Width(k.records)
    && forall i :: 0 <= i < |recs| ==> Untouched(cache, k, recs, ids, i)
  }

  lemma {:induction false} TrackedIsKnown(cache: Cache, base: nat, k: Shrunk, recs: seq<Record>, ids: seq<u16>)
    requires Tracked(cache, base, k, recs, ids)
    ensures Known(cache, k.rrids)
    ensures forall i :: 0 <= i < |recs| && k.rrids[i] != 0 ==>
      k.rrids[i] == ids[i] && k.records[i] == Whole(recs[i]) && Bound(cache, ids[i], recs[i])
  {
    forall i | 0 <= i < |recs| && k.rrids[i] != 0
      ensures k.rrids[i] == ids[i] && k.records[i] == Whole(recs[i]) && Bound(cache, ids[i], recs[i])
    {
      assert Untouched(cache, k, recs, ids, i);
    }
  }

  /** One record is reduced to an empty fragment. */
  lemma {:induction false} ReduceOne(cache: Cache, base: nat, k: Shrunk, recs: seq<Record>, ids: seq<u16>, idx: nat)
    requires Tracked(cache, base, k, recs, ids) && InRange(k)
    requires idx < |recs| && k.rrids[idx] != 0 && recs[idx].rdata != []
    ensures k.rrids[idx] in cache
    ensures Tracked(cache, base, Reduce(cache, k, idx), recs, ids) && InRange(Reduce(cache, k, idx))
  {
    hide Tracked, InRange, Width, RecordToBytes, AllSized, FragToBytes, Considered;
    TrackedAt(cache, base, k, recs, ids, idx);
    SameRecordBytes(recs[idx], cache[k.rrids[idx]]);
    Reduced(cache, base, k, Reduce(cache, k, idx), recs, ids, idx);
  }

  lemma {:induction false} Reduced(cache: Cache, base: nat, k: Shrunk, k': Shrunk, recs: seq<Record>, ids: seq<u16>,
                                   idx: nat)
    requires Tracked(cache, base, k, recs, ids) && InRange(k) && idx < |recs| && ids[idx] != 0
    requires Bound(cache, ids[idx], recs[idx])
    requires k.rrids[idx] != 0 && k.records[idx] == Whole(recs[idx]) && recs[idx].rdata != []
    requires k'.records == k.records[idx := Fragment(EmptyFrag(recs[idx], ids[idx]))] && k'.rrids == k.rrids[idx := 0]
    requires k'.cur == k.cur - |RecordToBytes(recs[idx])| + RRFRAGHEADER
    ensures Tracked(cache, base, k', recs, ids) && InRange(k')
  {
    WidthUpdate(k.records, idx, Fragment(EmptyFrag(recs[idx], ids[idx])));
    ConsideredLess(k.rrids, idx);
    hide Width, Bound, RecordToBytes, Considered, FragToBytes;
    assert Untouched(cache, k', recs, ids, idx);
    hide Untouched, EmptyFrag;
    forall i | 0 <= i < |recs| ensures Untouched(cache, k', recs, ids, i) {
      if i != idx {
        StillUntouched(cache, k, k', recs, ids, i);
      }
    }
  }

  lemma {:induction false} WidthIsSum(ps: seq<PackedRR>, ws: seq<nat>)
    requires AllSized(ps) && |ps| == |ws|
    requires forall i :: 0 <= i < |ps| ==> |PackedToBytes(ps[i])| == ws[i]
    ensures Width(ps) == Sum(ws)
  {
    hide PackedToBytes;
    if ps != [] {
      WidthIsSum(ps[1..], ws[1..]);
    }
  }

  /** The bytes of a record as it was, or replaced. */
  lemma {:induction false} UntouchedSize(cache: Cache, k: Shrunk, recs: seq<Record>, ids: seq<u16>, i: nat)
    requires i < |recs| == |ids| == |k.records| == |k.rrids| && Untouched(cache, k, recs, ids, i)
    ensures k.records[i].Sized()
    ensures ids[i] != 0 && k.rrids[i] == 0 ==> Reducible(recs, ids, i) && |PackedToBytes(k.records[i])| == RRFRAGHEADER
    ensures ids[i] == 0 || k.rrids[i] != 0 ==> |PackedToBytes(k.records[i])| == |RecordToBytes(recs[i])|
  {
    hide RecordToBytes, Bound;
  }

  /** Nothing is left to reduce: the message is at its floor. */
  lemma {:induction false} AtTheFloor(cache: Cache, base: nat, k: Shrunk, recs: seq<Record>, ids: seq<u16>)
    requires Tracked(cache, base, k, recs, ids)
    requires forall i :: 0 <= i < |recs| && k.rrids[i] != 0 ==> recs[i].rdata == []
    ensures k.cur == base + FloorWidth(recs, ids)
  {
    hide RecordToBytes, Bound, FragToBytes, Untouched, Sum, Width;
    forall i | 0 <= i < |recs| ensures |PackedToBytes(k.records[i])| == FloorAt(recs, ids, i) {
      UntouchedSize(cache, k, recs, ids, i);
    }
    WidthIsSum(k.records, FloorSizes(recs, ids));
  }

  // ----- What the loop has passed

  /** The loop came to every record that it reduced and went on, and it takes those
      that are left after them. */
  ghost predicate Descending(base: nat, limit: nat, k: Shrunk, recs: seq<Record>, ids: seq<u16>)
    requires |recs| == |ids| == |k.rrids|
  {
    forall i :: 0 <= i < |recs| && ids[i] != 0 && k.rrids[i] == 0 ==>
      && ComesTo(base, limit, recs, ids, i) && GoesOn(base, limit, recs, ids, i)
      && forall j :: 0 <= j < |recs| && k.rrids[j] != 0 && recs[j].rdata != [] ==> Earlier(recs, i, j)
  }

  /** Record idx is the next one. */
  ghost predicate NextIs(k: Shrunk, recs: seq<Record>, ids: seq<u16>, idx: nat)
    requires |recs| == |ids| == |k.rrids|
  {
    && idx < |recs| && k.rrids[idx] != 0 && Reducible(recs, ids, idx)
    && forall j :: 0 <= j < |recs| && j != idx && k.rrids[j] != 0 && recs[j].rdata != [] ==> Earlier(recs, idx, j)
  }

  /** cur_size is what the sizes of the message say. */
  lemma {:induction false} CurIs(cache: Cache, base: nat, limit: nat, k: Shrunk, recs: seq<Record>, ids: seq<u16>,
                                 idx: nat)
    requires Tracked(cache, base, k, recs, ids) && Descending(base, limit, k, recs, ids) && NextIs(k, recs, ids, idx)
    ensures k.cur == CurAt(base, recs, ids, idx)
  {
    hide RecordToBytes, Bound, FragToBytes, Sum, Width, GoesOn, Untouched;
    forall i | 0 <= i < |recs| ensures |PackedToBytes(k.records[i])| == SizeAt(recs, ids, i, idx) {
      UntouchedSize(cache, k, recs, ids, i);
      assert Untouched(cache, k, recs, ids, i);
    }
    WidthIsSum(k.records, SizesAt(recs, ids, idx));
  }

  lemma {:induction false} DescendingOn(base: nat, limit: nat, k: Shrunk, k': Shrunk, recs: seq<Record>,
                                        ids: seq<u16>, idx: nat)
    requires |recs| == |ids| == |k.rrids| && Descending(base, limit, k, recs, ids) && NextIs(k, recs, ids, idx)
    requires ComesTo(base, limit, recs, ids, idx) && GoesOn(base, limit, recs, ids, idx)
    requires k'.rrids == k.rrids[idx := 0]
    ensures Descending(base, limit, k', recs, ids)
  {
    hide GoesOn, Earlier, ComesTo;
  }

  /** The loop comes to the next record. */
  lemma {:induction false} ComesNext(cache: Cache, base: nat, limit: nat, k: Shrunk, recs: seq<Record>, ids: seq<u16>,
                                     idx: nat)
    requires Tracked(cache, base, k, recs, ids) && Descending(base, limit, k, recs, ids) && NextIs(k, recs, ids, idx)
    requires k.cur > limit
    ensures ComesTo(base, limit, recs, ids, idx) && k.cur == CurAt(base, recs, ids, idx)
  {
    hide Tracked, FloorWidth, CurAt, GoesOn;
    CurIs(cache, base, limit, k, recs, ids, idx);
  }

  /** The loop does not go on at the next record, or is not in need of it: the
      records that it comes to are those it has reduced, and perhaps the next. */
  lemma {:induction false} ComesNoFurther(cache: Cache, base: nat, limit: nat, k: Shrunk, recs: seq<Record>,
                                          ids: seq<u16>, i: nat)
    requires Tracked(cache, base, k, recs, ids) && Descending(base, limit, k, recs, ids) && i < |recs|
    requires forall idx: nat :: NextIs(k, recs, ids, idx) ==> k.cur - |recs[idx].rdata| < limit
    requires (exists idx: nat :: NextIs(k, recs, ids, idx))
             || forall j :: 0 <= j < |recs| && k.rrids[j] != 0 ==> recs[j].rdata == []
    requires ComesTo(base, limit, recs, ids, i)
    ensures k.rrids[i] == 0 || (NextIs(k, recs, ids, i) && k.cur > limit)
  {
    if k.rrids[i] != 0 {
      var idx :| NextIs(k, recs, ids, idx);
      CurIs(cache, base, limit, k, recs, ids, idx);
      hide Tracked, CurAt;
    }
  }

  /** The message fits: the loop fails nowhere, and cuts nothing. */
  lemma {:induction false} StopsFitting(cache: Cache, base: nat, limit: nat, k: Shrunk, recs: seq<Record>,
                                        ids: seq<u16>)
    requires Tracked(cache, base, k, recs, ids) && Descending(base, limit, k, recs, ids) && k.cur <= limit
    requires (exists idx: nat :: NextIs(k, recs, ids, idx))
             || forall i :: 0 <= i < |recs| && k.rrids[i] != 0 ==> recs[i].rdata == []
    ensures !Fails(base, limit, recs, ids)
    ensures forall j :: 0 <= j < |recs| ==> !CutHere(base, limit, recs, ids, j)
    ensures AllCome(base, limit, k, recs, ids)
  {
    forall i | 0 <= i < |recs| && ComesTo(base, limit, recs, ids, i) ensures ids[i] != 0 && k.rrids[i] == 0 {
      ComesNoFurther(cache, base, limit, k, recs, ids, i);
    }
    if idx: nat :| NextIs(k, recs, ids, idx) {
      CurIs(cache, base, limit, k, recs, ids, idx);
      assert !GoesOn(base, limit, recs, ids, idx);
    } else {
      AtTheFloor(cache, base, k, recs, ids);
    }
    hide CurAt, Tracked, FloorWidth;
  }

  /** The records that the loop comes to are those it has taken. */
  ghost predicate AllCome(base: nat, limit: nat, k: Shrunk, recs: seq<Record>, ids: seq<u16>)
    requires |recs| == |ids| == |k.rrids|
  {
    forall i :: 0 <= i < |recs| ==> (ComesTo(base, limit, recs, ids, i) <==> ids[i] != 0 && k.rrids[i] == 0)
  }

  /** Nothing is left, and the message is still too large. */
  lemma {:induction false} StopsAtTheFloor(cache: Cache, base: nat, limit: nat, k: Shrunk, recs: seq<Record>,
                                           ids: seq<u16>)
    requires Tracked(cache, base, k, recs, ids) && Descending(base, limit, k, recs, ids) && k.cur > limit
    requires forall i :: 0 <= i < |recs| && k.rrids[i] != 0 ==> recs[i].rdata == []
    ensures Fails(base, limit, recs, ids)
  {
    hide Tracked, FloorWidth, GoesOn;
    AtTheFloor(cache, base, k, recs, ids);
  }

  /** The next record is cut. */
  lemma {:induction false} StopsCutting(cache: Cache, base: nat, limit: nat, k: Shrunk, recs: seq<Record>,
                                        ids: seq<u16>, idx: nat)
    requires Tracked(cache, base, k, recs, ids) && Descending(base, limit, k, recs, ids) && NextIs(k, recs, ids, idx)
    requires k.cur - |recs[idx].rdata| < limit < k.cur
    ensures CutHere(base, limit, recs, ids, idx) && !Fails(base, limit, recs, ids)
    ensures k.cur == CurAt(base, recs, ids, idx)
    ensures AllCome(base, limit, k.(rrids := k.rrids[idx := 0]), recs, ids)
  {
    ComesNext(cache, base, limit, k, recs, ids, idx);
    assert !GoesOn(base, limit, recs, ids, idx);
    OnlyNext(k, recs, ids, idx);
    hide FloorWidth, CurAt, GoesOn;
    forall i | 0 <= i < |recs| && ComesTo(base, limit, recs, ids, i)
      ensures ids[i] != 0 && (k.rrids[i] == 0 || i == idx)
    {
      ComesNoFurther(cache, base, limit, k, recs, ids, i);
    }
    hide Tracked, ComesTo, Earlier;
  }

  lemma {:induction false} OnlyNext(k: Shrunk, recs: seq<Record>, ids: seq<u16>, idx: nat)
    requires |recs| == |ids| == |k.rrids| && NextIs(k, recs, ids, idx)
    ensures forall i: nat :: NextIs(k, recs, ids, i) ==> i == idx
  {
  }

  /**
   The record that ends the loop. Its fragment never takes more than the room
   there is; only when there is no room for data can the 15 bytes of the fragment
   be up to three more than the limit.
   */
  lemma {:induction false} LastFragFits(rr: Record, id: u16, cur: int, limit: nat)
    requires cur - |rr.rdata| < limit < cur < 0x7fff_0000 && |RecordToBytes(rr)| <= cur && rr.nameBytes != []
    ensures var cs := RoomFor(rr, cur, limit);
      && cur - |RecordToBytes(rr)| + |FragToBytes(LastFrag(rr, id, cs))| <= limit + (if cs == 0 then 3 else 0)
      && (cs == 0 <==> WithoutRoom(rr, cur, limit))
  {
    RoomExactly(rr, cur, limit);
    var x := cur + (RRFRAGHEADER - RRHEADER - |rr.nameBytes|) - limit;
    assert Abs32(x) == if x < 0 then -x else x;
  }

  // ----- The outcome

  /** `last` is the record that was cut to fit, if there was one. */
  ghost predicate Outcome(cache: Cache, base: nat, limit: nat, k: Shrunk, recs: seq<Record>, ids: seq<u16>,
                          last: Option<nat>)
  {
    && |k.records| == |k.rrids| == |recs| == |ids|
    && AllSized(k.records)
    && k.cur == base + Width(k.records) <= limit + 3
    && !Fails(base, limit, recs, ids)
    && (forall i :: 0 <= i < |recs| && last != Some(i) ==> Untouched(cache, k, recs, ids, i))
    && (forall i :: 0 <= i < |recs| ==> (k.records[i].Fragment? <==> ComesTo(base, limit, recs, ids, i)))
    && match last
       case None => k.cur <= limit && forall j :: 0 <= j < |recs| ==> !CutHere(base, limit, recs, ids, j)
       case Some(j) => j < |recs| && CutHere(base, limit, recs, ids, j) && CutAt(cache, base, limit, k, recs, ids, j)
  }

  /** The record at j is cut to the room there is when the loop comes to it; `k`
      exceeds the limit only when that is none. */
  ghost predicate CutAt(cache: Cache, base: nat, limit: nat, k: Shrunk, recs: seq<Record>, ids: seq<u16>, j: nat)
    requires j < |recs| == |ids| == |k.records|
  {
    var cur := CurAt(base, recs, ids, j);
    && Bound(cache, ids[j], recs[j])
    && k.records[j].Fragment? && CutTo(k.records[j].frag, recs[j], ids[j], RoomLeft(recs[j], cur, limit))
    && (!WithoutRoom(recs[j], cur, limit) ==> k.cur <= limit)
  }

  /** `last` is cut and the loop ends. */
  lemma {:induction false} CutLast(cache: Cache, base: nat, limit: nat, k: Shrunk, recs: seq<Record>, ids: seq<u16>,
                                   idx: nat)
    requires Tracked(cache, base, k, recs, ids) && InRange(k)
    requires Descending(base, limit, k, recs, ids) && NextIs(k, recs, ids, idx)
    requires recs[idx].nameBytes != [] && k.cur - |recs[idx].rdata| < limit < k.cur
    ensures k.rrids[idx] in cache
    ensures Outcome(cache, base, limit, Cut(cache, limit, k, idx), recs, ids, Some(idx))
  {
    TrackedAt(cache, base, k, recs, ids, idx);
    hide Tracked, InRange, Width, AllSized;
    StopsCutting(cache, base, limit, k, recs, ids, idx);
    hide CurAt, CutHere, Fails, Descending, NextIs, Reducible, AllCome;
    CutFrag(cache[ids[idx]], recs[idx], ids[idx], k.cur, limit, k.records, idx);
    hide RecordToBytes, FragToBytes, RoomFor, LastFrag, Outcome, SameRecord, WithoutRoom;
    AllComeIs(base, limit, k.(rrids := k.rrids[idx := 0]), Cut(cache, limit, k, idx), recs, ids);
    CutOutcome(cache, base, limit, k, Cut(cache, limit, k, idx), recs, ids, idx);
  }

  lemma {:induction false} AllComeIs(base: nat, limit: nat, k: Shrunk, k': Shrunk, recs: seq<Record>, ids: seq<u16>)
    requires |recs| == |ids| == |k.rrids| && AllCome(base, limit, k, recs, ids) && k'.rrids == k.rrids
    ensures AllCome(base, limit, k', recs, ids)
  {
    hide ComesTo;
  }

  lemma {:induction false} TrackedAt(cache: Cache, base: nat, k: Shrunk, recs: seq<Record>, ids: seq<u16>, idx: nat)
    requires Tracked(cache, base, k, recs, ids) && InRange(k) && idx < |recs| && k.rrids[idx] != 0
    ensures |k.records| == |k.rrids| == |recs| == |ids| && k.rrids[idx] == ids[idx]
    ensures k.records[idx] == Whole(recs[idx])
    ensures Bound(cache, ids[idx], recs[idx])
    ensures AllSized(k.records) && Width(k.records) <= k.cur < 0x7fff_0000
  {
    hide Width, Bound, RecordToBytes;
    assert Untouched(cache, k, recs, ids, idx);
  }

  lemma {:induction false} CutOutcome(cache: Cache, base: nat, limit: nat, k: Shrunk, k': Shrunk, recs: seq<Record>,
                                      ids: seq<u16>, idx: nat)
    requires Tracked(cache, base, k, recs, ids) && idx < |recs| && Bound(cache, ids[idx], recs[idx])
    requires CutHere(base, limit, recs, ids, idx) && !Fails(base, limit, recs, ids)
    requires k.cur == CurAt(base, recs, ids, idx)
    requires k.records[idx] == Whole(recs[idx])
    requires var cs := RoomFor(recs[idx], k.cur, limit);
      var f := LastFrag(recs[idx], ids[idx], cs);
      && k'.records == k.records[idx := Fragment(f)] && k'.rrids == k.rrids[idx := 0]
      && k'.cur == k.cur - |RecordToBytes(recs[idx])| + |FragToBytes(f)| <= limit + (if cs == 0 then 3 else 0)
      && (cs == 0 <==> WithoutRoom(recs[idx], k.cur, limit))
      && CutTo(f, recs[idx], ids[idx], RoomLeft(recs[idx], k.cur, limit))
    requires AllCome(base, limit, k', recs, ids)
    ensures Outcome(cache, base, limit, k', recs, ids, Some(idx))
  {
    hide CutHere, Fails, CurAt, RoomFor, RoomLeft, CutTo, WithoutRoom, ComesTo, AllCome, Width, RecordToBytes,
         FragToBytes, LastFrag, Bound, Untouched;
    CutComes(base, limit, recs, ids, idx);
    WidthUpdate(k.records, idx, Fragment(LastFrag(recs[idx], ids[idx], RoomFor(recs[idx], k.cur, limit))));
    forall i | 0 <= i < |recs| && i != idx
      ensures Untouched(cache, k', recs, ids, i) && (k'.records[i].Fragment? <==> ComesTo(base, limit, recs, ids, i))
    {
      StillUntouched(cache, k, k', recs, ids, i);
      UntouchedCame(cache, base, limit, k', recs, ids, i);
    }
  }

  /** A record that was not cut is a fragment if the loop came to it. */
  lemma {:induction false} UntouchedCame(cache: Cache, base: nat, limit: nat, k: Shrunk, recs: seq<Record>,
                                         ids: seq<u16>, i: nat)
    requires i < |recs| == |ids| == |k.records| == |k.rrids| && Untouched(cache, k, recs, ids, i)
    requires AllCome(base, limit, k, recs, ids)
    ensures k.records[i].Fragment? <==> ComesTo(base, limit, recs, ids, i)
  {
    hide Bound, ComesTo, EmptyFrag;
  }

  lemma {:induction false} CutComes(base: nat, limit: nat, recs: seq<Record>, ids: seq<u16>, j: nat)
    requires |recs| == |ids| && j < |recs| && CutHere(base, limit, recs, ids, j)
    ensures ComesTo(base, limit, recs, ids, j) && ids[j] != 0
  {
  }

  lemma {:induction false} StillUntouched(cache: Cache, k: Shrunk, k': Shrunk, recs: seq<Record>, ids: seq<u16>, i: nat)
    requires i < |recs| == |ids| == |k.records| == |k.rrids| == |k'.records| == |k'.rrids|
    requires Untouched(cache, k, recs, ids, i) && k'.records[i] == k.records[i] && k'.rrids[i] == k.rrids[i]
    ensures Untouched(cache, k', recs, ids, i)
  {
  }

  lemma {:induction false} CutFrag(rr: Record, rec: Record, id: u16, cur: int, limit: nat, ps: seq<PackedRR>, idx: nat)
    requires SameRecord(rec, rr) && rec.nameBytes != []
    requires AllSized(ps) && idx < |ps| && ps[idx] == Whole(rec) && Width(ps) <= cur
    requires cur - |rec.rdata| < limit < cur < 0x7fff_0000
    ensures RecordToBytes(rr) == RecordToBytes(rec)
    ensures var cs := RoomFor(rec, cur, limit);
      && RoomFor(rr, cur, limit) == cs && LastFrag(rr, id, cs) == LastFrag(rec, id, cs)
      && cur - |RecordToBytes(rr)| + |FragToBytes(LastFrag(rr, id, cs))| <= limit + (if cs == 0 then 3 else 0)
      && (cs == 0 <==> WithoutRoom(rec, cur, limit))
      && CutTo(LastFrag(rec, id, cs), rec, id, RoomLeft(rec, cur, limit))
  {
    hide RecordToBytes, Width, SameRecord, RoomFor, RoomLeft, CutTo, LastFrag, FragToBytes, WithoutRoom, AllSized;
    RecordInt(ps, idx, rec, cur);
    RoomExactly(rec, cur, limit);
    LastFragKeeps(rec, id, RoomFor(rec, cur, limit));
    SameRecordBytes(rec, rr);
    WidthAt(ps, idx);
    SameCut(rr, rec, id, RoomFor(rec, cur, limit), cur, limit);
    LastFragFits(rec, id, cur, limit);
  }

  lemma {:induction false} RecordInt(ps: seq<PackedRR>, idx: nat, rec: Record, cur: int)
    requires AllSized(ps) && idx < |ps| && ps[idx] == Whole(rec) && Width(ps) <= cur
    ensures |rec.nameBytes| <= |RecordToBytes(rec)| <= cur
  {
    hide Width;
    WidthAt(ps, idx);
  }

  /** The cached record is cut as the record of the message is. */
  lemma {:induction false} SameCut(rr: Record, rec: Record, id: u16, cs: nat, cur: int, limit: nat)
    requires SameRecord(rec, rr) && RecordToBytes(rr) == RecordToBytes(rec) && cs <= |rec.rdata|
    ensures |rr.rdata| == |rec.rdata| && RoomFor(rr, cur, limit) == RoomFor(rec, cur, limit)
    ensures LastFrag(rr, id, cs) == LastFrag(rec, id, cs)
  {
    hide RecordToBytes, Abs32;
  }

  /** The largest record is the next one. */
  lemma {:induction false} LargestIsNext(cache: Cache, base: nat, k: Shrunk, recs: seq<Record>, ids: seq<u16>)
    requires Tracked(cache, base, k, recs, ids)
    ensures Known(cache, k.rrids) && |k.records| == |k.rrids| == |recs| == |ids|
    ensures match Largest(cache, k.rrids, |k.rrids|)
      case None => forall i :: 0 <= i < |recs| && k.rrids[i] != 0 ==> recs[i].rdata == []
      case Some(idx) =>
        NextIs(k, recs, ids, idx) && k.rrids[idx] in cache && RdSize(cache, k.rrids[idx]) as int == |recs[idx].rdata|
  {
    TrackedIsKnown(cache, base, k, recs, ids);
    hide RecordToBytes, Untouched, Tracked, Largest;
    assert forall i :: 0 <= i < |recs| && k.rrids[i] != 0 ==> RdSize(cache, k.rrids[i]) as int == |recs[i].rdata|;
  }

  /**
   The loop ends with a message that is as large as cur_size says and fits, and
   in which all fragments but one are empty. Where it ends, and that it fails by
   looking up an id that was never set, is decided by sizes alone: it fails if and
   only if `Fails` holds, and it cuts record j if and only if `CutHere` holds of j.
   */
  lemma {:induction false} ShrinkOutcome(cache: Cache, base: nat, limit: nat, k: Shrunk, recs: seq<Record>,
                                         ids: seq<u16>)
    returns (last: Option<nat>)
    requires Tracked(cache, base, k, recs, ids) && InRange(k) && Descending(base, limit, k, recs, ids)
    requires forall i :: 0 <= i < |recs| ==> recs[i].nameBytes != []
    ensures Known(cache, k.rrids) && |k.records| == |k.rrids|
    ensures match Shrink(cache, limit, k)
      case Err(e) => e == Uninitialised && Fails(base, limit, recs, ids)
      case Ok(k') => Outcome(cache, base, limit, k', recs, ids, last)
    decreases Considered(k.rrids), 1
  {
    hide Tracked, Descending, InRange, NextIs, Largest, Known, Fails, CutHere, AllCome;
    LargestIsNext(cache, base, k, recs, ids);
    last := None;
    if k.cur > limit {
      match Largest(cache, k.rrids, |k.rrids|) {
        case None =>
          StopsAtTheFloor(cache, base, limit, k, recs, ids);
        case Some(idx) =>
          last := ShrinkTurn(cache, base, limit, k, recs, ids, idx);
      }
    } else {
      StopsFitting(cache, base, limit, k, recs, ids);
      FittingOutcome(cache, base, limit, k, recs, ids);
    }
  }

  lemma {:induction false} FittingOutcome(cache: Cache, base: nat, limit: nat, k: Shrunk, recs: seq<Record>,
                                          ids: seq<u16>)
    requires Tracked(cache, base, k, recs, ids) && k.cur <= limit && !Fails(base, limit, recs, ids)
    requires forall j :: 0 <= j < |recs| ==> !CutHere(base, limit, recs, ids, j)
    requires AllCome(base, limit, k, recs, ids)
    ensures Outcome(cache, base, limit, k, recs, ids, None)
  {
    hide Fails, CutHere, ComesTo, Untouched, AllCome;
    forall i | 0 <= i < |recs| ensures k.records[i].Fragment? <==> ComesTo(base, limit, recs, ids, i) {
      assert Untouched(cache, k, recs, ids, i);
      UntouchedCame(cache, base, limit, k, recs, ids, i);
    }
  }

  lemma {:induction false} ShrinkTurn(cache: Cache, base: nat, limit: nat, k: Shrunk, recs: seq<Record>, ids: seq<u16>,
                                      idx: nat)
    returns (last: Option<nat>)
    requires Tracked(cache, base, k, recs, ids) && InRange(k) && Descending(base, limit, k, recs, ids) && k.cur > limit
    requires forall i :: 0 <= i < |recs| ==> recs[i].nameBytes != []
    requires Known(cache, k.rrids) && Largest(cache, k.rrids, |k.rrids|) == Some(idx)
    ensures |k.records| == |k.rrids|
    ensures match Shrink(cache, limit, k)
      case Err(e) => e == Uninitialised && Fails(base, limit, recs, ids)
      case Ok(k') => Outcome(cache, base, limit, k', recs, ids, last)
    decreases Considered(k.rrids), 0
  {
    hide RecordToBytes, FragToBytes, LastFrag, RoomFor, EmptyFrag, Shrink, Outcome, InRange, Largest, Known, Tracked,
         SameRecord, Cut, Reduce, Descending, NextIs, GoesOn, Fails, ComesTo;
    LargestIsNext(cache, base, k, recs, ids);
    NextFacts(k, recs, ids, idx);
    ShrinkStep(cache, limit, k, idx);
    if k.cur - RdSize(cache, k.rrids[idx]) >= limit {
      ReduceOne(cache, base, k, recs, ids, idx);
      ConsideredLess(k.rrids, idx);
      ReduceRrids(cache, k, idx);
      ComesNext(cache, base, limit, k, recs, ids, idx);
      GoesOnIs(base, limit, recs, ids, idx);
      DescendingOn(base, limit, k, Reduce(cache, k, idx), recs, ids, idx);
      last := ShrinkOutcome(cache, base, limit, Reduce(cache, k, idx), recs, ids);
    } else {
      CutLast(cache, base, limit, k, recs, ids, idx);
      last := Some(idx);
    }
  }

  lemma {:induction false} NextFacts(k: Shrunk, recs: seq<Record>, ids: seq<u16>, idx: nat)
    requires |recs| == |ids| == |k.rrids| && NextIs(k, recs, ids, idx)
    ensures idx < |recs| && k.rrids[idx] != 0 && recs[idx].rdata != []
  {
  }

  lemma {:induction false} GoesOnIs(base: nat, limit: nat, recs: seq<Record>, ids: seq<u16>, j: nat)
    requires |recs| == |ids| && j < |recs| && CurAt(base, recs, ids, j) - |recs[j].rdata| >= limit
    ensures GoesOn(base, limit, recs, ids, j)
  {
  }
}
