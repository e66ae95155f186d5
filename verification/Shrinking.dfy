/**
 The responder's first reply: insert_into_state_and_construct_map replaces the
 largest records of a message by fragments until the message fits the UDP limit.
 */
module Shrinking {
  import opened Wire
  import opened Names
  import opened Records
  import opened Messages
  import opened Reassembly
  import opened Responder

  const DNSMESSAGEHEADER := 12
  const RRFRAGHEADER := 15
  const RRHEADER := 10

  /** max_size - DNSMESSAGEHEADER, an unsigned subtraction. */
  function Limit(maxSize: u32): nat {
    if maxSize >= DNSMESSAGEHEADER then maxSize - DNSMESSAGEHEADER
    else maxSize + 0x1_0000_0000_0000_0000 - DNSMESSAGEHEADER
  }

  /** The absolute value of a number that abs takes as a 32-bit int. */
  function Abs32(x: int): nat {
    var y := (x + 0x8000_0000) % 0x1_0000_0000 - 0x8000_0000;
    if y < 0 then -y else y
  }

  /** The message as one list of records, the ids still to be considered (0 when
      a record has been replaced), and cur_size. */
  datatype Shrunk = Shrunk(records: seq<PackedRR>, rrids: seq<u16>, cur: int)

  predicate Known(cache: Cache, rrids: seq<u16>) {
    forall i :: 0 <= i < |rrids| && rrids[i] != 0 ==> rrids[i] in cache
  }

  /** rdsize of the record with this id. */
  function RdSize(cache: Cache, id: u16): (n: u16)
    requires id in cache
  {
    |cache[id].rdata|
  }

  /** The first of the records with the largest rdsize among the first n that are
      still considered; None when all of those have no rdata. */
  function Largest(cache: Cache, rrids: seq<u16>, n: nat): (best: Option<nat>)
    requires n <= |rrids| && Known(cache, rrids)
    ensures best.Some? ==> best.value < n && rrids[best.value] != 0 && RdSize(cache, rrids[best.value]) > 0
    ensures forall i :: 0 <= i < n && rrids[i] != 0 ==>
      RdSize(cache, rrids[i]) <= if best.Some? then RdSize(cache, rrids[best.value]) else 0
    ensures best.Some? ==>
      forall i :: 0 <= i < best.value && rrids[i] != 0 ==> RdSize(cache, rrids[i]) < RdSize(cache, rrids[best.value])
  {
    if n == 0 then None
    else
      var best := Largest(cache, rrids, n - 1);
      if rrids[n - 1] != 0 && RdSize(cache, rrids[n - 1]) > BestSize(cache, rrids, best) then Some(n - 1) else best
  }

  function BestSize(cache: Cache, rrids: seq<u16>, best: Option<nat>): u16
    requires best.Some? ==> best.value < |rrids| && rrids[best.value] in cache
  {
    if best.Some? then RdSize(cache, rrids[best.value]) else 0
  }

  /** The data bytes that may stay: cs, and fragsize from it. What the record is
      over the limit is measured with abs, so that a long name counts against the
      data although it leaves more room. */
  function RoomFor(rr: Record, cur: int, limit: nat): (cs: nat)
    ensures cs <= |rr.rdata|
  {
    var over := Abs32(cur + (RRFRAGHEADER - RRHEADER - |rr.nameBytes|) - limit);
    if over > |rr.rdata| then 0 else |rr.rdata| - over
  }

  function OutLen(rr: Record): u32 { |RecordToBytes(rr)| % 0x1_0000_0000 }

  /** A fragment without data, which leaves the whole record to follow-ups. */
  function EmptyFrag(rr: Record, id: u16): Frag {
    Frag(0, 0, OutLen(rr), id, None)
  }

  /** The fragment that ends the loop. With cs == 0 it advertises a record of
      length 0. */
  function LastFrag(rr: Record, id: u16, cs: nat): (f: Frag)
    requires cs <= |rr.rdata|
    ensures f.Sized() && f.fragsize <= cs
  {
    var fragsize := cs / 32 * 32;
    if cs > 0 then Frag(fragsize, 0, OutLen(rr), id, Some(RecordToBytes(rr)[..fragsize]))
    else Frag(fragsize, 0, 0, id, None)
  }

  function Considered(rrids: seq<u16>): nat {
    if rrids == [] then 0 else Considered(rrids[..|rrids| - 1]) + if rrids[|rrids| - 1] != 0 then 1 else 0
  }

  lemma {:induction false} ConsideredLess(rrids: seq<u16>, i: nat)
    requires i < |rrids| && rrids[i] != 0
    ensures Considered(rrids[i := 0]) == Considered(rrids) - 1
  {
    var n := |rrids| - 1;
    if i < n {
      ConsideredLess(rrids[..n], i);
      assert rrids[i := 0][..n] == rrids[..n][i := 0];
    } else {
      assert rrids[i := 0][..n] == rrids[..n];
    }
  }

  /** The record at `idx` becomes a fragment, and cur_size follows. */
  function Replace(k: Shrunk, idx: nat, f: Frag, size: int): (r: Shrunk)
    requires idx < |k.records| == |k.rrids|
    ensures |r.records| == |r.rrids| == |k.rrids|
  {
    Shrunk(k.records[idx := Fragment(f)], k.rrids[idx := 0], size)
  }

  /** The record at `idx` is replaced by an empty fragment. */
  function Reduce(cache: Cache, k: Shrunk, idx: nat): (r: Shrunk)
    requires idx < |k.records| == |k.rrids| && k.rrids[idx] in cache
    ensures |r.records| == |r.rrids| == |k.rrids|
  {
    var rr := cache[k.rrids[idx]];
    Replace(k, idx, EmptyFrag(rr, k.rrids[idx]), k.cur - |RecordToBytes(rr)| + RRFRAGHEADER)
  }

  /** The record at `idx` is cut to what fits. */
  function Cut(cache: Cache, limit: nat, k: Shrunk, idx: nat): (r: Shrunk)
    requires idx < |k.records| == |k.rrids| && k.rrids[idx] in cache
    ensures |r.records| == |r.rrids| == |k.rrids|
  {
    var rr := cache[k.rrids[idx]];
    var f := LastFrag(rr, k.rrids[idx], RoomFor(rr, k.cur, limit));
    Replace(k, idx, f, k.cur - |RecordToBytes(rr)| + |FragToBytes(f)|)
  }

  /** The shrinking loop. */
  function Shrink(cache: Cache, limit: nat, k: Shrunk): (r: Result<Shrunk>)
    requires |k.records| == |k.rrids| && Known(cache, k.rrids)
    ensures r.Ok? ==> |r.value.records| == |r.value.rrids| == |k.records|
    decreases Considered(k.rrids)
  {
    if k.cur <= limit then Ok(k)
    else
      match Largest(cache, k.rrids, |k.rrids|)
      case None => Err(Uninitialised)
      case Some(idx) =>
        if k.cur - RdSize(cache, k.rrids[idx]) >= limit then
          ConsideredLess(k.rrids, idx);
          Shrink(cache, limit, Reduce(cache, k, idx))
        else Ok(Cut(cache, limit, k, idx))
  }

  lemma {:induction false} ShrinkStep(cache: Cache, limit: nat, k: Shrunk, idx: nat)
    requires |k.records| == |k.rrids| && Known(cache, k.rrids) && k.cur > limit
    requires Largest(cache, k.rrids, |k.rrids|) == Some(idx)
    ensures Known(cache, Reduce(cache, k, idx).rrids)
    ensures Shrink(cache, limit, k)
            == if k.cur - RdSize(cache, k.rrids[idx]) >= limit then Shrink(cache, limit, Reduce(cache, k, idx))
               else Ok(Cut(cache, limit, k, idx))
  {
    hide RecordToBytes, FragToBytes, LastFrag, RoomFor, EmptyFrag, Cut;
  }

  lemma {:induction false} ReduceRrids(cache: Cache, k: Shrunk, idx: nat)
    requires idx < |k.records| == |k.rrids| && k.rrids[idx] in cache
    ensures Reduce(cache, k, idx).rrids == k.rrids[idx := 0]
  {
  }

  /** insert_into_state for every record of the message. */
  function InsertPacked(cache: Cache, hash: seq<byte> -> u16, ps: seq<PackedRR>): (r: Result<(Cache, seq<u16>)>)
    requires AllSized(ps)
    ensures r.Ok? ==> |r.value.1| == |ps| && forall i :: 0 <= i < |ps| ==> ps[i].Whole?
  {
    if ps == [] then Ok((cache, []))
    else
      var n := |ps| - 1;
      var before :- InsertPacked(cache, hash, ps[..n]);
      if ps[n].Fragment? then Err(OutOfBounds)  // read through the wrong member of a union
      else
        var last :- InsertRecord(before.0, hash, ps[n].rr);
        Ok((last.0, before.1 + [last.1]))
  }

  /** `ps` are the records `recs`, all of them whole. */
  ghost predicate Wholes(ps: seq<PackedRR>, recs: seq<Record>) {
    |ps| == |recs| && forall i :: 0 <= i < |ps| ==> ps[i] == Whole(recs[i])
  }

  lemma {:induction false} InsertPackedIs(cache: Cache, hash: seq<byte> -> u16, ps: seq<PackedRR>, recs: seq<Record>)
    requires AllSized(ps) && Wholes(ps, recs)
    ensures InsertPacked(cache, hash, ps) == InsertAll(cache, hash, recs)
  {
    hide InsertRecord;
    if ps != [] {
      InsertPackedIs(cache, hash, ps[..|ps| - 1], recs[..|ps| - 1]);
    }
  }

  /** The bytes of a section. */
  function Width(ps: seq<PackedRR>): nat
    requires AllSized(ps)
  {
    |SectionToBytes(ps)|
  }

  lemma {:induction false} InsertedAreKnown(cache: Cache, hash: seq<byte> -> u16, ps: seq<PackedRR>)
    requires AllSized(ps) && InsertPacked(cache, hash, ps).Ok?
    ensures var r := InsertPacked(cache, hash, ps).value; |r.1| == |ps| && Known(r.0, r.1)
  {
    hide InsertAll, InsertPacked, RecordToBytes;
    var recs: seq<Record> := seq(|ps|, i requires 0 <= i < |ps| && ps[i].Whole? && ps[i].Sized() => ps[i].rr);
    InsertPackedIs(cache, hash, ps, recs);
    InsertAllStable(cache, hash, recs);
    var r := InsertAll(cache, hash, recs).value;
    forall i | 0 <= i < |r.1| ensures r.1[i] in r.0 {
      assert Bound(r.0, r.1[i], recs[i]);
    }
  }

  /** The sections cut out of the list of records again. */
  function WithRecords(m: Message, ps: seq<PackedRR>): Message
    requires |ps| == |m.Records()|
  {
    var an, ns := |m.answers|, |m.authoritative|;
    m.(answers := ps[..an], authoritative := ps[an..an + ns], additional := ps[an + ns..])
  }

  /** The loop, on a message whose questions take `qLen` bytes. */
  function ShrinkMessage(cache: Cache, ids: seq<u16>, m: Message, qLen: nat, maxSize: u32): Result<Message>
    requires m.Sized() && |ids| == |m.Records()| && Known(cache, ids)
  {
    var k :- Shrink(cache, Limit(maxSize), Shrunk(m.Records(), ids, DNSMESSAGEHEADER + qLen + Width(m.Records())));
    Ok(WithRecords(m, k.records))
  }

  /** insert_into_state_and_construct_map */
  function ConstructMap(cache: Cache, hash: seq<byte> -> u16, m: Message, maxSize: u32): Result<(Cache, Message)>
    requires m.Sized()
  {
    var questions :- QuestionsToBytes(m.questions);
    var inserted :- InsertPacked(cache, hash, m.Records());
    InsertedAreKnown(cache, hash, m.Records());
    var shrunk :- ShrinkMessage(inserted.0, inserted.1, m, |questions|, maxSize);
    Ok((inserted.0, shrunk))
  }

  lemma {:induction false} ConstructMapIs(cache: Cache, hash: seq<byte> -> u16, m: Message, maxSize: u32)
    requires m.Sized() && AllSized(m.Records())
    ensures match QuestionsToBytes(m.questions)
      case Err(e) => ConstructMap(cache, hash, m, maxSize) == Err(e)
      case Ok(q) =>
        match InsertPacked(cache, hash, m.Records())
        case Err(e) => ConstructMap(cache, hash, m, maxSize) == Err(e)
        case Ok((c, ids)) =>
          && Known(c, ids)
          && ConstructMap(cache, hash, m, maxSize)
             == match ShrinkMessage(c, ids, m, |q|, maxSize)
                case Err(e) => Err(e)
                case Ok(m') => Ok((c, m'))
  {
    hide InsertPacked, QuestionsToBytes, ShrinkMessage, Known, AllSized;
    if InsertPacked(cache, hash, m.Records()).Ok? {
      InsertedAreKnown(cache, hash, m.Records());
    }
  }

  lemma {:induction false} ShrinkMessageIs(cache: Cache, ids: seq<u16>, m: Message, qLen: nat, maxSize: u32)
    requires m.Sized() && AllSized(m.Records()) && |ids| == |m.Records()| && Known(cache, ids)
    ensures ShrinkMessage(cache, ids, m, qLen, maxSize)
            == match Shrink(cache, Limit(maxSize),
                            Shrunk(m.Records(), ids, DNSMESSAGEHEADER + qLen + Width(m.Records())))
               case Err(e) => Err(e)
               case Ok(k) => Ok(WithRecords(m, k.records))
  {
    hide Shrink, Width, AllSized, Known, Limit;
  }

  // ----- Sizes

  lemma {:induction false} WidthMore(ps: seq<PackedRR>, qs: seq<PackedRR>)
    requires AllSized(ps) && AllSized(qs)
    ensures AllSized(ps + qs) && SectionToBytes(ps + qs) == SectionToBytes(ps) + SectionToBytes(qs)
  {
    hide PackedToBytes;
    if ps == [] {
      assert ps + qs == qs;
    } else {
      WidthMore(ps[1..], qs);
      assert (ps + qs)[0] == ps[0] && (ps + qs)[1..] == ps[1..] + qs;
      Assoc(PackedToBytes(ps[0]), SectionToBytes(ps[1..]), SectionToBytes(qs));
    }
  }

  lemma {:induction false} WidthUpdate(ps: seq<PackedRR>, i: nat, p: PackedRR)
    requires AllSized(ps) && i < |ps| && p.Sized()
    ensures AllSized(ps[i := p])
    ensures Width(ps[i := p]) + |PackedToBytes(ps[i])| == Width(ps) + |PackedToBytes(p)|
  {
    hide PackedToBytes;
    if i == 0 {
      assert ps[i := p][1..] == ps[1..];
    } else {
      WidthUpdate(ps[1..], i - 1, p);
      assert ps[i := p][1..] == ps[1..][i - 1 := p];
    }
  }

  lemma {:induction false} WidthAt(ps: seq<PackedRR>, i: nat)
    requires AllSized(ps) && i < |ps|
    ensures |PackedToBytes(ps[i])| <= Width(ps)
  {
    hide PackedToBytes;
    if i > 0 {
      WidthAt(ps[1..], i - 1);
    }
  }
}
