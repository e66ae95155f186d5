/**
 The responder's side of daemon.c: the cache of records it has sent, and the
 answers to follow-up requests, which are slices of cached records.
 */
module Responder {
  import opened Wire
  import opened Records
  import opened Messages
  import opened Requester

  /** rdsize is a 16-bit number. */
  type Record = rr: ResourceRecord | rr.Sized() witness ResourceRecord([], [], 0, 0, 0, [])

  /** responder_cache */
  type Cache = map<u16, Record>

  // ----- Answering a follow-up request

  /** get_rrfrags */
  function FragsOf(ps: seq<PackedRR>): (fs: seq<Frag>)
    ensures |fs| <= |ps|
  {
    if ps == [] then []
    else (if ps[0].Fragment? then [ps[0].frag] else []) + FragsOf(ps[1..])
  }

  lemma {:induction false} FragsOfMore(ps: seq<PackedRR>, qs: seq<PackedRR>)
    ensures FragsOf(ps + qs) == FragsOf(ps) + FragsOf(qs)
  {
    if ps == [] {
      assert ps + qs == qs;
    } else {
      FragsOfMore(ps[1..], qs);
      assert (ps + qs)[0] == ps[0] && (ps + qs)[1..] == ps[1..] + qs;
      Assoc(if ps[0].Fragment? then [ps[0].frag] else [], FragsOf(ps[1..]), FragsOf(qs));
    }
  }

  lemma {:induction false} FragsOfRecords(fs: seq<Frag>)
    ensures FragsOf(AsRecords(fs)) == fs
  {
    if fs != [] {
      FragsOfRecords(fs[1..]);
      assert AsRecords(fs)[1..] == AsRecords(fs[1..]);
    }
  }

  /** The two loops of get_rrfrags: count, then collect. */
  method GetRRFrags(section: seq<PackedRR>) returns (fs: seq<Frag>)
    requires |section| < 0x1_0000
    ensures fs == FragsOf(section)
  {
    var count: u16 := 0;
    for i := 0 to |section|
      invariant count == |FragsOf(section[..i])|
    {
      assert section[..i + 1] == section[..i] + [section[i]];
      FragsOfMore(section[..i], [section[i]]);
      if section[i].Fragment? {
        count := count + 1;
      }
    }
    assert section[..|section|] == section;
    var out := new Frag[count](_ => Frag(0, 0, 0, 0, None));
    var n: u16 := 0;
    for i := 0 to |section|
      invariant n == |FragsOf(section[..i])| && n <= out.Length
      invariant out.Length == |FragsOf(section)|
      invariant out[..n] == FragsOf(section[..i])
    {
      assert section[..i + 1] == section[..i] + [section[i]];
      FragsOfMore(section[..i], [section[i]]);
      assert section == section[..i + 1] + section[i + 1..];
      FragsOfMore(section[..i + 1], section[i + 1..]);
      if section[i].Fragment? {
        out[n] := section[i].frag;
        n := n + 1;
      }
    }
    assert section[..|section|] == section;
    return out[..n];
  }

  /** The fragment that answers `f`. Its data starts at curidx of the encoded
      record, wherever that is. */
  function Slice(cache: Cache, f: Frag): (r: Result<Frag>)
    ensures r.Ok? ==> r.value.Sized()
  {
    if f.rrid !in cache then Err(UnknownRecord)
    else
      var bytes := RecordToBytes(cache[f.rrid]);
      if f.curidx + f.fragsize > |bytes| then Err(OutOfBounds)
      else Ok(f.(data := Some(bytes[f.curidx..f.curidx + f.fragsize])))
  }

  function AnswerSlices(cache: Cache, fs: seq<Frag>): (r: Result<seq<Frag>>)
    ensures r.Ok? ==> |r.value| == |fs| && forall i :: 0 <= i < |fs| ==> r.value[i].Sized()
  {
    if fs == [] then Ok([])
    else
      var first :- Slice(cache, fs[0]);
      var more :- AnswerSlices(cache, fs[1..]);
      Ok([first] + more)
  }

  /** The part of process_dns_message that answers a query with fragments. */
  function Answer(cache: Cache, m: Message): (r: Result<Message>) {
    var fs :- AnswerSlices(cache, FragsOf(m.additional));
    Ok(Message(m.identification, MarkResponse(m.flags), [], AsRecords(fs), [], []))
  }

  lemma {:induction false} SlicesAt(cache: Cache, fs: seq<Frag>, gs: seq<Frag>)
    requires |gs| == |fs| && forall i :: 0 <= i < |fs| ==> Slice(cache, fs[i]) == Ok(gs[i])
    ensures AnswerSlices(cache, fs) == Ok(gs)
  {
    if fs != [] {
      SlicesAt(cache, fs[1..], gs[1..]);
      assert gs == [gs[0]] + gs[1..];
    }
  }

  /** The fragment asks for bytes of a record that the cache has. */
  predicate Answerable(cache: Cache, f: Frag) {
    f.rrid in cache && f.curidx + f.fragsize <= |RecordToBytes(cache[f.rrid])|
  }

  /** A request is answered exactly when each of its fragments asks for bytes that are
      there, and with those bytes. */
  lemma {:induction false} AnsweredExactly(cache: Cache, fs: seq<Frag>)
    ensures AnswerSlices(cache, fs).Ok? <==> forall a :: 0 <= a < |fs| ==> Answerable(cache, fs[a])
    ensures AnswerSlices(cache, fs).Ok? ==>
      forall a :: 0 <= a < |fs| ==>
        && Answerable(cache, fs[a])
        && AnswerSlices(cache, fs).value[a]
           == fs[a].(data := Some(RecordToBytes(cache[fs[a].rrid])[fs[a].curidx..fs[a].curidx + fs[a].fragsize]))
  {
    hide RecordToBytes;
    if fs != [] {
      AnsweredExactly(cache, fs[1..]);
      assert Answerable(cache, fs[0]) <==> Slice(cache, fs[0]).Ok?;
    }
  }

  /** The first failing slice decides. */
  lemma {:induction false} SlicesStep(cache: Cache, fs: seq<Frag>, i: nat)
    requires i < |fs| && AnswerSlices(cache, fs[..i]).Ok?
    ensures var done := AnswerSlices(cache, fs[..i]).value;
      match Slice(cache, fs[i])
      case Err(e) => AnswerSlices(cache, fs) == Err(e)
      case Ok(g) => AnswerSlices(cache, fs[..i + 1]) == Ok(done + [g])
  {
    if i > 0 {
      assert fs[1..][..i - 1] == fs[..i][1..] && fs[1..][..i] == fs[..i + 1][1..];
      SlicesStep(cache, fs[1..], i - 1);
      if Slice(cache, fs[i]).Ok? {
        Assoc([Slice(cache, fs[0]).value], AnswerSlices(cache, fs[..i][1..]).value, [Slice(cache, fs[i]).value]);
      }
    } else {
      assert fs[..1] == [fs[0]] && fs[..1][1..] == [];
      if Slice(cache, fs[0]).Ok? {
        var g := Slice(cache, fs[0]).value;
        assert [] + [g] == [g] + [];
      }
    }
  }

  method AnswerFrags(cache: Cache, m: Message) returns (r: Result<Message>)
    requires |m.additional| < 0x1_0000
    ensures r == Answer(cache, m)
  {
    hide RecordToBytes, FragsOf, MarkResponse;
    var rrfrags := GetRRFrags(m.additional);
    var toSend: seq<Frag> := [];
    assert rrfrags[..0] == [] && AnswerSlices(cache, []) == Ok([]);
    for i := 0 to |rrfrags|
      invariant AnswerSlices(cache, rrfrags[..i]) == Ok(toSend)
    {
      SlicesStep(cache, rrfrags, i);
      var rrf := rrfrags[i];
      if rrf.rrid !in cache {
        return Err(UnknownRecord);
      }
      var rrbytes := ResourceRecordToBytes(cache[rrf.rrid]);
      if rrf.curidx + rrf.fragsize > |rrbytes| {
        return Err(OutOfBounds);
      }
      toSend := toSend + [Frag(rrf.fragsize, rrf.curidx, rrf.rrsize, rrf.rrid,
                               Some(rrbytes[rrf.curidx..rrf.curidx + rrf.fragsize]))];
    }
    assert rrfrags[..|rrfrags|] == rrfrags;
    return Ok(Message(m.identification, MarkResponse(m.flags), [], AsRecords(toSend), [], []));
  }

  // ----- Giving records their ids

  /** is_resource_record_equal: everything but the printed name. */
  predicate SameRecord(a: ResourceRecord, b: ResourceRecord) {
    a == b.(name := a.name)
  }

  /** Records are the same exactly when their encodings are and their names take the
      same part of them. */
  lemma {:induction false} SameRecordExactly(a: ResourceRecord, b: ResourceRecord)
    requires a.Sized() && b.Sized()
    ensures SameRecord(a, b) <==> RecordToBytes(a) == RecordToBytes(b) && |a.nameBytes| == |b.nameBytes|
  {
    hide FieldBytes;
    if RecordToBytes(a) == RecordToBytes(b) && |a.nameBytes| == |b.nameBytes| {
      var s, n := RecordToBytes(a), |a.nameBytes|;
      assert s[..n] == a.nameBytes && s[..n] == b.nameBytes;
      assert s[n..] == FieldBytes(a) && s[n..] == FieldBytes(b);
      assert At(s, n, FieldBytes(a)) && At(s, n, FieldBytes(b));
      FieldsAt(s, n, a);
      FieldsAt(s, n, b);
    }
    if SameRecord(a, b) {
      SameRecordBytes(a, b);
    }
  }

  lemma {:induction false} SameRecordBytes(a: ResourceRecord, b: ResourceRecord)
    requires a.Sized() && SameRecord(a, b)
    ensures b.Sized() && RecordToBytes(a) == RecordToBytes(b)
  {
  }

  function Succ(id: u16): u16 { (id + 1) % 0x1_0000 }

  /** The first unused id from `id` on, after `tries` ids in use; hash++ wraps
      at 16 bits. */
  function FirstUnused(cache: Cache, id: u16, tries: nat := 0): (r: Option<u16>)
    requires tries <= 0x1_0000
    ensures r.Some? ==> r.value !in cache
    decreases 0x1_0000 - tries
  {
    if tries == 0x1_0000 then None  // every id is in use: for ever
    else if id !in cache then Some(id)
    else FirstUnused(cache, Succ(id), tries + 1)
  }

  /** insert_into_state: the cache afterwards and the record's id. */
  function InsertRecord(cache: Cache, hash: seq<byte> -> u16, rr: Record): (r: Result<(Cache, u16)>) {
    var h := hash(RecordToBytes(rr));
    if h !in cache then Ok((cache[h := rr], h))
    else if SameRecord(rr, cache[h]) then Ok((cache, h))
    else
      match FirstUnused(cache, Succ(h))
      case None => Err(NeverTerminates)
      case Some(id) => Ok((cache[id := rr], id))
  }

  /** The probing finds an unused id exactly when there is one. */
  lemma {:induction false} ProbingTerminates(cache: Cache, id: u16)
    ensures FirstUnused(cache, id).Some? <==> exists k: u16 :: k !in cache
  {
    if k: u16 :| k !in cache {
      ProbeReaches(cache, id, 0, k);
    }
  }

  /** Steps from id to k around the circle. */
  function Steps(id: u16, k: u16): nat { if id <= k then k - id else k + 0x1_0000 - id }

  lemma {:induction false} ProbeReaches(cache: Cache, id: u16, tries: nat, k: u16)
    requires k !in cache && tries + Steps(id, k) < 0x1_0000
    ensures FirstUnused(cache, id, tries).Some?
    decreases Steps(id, k)
  {
    if id in cache {
      ProbeReaches(cache, Succ(id), tries + 1, k);
    }
  }

  /** `cache'` binds every id as `cache` does, and perhaps more. */
  ghost predicate Keeps(cache: Cache, cache': Cache) {
    forall k :: k in cache ==> k in cache' && cache'[k] == cache[k]
  }

  /** The id holds the record's bytes. */
  ghost predicate Bound(cache: Cache, id: u16, rr: Record) {
    id in cache && SameRecord(rr, cache[id])
  }

  /**
   An inserted record is found under its id, no id is ever bound anew, and an id
   that was in use is given out again only for the same record. The insertion
   fails exactly when the record's own place is taken by another record and all
   ids are in use.
   */
  lemma {:induction false} InsertIsStable(cache: Cache, hash: seq<byte> -> u16, rr: Record)
    ensures var r, h := InsertRecord(cache, hash, rr), hash(RecordToBytes(rr));
      && (r.Ok? ==> Bound(r.value.0, r.value.1, rr) && Keeps(cache, r.value.0))
      && (r.Ok? ==> (r.value.1 in cache <==> Bound(cache, h, rr)))
      && (r.Ok? <==> Bound(cache, h, rr) || exists k: u16 :: k !in cache)
  {
    ProbingTerminates(cache, Succ(hash(RecordToBytes(rr))));
  }

  /** Every id on the way from `from` to `id` around the circle is in use. */
  ghost predicate Taken(cache: Cache, from: u16, id: u16) {
    forall k: u16 :: Steps(from, k) < Steps(from, id) ==> k in cache
  }

  lemma {:induction false} FirstUnusedIs(cache: Cache, start: u16, id: u16, tries: nat)
    requires tries == Steps(start, id) < 0x1_0000 && Taken(cache, start, id)
    requires FirstUnused(cache, id, tries).Some?
    ensures Taken(cache, start, FirstUnused(cache, id, tries).value)
    decreases 0x1_0000 - tries
  {
    if id in cache {
      assert forall k: u16 :: Steps(start, k) == tries ==> k == id;
      if tries + 1 == 0x1_0000 {
        assert false;
      } else {
        assert Steps(start, Succ(id)) == tries + 1;
        FirstUnusedIs(cache, start, Succ(id), tries + 1);
      }
    }
  }

  /**
   Which id a record gets. A free place of its own, given by the hash, is the one
   it takes; a record that is there already keeps its place and changes nothing; and
   when another record has the place, it takes the first unused id behind it, with
   wrap-around, and fails if there is none.
   */
  lemma {:induction false} InsertGives(cache: Cache, hash: seq<byte> -> u16, rr: Record)
    ensures var r, h := InsertRecord(cache, hash, rr), hash(RecordToBytes(rr));
      && (h !in cache ==> r == Ok((cache[h := rr], h)))
      && (Bound(cache, h, rr) ==> r == Ok((cache, h)))
      && (h in cache && !Bound(cache, h, rr) ==>
            if r.Err? then forall k: u16 :: k in cache
            else
              var id := r.value.1;
              id !in cache && r.value.0 == cache[id := rr] && Taken(cache, h, id))
  {
    hide RecordToBytes, SameRecord;
    var h := hash(RecordToBytes(rr));
    ProbingTerminates(cache, Succ(h));
    if h in cache && FirstUnused(cache, Succ(h)).Some? {
      FirstUnusedIs(cache, Succ(h), Succ(h), 0);
      TakenFromHome(cache, h, FirstUnused(cache, Succ(h)).value);
    }
  }

  lemma {:induction false} TakenFromHome(cache: Cache, h: u16, id: u16)
    requires h in cache && id !in cache && Taken(cache, Succ(h), id)
    ensures Taken(cache, h, id)
  {
    forall k: u16 | Steps(h, k) < Steps(h, id) ensures k in cache {
      if k != h {
        assert Steps(h, k) == Steps(Succ(h), k) + 1 && Steps(h, id) == Steps(Succ(h), id) + 1;
      }
    }
  }

  /** Inserting a record again changes nothing and gives the same id if and only if
      it went in at its own place. */
  lemma {:induction false} InsertAgain(cache: Cache, hash: seq<byte> -> u16, rr: Record)
    requires InsertRecord(cache, hash, rr).Ok?
    ensures var (after, id) := InsertRecord(cache, hash, rr).value;
      InsertRecord(after, hash, rr) == Ok((after, id)) <==> id == hash(RecordToBytes(rr))
  {
    hide RecordToBytes;
    InsertGives(cache, hash, rr);
    InsertGives(InsertRecord(cache, hash, rr).value.0, hash, rr);
  }

  /** The cache as daemon.c keeps it, behind its lock. */
  class ResponderCache {
    var entries: Cache

    constructor ()
      ensures entries == map[]
    {
      entries := map[];
    }

    /** insert_into_state; `hash` stands for hash_16bit. */
    method InsertIntoState(rr: Record, hash: seq<byte> -> u16) returns (r: Result<u16>)
      modifies this
      ensures match InsertRecord(old(entries), hash, rr)
              case Ok((after, id)) => entries == after && r == Ok(id)
              case Err(e) => entries == old(entries) && r == Err(e)
    {
      var rrout := ResourceRecordToBytes(rr);
      var id := hash(rrout);
      if id !in entries {
        entries := entries[id := rr];
        return Ok(id);
      }
      if SameRecord(rr, entries[id]) {
        return Ok(id);
      }
      id := Succ(id);
      var tries := 0;
      while id in entries && tries < 0x1_0000
        invariant 0 <= tries <= 0x1_0000 && entries == old(entries)
        invariant FirstUnused(entries, Succ(hash(rrout))) == FirstUnused(entries, id, tries)
        decreases 0x1_0000 - tries
      {
        id, tries := Succ(id), tries + 1;
      }
      if tries == 0x1_0000 {
        return Err(NeverTerminates);
      }
      entries := entries[id := rr];
      return Ok(id);
    }
  }

  // ----- All records of a message

  function InsertAll(cache: Cache, hash: seq<byte> -> u16, rrs: seq<Record>): (r: Result<(Cache, seq<u16>)>)
    ensures r.Ok? ==> |r.value.1| == |rrs|
  {
    if rrs == [] then Ok((cache, []))
    else
      var before :- InsertAll(cache, hash, rrs[..|rrs| - 1]);
      var last :- InsertRecord(before.0, hash, rrs[|rrs| - 1]);
      Ok((last.0, before.1 + [last.1]))
  }

  /** Two records of a message share an id only if they are the same on the wire,
      and each is found under its id when all are in. */
  lemma {:induction false} InsertAllStable(cache: Cache, hash: seq<byte> -> u16, rrs: seq<Record>)
    ensures var r := InsertAll(cache, hash, rrs);
      r.Ok? ==>
        && Keeps(cache, r.value.0)
        && (forall i :: 0 <= i < |rrs| ==> Bound(r.value.0, r.value.1[i], rrs[i]))
        && (forall i, j :: 0 <= i < |rrs| && 0 <= j < |rrs| && r.value.1[i] == r.value.1[j]
                           ==> RecordToBytes(rrs[i]) == RecordToBytes(rrs[j]))
  {
    hide RecordToBytes, InsertRecord;
    if rrs != [] && InsertAll(cache, hash, rrs).Ok? {
      var init, n := rrs[..|rrs| - 1], |rrs| - 1;
      InsertAllStable(cache, hash, init);
      var before := InsertAll(cache, hash, init).value;
      InsertIsStable(before.0, hash, rrs[n]);
      var after, ids := InsertAll(cache, hash, rrs).value.0, InsertAll(cache, hash, rrs).value.1;
      assert forall i :: 0 <= i < n ==> ids[i] == before.1[i] && rrs[i] == init[i];
      forall i | 0 <= i < |rrs| ensures Bound(after, ids[i], rrs[i]) {
        if i < n {
          assert Bound(before.0, ids[i], init[i]);
        }
      }
      BoundAlike(after, rrs, ids);
    }
  }

  function Home(hash: seq<byte> -> u16, rr: Record): u16 { hash(RecordToBytes(rr)) }

  /** The places that the hash gives the records. */
  function Homes(hash: seq<byte> -> u16, rrs: seq<Record>): (ids: seq<u16>)
    ensures |ids| == |rrs| && forall i :: 0 <= i < |rrs| ==> ids[i] == hash(RecordToBytes(rrs[i]))
  {
    seq(|rrs|, i requires 0 <= i < |rrs| => Home(hash, rrs[i]))
  }

  /** First come, first served: a free place of its own goes to the first record of a
      message, whatever follows it. */
  lemma {:induction false} FirstAtHome(cache: Cache, hash: seq<byte> -> u16, rrs: seq<Record>)
    requires rrs != [] && Home(hash, rrs[0]) !in cache && InsertAll(cache, hash, rrs).Ok?
    ensures var (after, ids) := InsertAll(cache, hash, rrs).value;
      ids[0] == Home(hash, rrs[0]) && ids[0] in after && after[ids[0]] == rrs[0]
  {
    hide RecordToBytes, InsertRecord;
    var n := |rrs| - 1;
    InsertAllStep(cache, hash, rrs);
    var before := InsertAll(cache, hash, rrs[..n]).value;
    InsertIsStable(before.0, hash, rrs[n]);
    if n > 0 {
      FirstAtHome(cache, hash, rrs[..n]);
    } else {
      InsertGives(cache, hash, rrs[0]);
    }
  }

  lemma {:induction false} InsertAllStep(cache: Cache, hash: seq<byte> -> u16, rrs: seq<Record>)
    requires rrs != [] && InsertAll(cache, hash, rrs).Ok?
    ensures var n := |rrs| - 1;
      && InsertAll(cache, hash, rrs[..n]).Ok?
      && var (before, ids) := InsertAll(cache, hash, rrs[..n]).value;
      && InsertRecord(before, hash, rrs[n]).Ok?
      && var (after, id) := InsertRecord(before, hash, rrs[n]).value;
      && InsertAll(cache, hash, rrs).value == (after, ids + [id])
      && (n == 0 ==> before == cache)
  {
    hide InsertRecord;
  }

  /** Records that are all at their own places go in without any change. */
  lemma {:induction false} AllAtHome(cache: Cache, hash: seq<byte> -> u16, rrs: seq<Record>)
    requires forall i :: 0 <= i < |rrs| ==> Bound(cache, hash(RecordToBytes(rrs[i])), rrs[i])
    ensures InsertAll(cache, hash, rrs) == Ok((cache, Homes(hash, rrs)))
  {
    hide RecordToBytes, InsertRecord;
    if rrs == [] {
      assert Homes(hash, rrs) == [];
    } else {
      var n := |rrs| - 1;
      AllAtHome(cache, hash, rrs[..n]);
      InsertGives(cache, hash, rrs[n]);
      assert Homes(hash, rrs) == Homes(hash, rrs[..n]) + [hash(RecordToBytes(rrs[n]))];
    }
  }

  /** A message whose records got their own places finds them there again: the same
      ids, and the cache as it was. */
  lemma {:induction false} InsertAllAgain(cache: Cache, hash: seq<byte> -> u16, rrs: seq<Record>)
    requires InsertAll(cache, hash, rrs).Ok? && InsertAll(cache, hash, rrs).value.1 == Homes(hash, rrs)
    ensures var (after, ids) := InsertAll(cache, hash, rrs).value;
      InsertAll(after, hash, rrs) == Ok((after, ids))
  {
    hide RecordToBytes, InsertAll, Bound;
    InsertAllStable(cache, hash, rrs);
    AllAtHome(InsertAll(cache, hash, rrs).value.0, hash, rrs);
  }

  lemma {:induction false} BoundAlike(cache: Cache, rrs: seq<Record>, ids: seq<u16>)
    requires |ids| == |rrs| && forall i :: 0 <= i < |rrs| ==> Bound(cache, ids[i], rrs[i])
    ensures forall i, j :: 0 <= i < |rrs| && 0 <= j < |rrs| && ids[i] == ids[j]
                           ==> RecordToBytes(rrs[i]) == RecordToBytes(rrs[j])
  {
  }
}
