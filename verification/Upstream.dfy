/**
 From the upstream server's answer to the requester's: the first reply that
 insert_into_state_and_construct_map makes, its size, and the runs it starts.
 */
module Upstream {
  import opened Wire
  import opened Records
  import opened Messages
  import opened Reassembly
  import opened Requester
  import opened Responder
  import opened Shrinking
  import opened Stopping
  import opened Delivery
  import opened Session
  import opened EndToEnd
  import opened Failures
  import opened Tallies

  // ----- The size of a message

  lemma {:induction false} MessageSize(m: Message)
    requires m.Sized() && QuestionsToBytes(m.questions).Ok?
    ensures AllSized(m.Records()) && MessageToBytes(m).Ok?
    ensures |MessageToBytes(m).value| == DNSMESSAGEHEADER + |QuestionsToBytes(m.questions).value| + Width(m.Records())
  {
    hide SectionToBytes, QuestionsToBytes, AllSized, HeaderBytes;
    WidthMore(m.answers, m.authoritative);
    WidthMore(m.answers + m.authoritative, m.additional);
  }

  /** The upstream message: whole records, each with a name, on a size that an
      int can hold. */
  ghost predicate FromUpstream(m: Message, q: seq<byte>, recs: seq<Record>) {
    && m.Sized() && QuestionsToBytes(m.questions) == Ok(q) && Wholes(m.Records(), recs)
    && (forall i :: 0 <= i < |recs| ==> recs[i].nameBytes != [])
    && DNSMESSAGEHEADER + |q| + Width(m.Records()) + 5 * |recs| < 0x7fff_0000
  }

  lemma {:induction false} ConsideredBound(rrids: seq<u16>)
    ensures Considered(rrids) <= |rrids|
  {
    if rrids != [] {
      ConsideredBound(rrids[..|rrids| - 1]);
    }
  }

  /** The loop starts with every record whole and cur_size exact. */
  lemma {:induction false} StartsTracked(cache: Cache, hash: seq<byte> -> u16, m: Message, q: seq<byte>,
                                         recs: seq<Record>, limit: nat)
    requires FromUpstream(m, q, recs) && InsertAll(cache, hash, recs).Ok?
    ensures AllSized(m.Records())
    ensures var (cache', ids) := InsertAll(cache, hash, recs).value;
      var k := Shrunk(m.Records(), ids, DNSMESSAGEHEADER + |q| + Width(m.Records()));
      && Tracked(cache', DNSMESSAGEHEADER + |q|, k, recs, ids) && InRange(k)
      && Descending(DNSMESSAGEHEADER + |q|, limit, k, recs, ids)
  {
    hide InsertAll, Width, Bound, RecordToBytes;
    InsertAllStable(cache, hash, recs);
    var (cache', ids) := InsertAll(cache, hash, recs).value;
    ConsideredBound(ids);
    var k := Shrunk(m.Records(), ids, DNSMESSAGEHEADER + |q| + Width(m.Records()));
    forall i | 0 <= i < |recs| ensures Untouched(cache', k, recs, ids, i) {
    }
  }

  /** `m'` is `m` with its records replaced by those of `k`. */
  ghost predicate Shrank(cache: Cache, m: Message, m': Message, q: seq<byte>, recs: seq<Record>, ids: seq<u16>,
                         limit: nat, last: Option<nat>)
    requires |recs| == |ids|
  {
    && m.Sized() && m'.Sized() && |m'.Records()| == |recs|
    && m' == m.(answers := m'.answers, authoritative := m'.authoritative, additional := m'.additional)
    && |m'.answers| == |m.answers| && |m'.authoritative| == |m.authoritative| && |m'.additional| == |m.additional|
    && exists k: Shrunk ::
         k.records == m'.Records() && Outcome(cache, DNSMESSAGEHEADER + |q|, limit, k, recs, ids, last)
  }

  lemma {:induction false} RecordsAreWith(m: Message, ps: seq<PackedRR>)
    requires m.Sized() && |ps| == |m.Records()| && AllSized(ps)
    ensures WithRecords(m, ps).Sized() && WithRecords(m, ps).Records() == ps
  {
    var an, ns := |m.answers|, |m.authoritative|;
    assert ps == ps[..an] + ps[an..an + ns] + ps[an + ns..];
  }

  /** The outcome of shrinking: a message that fits with nine bytes to spare, or
      failure, for which sizes that meet `Fails` are to blame. */
  ghost predicate Fits(cache: Cache, r: Result<Message>, m: Message, q: seq<byte>, recs: seq<Record>, ids: seq<u16>,
                       maxSize: u32, last: Option<nat>)
    requires |recs| == |ids| && DNSMESSAGEHEADER <= maxSize
  {
    match r
    case Ok(m') =>
      && Shrank(cache, m, m', q, recs, ids, maxSize - DNSMESSAGEHEADER, last)
      && MessageToBytes(m').Ok? && |MessageToBytes(m').value| <= maxSize - 9
      && !Fails(DNSMESSAGEHEADER + |q|, maxSize - DNSMESSAGEHEADER, recs, ids)
    case Err(e) => e == Uninitialised && Fails(DNSMESSAGEHEADER + |q|, maxSize - DNSMESSAGEHEADER, recs, ids)
  }

  lemma {:induction false} ShrunkFits(cache: Cache, m: Message, q: seq<byte>, recs: seq<Record>, ids: seq<u16>,
                                      maxSize: u32)
    returns (last: Option<nat>)
    requires FromUpstream(m, q, recs) && DNSMESSAGEHEADER <= maxSize && AllSized(m.Records()) && |recs| == |ids|
    requires var k := Shrunk(m.Records(), ids, DNSMESSAGEHEADER + |q| + Width(m.Records()));
      && Tracked(cache, DNSMESSAGEHEADER + |q|, k, recs, ids) && InRange(k)
      && Descending(DNSMESSAGEHEADER + |q|, maxSize - DNSMESSAGEHEADER, k, recs, ids)
    ensures |ids| == |m.Records()| && Known(cache, ids)
    ensures Fits(cache, ShrinkMessage(cache, ids, m, |q|, maxSize), m, q, recs, ids, maxSize, last)
  {
    hide Outcome, Tracked, Descending, Width, InRange, Fails, Shrink, Known, FromUpstream, AllSized, ShrinkMessage,
         Fits, WithRecords, SectionToBytes, RecordToBytes, Considered;
    UpstreamNames(m, q, recs);
    var base, limit := DNSMESSAGEHEADER + |q|, maxSize - DNSMESSAGEHEADER;
    var k := Shrunk(m.Records(), ids, base + Width(m.Records()));
    last := ShrinkOutcome(cache, base, limit, k, recs, ids);
    var r := Shrink(cache, limit, k);
    ShrinkMessageIs(cache, ids, m, |q|, maxSize);
    if r.Ok? {
      OutcomeFits(cache, m, q, recs, ids, maxSize, r.value, last);
    } else {
      FailureFits(cache, m, q, recs, ids, maxSize, last);
    }
  }

  lemma {:induction false} UpstreamNames(m: Message, q: seq<byte>, recs: seq<Record>)
    requires FromUpstream(m, q, recs)
    ensures m.Sized() && forall i :: 0 <= i < |recs| ==> recs[i].nameBytes != []
    ensures |m.Records()| == |recs|
  {
  }

  lemma {:induction false} FailureFits(cache: Cache, m: Message, q: seq<byte>, recs: seq<Record>, ids: seq<u16>,
                                     maxSize: u32, last: Option<nat>)
    requires DNSMESSAGEHEADER <= maxSize && |recs| == |ids|
    requires Fails(DNSMESSAGEHEADER + |q|, maxSize - DNSMESSAGEHEADER, recs, ids)
    ensures Fits(cache, Err(Uninitialised), m, q, recs, ids, maxSize, last)
  {
  }

  lemma {:induction false} OutcomeFits(cache: Cache, m: Message, q: seq<byte>, recs: seq<Record>, ids: seq<u16>,
                                       maxSize: u32, k: Shrunk, last: Option<nat>)
    requires FromUpstream(m, q, recs) && DNSMESSAGEHEADER <= maxSize && |recs| == |ids| == |m.Records()|
    requires Outcome(cache, DNSMESSAGEHEADER + |q|, maxSize - DNSMESSAGEHEADER, k, recs, ids, last)
    ensures |k.records| == |m.Records()|
    ensures Fits(cache, Ok(WithRecords(m, k.records)), m, q, recs, ids, maxSize, last)
  {
    hide QuestionsToBytes, Fails, CutHere, MessageToBytes, Untouched, CutAt, Width;
    RecordsAreWith(m, k.records);
    MessageSize(WithRecords(m, k.records));
  }

  lemma {:induction false} ConstructIs(cache: Cache, hash: seq<byte> -> u16, m: Message, q: seq<byte>,
                                       recs: seq<Record>, maxSize: u32)
    requires FromUpstream(m, q, recs)
    ensures match InsertAll(cache, hash, recs)
      case Err(e) => ConstructMap(cache, hash, m, maxSize) == Err(e)
      case Ok((c, ids)) =>
        && |ids| == |m.Records()| == |recs| && Known(c, ids)
        && ConstructMap(cache, hash, m, maxSize)
           == match ShrinkMessage(c, ids, m, |q|, maxSize)
              case Err(e) => Err(e)
              case Ok(m') => Ok((c, m'))
  {
    hide InsertAll, InsertPacked, QuestionsToBytes, ShrinkMessage, Known, ConstructMap, Width;
    InsertPackedIs(cache, hash, m.Records(), recs);
    ConstructMapIs(cache, hash, m, maxSize);
  }

  /**
   The first reply: cur_size is its size on the wire all along, so it fits the
   UDP limit with nine bytes to spare, and all its fragments but one are empty.
   Construction fails exactly when the cache is full or the sizes of the message
   meet `Fails`; for names of five bytes or more that says that the message is too
   large even with every record reduced to an empty fragment (FloorDecides).
   */
  lemma {:induction false} FirstReplyFits(cache: Cache, hash: seq<byte> -> u16, m: Message, q: seq<byte>,
                                          recs: seq<Record>, maxSize: u32)
    returns (last: Option<nat>)
    requires FromUpstream(m, q, recs) && DNSMESSAGEHEADER <= maxSize
    ensures match InsertAll(cache, hash, recs)
      case Err(e) => ConstructMap(cache, hash, m, maxSize) == Err(e)
      case Ok((c, ids)) =>
        var r := ConstructMap(cache, hash, m, maxSize);
        && (r.Ok? ==> r.value.0 == c)
        && Fits(c, if r.Ok? then Ok(r.value.1) else Err(r.error), m, q, recs, ids, maxSize, last)
  {
    last := None;
    hide InsertAll, Tracked, Descending, Width, InRange, Fits, FromUpstream, ShrinkMessage, ConstructMap, Known;
    ConstructIs(cache, hash, m, q, recs, maxSize);
    if InsertAll(cache, hash, recs).Ok? {
      var (c, ids) := InsertAll(cache, hash, recs).value;
      StartsTracked(cache, hash, m, q, recs, maxSize - DNSMESSAGEHEADER);
      last := ShrunkFits(c, m, q, recs, ids, maxSize);
    }
  }

  /** The first reply cannot be made if and only if the cache is full or the sizes
      meet `Fails`, which for names of five bytes or more is a comparison of the
      floor with the limit. */
  lemma {:induction false} FirstReplyFailsExactly(cache: Cache, hash: seq<byte> -> u16, m: Message, q: seq<byte>,
                                                  recs: seq<Record>, maxSize: u32)
    requires FromUpstream(m, q, recs) && DNSMESSAGEHEADER <= maxSize
    ensures ConstructMap(cache, hash, m, maxSize).Err? <==>
            match InsertAll(cache, hash, recs)
            case Err(_) => true
            case Ok((_, ids)) => Fails(DNSMESSAGEHEADER + |q|, maxSize - DNSMESSAGEHEADER, recs, ids)
    ensures InsertAll(cache, hash, recs).Ok? && (forall i :: 0 <= i < |recs| ==> |recs[i].nameBytes| >= 5) ==>
      (ConstructMap(cache, hash, m, maxSize).Err? <==>
       DNSMESSAGEHEADER + |q| + FloorWidth(recs, InsertAll(cache, hash, recs).value.1) > maxSize - DNSMESSAGEHEADER)
  {
    hide InsertAll, ConstructMap, Fails, FloorWidth, Shrank, MessageToBytes, QuestionsToBytes, Width;
    var last := FirstReplyFits(cache, hash, m, q, recs, maxSize);
    if InsertAll(cache, hash, recs).Ok? && forall i :: 0 <= i < |recs| ==> |recs[i].nameBytes| >= 5 {
      FloorDecides(DNSMESSAGEHEADER + |q|, maxSize - DNSMESSAGEHEADER, recs, InsertAll(cache, hash, recs).value.1);
    }
  }

  /** Below twelve bytes the unsigned subtraction wraps round, and the message
      goes out as it is. */
  lemma {:induction false} TinyLimitNeverShrinks(cache: Cache, hash: seq<byte> -> u16, m: Message, q: seq<byte>,
                                                 recs: seq<Record>, maxSize: u32)
    requires FromUpstream(m, q, recs) && maxSize < DNSMESSAGEHEADER
    ensures match InsertAll(cache, hash, recs)
      case Err(e) => ConstructMap(cache, hash, m, maxSize) == Err(e)
      case Ok((c, _)) => ConstructMap(cache, hash, m, maxSize) == Ok((c, m))
  {
    ConstructIs(cache, hash, m, q, recs, maxSize);
    if InsertAll(cache, hash, recs).Ok? {
      var (c, ids) := InsertAll(cache, hash, recs).value;
      MessageSize(m);
      ShrinkMessageIs(c, ids, m, |q|, maxSize);
      hide InsertAll, ConstructMap, ShrinkMessage, Width, QuestionsToBytes, MessageToBytes, AllSized, Known, Wholes;
      RecordsSplit(m);
    }
  }

  /** A message whose records got their own places is answered in the same way when it
      comes again, and the cache stays as it is. */
  lemma {:induction false} SameReplyAgain(cache: Cache, hash: seq<byte> -> u16, m: Message, q: seq<byte>,
                                          recs: seq<Record>, maxSize: u32)
    requires FromUpstream(m, q, recs) && InsertAll(cache, hash, recs).Ok?
    requires InsertAll(cache, hash, recs).value.1 == Homes(hash, recs)
    requires ConstructMap(cache, hash, m, maxSize).Ok?
    ensures var (after, first) := ConstructMap(cache, hash, m, maxSize).value;
      ConstructMap(after, hash, m, maxSize) == Ok((after, first))
  {
    hide InsertAll, Homes, ConstructMap, ShrinkMessage, Known, FromUpstream;
    UpstreamNames(m, q, recs);
    InsertAllAgain(cache, hash, recs);
    ConstructIs(cache, hash, m, q, recs, maxSize);
    ConstructIs(InsertAll(cache, hash, recs).value.0, hash, m, q, recs, maxSize);
  }

  // ----- The records of the first reply

  /** The rrids in the reply: 0 where the record went out whole. */
  function SentIds(m': Message, ids: seq<u16>): (sent: seq<u16>)
    requires |m'.Records()| == |ids|
    ensures |sent| == |ids|
    ensures forall i :: 0 <= i < |ids| ==> sent[i] == if m'.Records()[i].Fragment? then ids[i] else 0
  {
    seq(|ids|, i requires 0 <= i < |ids| => if m'.Records()[i].Fragment? then ids[i] else 0)
  }

  /** Every fragment says how long its record is. */
  predicate LengthsSent(m': Message) {
    forall i :: 0 <= i < |m'.Records()| && m'.Records()[i].Fragment? ==> m'.Records()[i].frag.rrsize != 0
  }

  /** No record needs more than half of the 16-bit block numbers, a megabyte. */
  predicate Small(recs: seq<Record>) {
    forall i :: 0 <= i < |recs| ==> Blocks(|RecordToBytes(recs[i])|) < 0x8000
  }

  /** What stands for the record in the reply: itself, or a first piece of it that
      says how long it is, or a fragment that says nothing at all. */
  ghost predicate StandsFor(p: PackedRR, rr: Record, id: u16) {
    match p
    case Whole(rr') => rr' == rr
    case Fragment(f) =>
      && id != 0 && f.rrid == id && f.curidx == 0 && f.Sized() && FragFits(f, false)
      && if f.rrsize == 0 then f.fragsize == 0
         else f.fragsize % 32 == 0 && f.fragsize < f.rrsize && Advertises(p, rr, id)
  }

  lemma {:induction false} EmptyStandsFor(rr: Record, id: u16)
    requires id != 0 && Blocks(|RecordToBytes(rr)|) < 0x8000
    ensures StandsFor(Fragment(EmptyFrag(rr, id)), rr, id) && EmptyFrag(rr, id).rrsize != 0
  {
    hide RecordToBytes;
    assert |RecordToBytes(rr)| >= 10;
  }

  lemma {:induction false} CutStandsFor(f: Frag, rr: Record, id: u16, room: nat)
    requires id != 0 && Blocks(|RecordToBytes(rr)|) < 0x8000 && CutTo(f, rr, id, room) && room <= |rr.rdata|
    ensures StandsFor(Fragment(f), rr, id)
    ensures f.rrsize == 0 <==> room == 0
  {
    assert |rr.rdata| + 10 <= |RecordToBytes(rr)|;
    hide RecordToBytes;
  }

  lemma {:induction false} RoomInData(rr: Record, cur: int, limit: nat)
    ensures RoomLeft(rr, cur, limit) <= |rr.rdata|
    ensures limit < cur ==> (RoomLeft(rr, cur, limit) == 0 <==> WithoutRoom(rr, cur, limit))
  {
  }

  /** A record whole or replaced by an empty fragment. */
  lemma {:induction false} UntouchedStandsFor(cache: Cache, k: Shrunk, recs: seq<Record>, ids: seq<u16>, i: nat)
    requires i < |recs| == |ids| == |k.records| == |k.rrids| && Untouched(cache, k, recs, ids, i)
    requires Blocks(|RecordToBytes(recs[i])|) < 0x8000
    ensures StandsFor(k.records[i], recs[i], ids[i]) && Bound(cache, ids[i], recs[i])
    ensures k.records[i].Fragment? ==> k.records[i].frag.rrsize != 0
  {
    hide RecordToBytes, EmptyFrag, Bound;
    if k.records[i].Fragment? {
      EmptyStandsFor(recs[i], ids[i]);
    }
  }

  lemma {:induction false} OneIsEarlier(recs: seq<Record>, i: nat, j: nat)
    requires i < |recs| && j < |recs|
    ensures i == j || Earlier(recs, i, j) || Earlier(recs, j, i)
  {
  }

  /** The loop cuts one record at most. */
  lemma {:induction false} CutOnce(base: nat, limit: nat, recs: seq<Record>, ids: seq<u16>, i: nat, j: nat)
    requires |recs| == |ids| && i < |recs| && j < |recs|
    requires CutHere(base, limit, recs, ids, i) && CutHere(base, limit, recs, ids, j)
    ensures i == j
  {
    hide CurAt, GoesOn, Earlier;
    OneIsEarlier(recs, i, j);
  }

  /** Record i of the reply; it says nothing of its record exactly if it was cut
      without any room. */
  ghost predicate Sent(cache: Cache, base: nat, limit: nat, m': Message, recs: seq<Record>, ids: seq<u16>, i: nat)
    requires i < |recs| == |ids|
  {
    && i < |m'.Records()| && Bound(cache, ids[i], recs[i])
    && var p := m'.Records()[i];
    && StandsFor(p, recs[i], ids[i])
    && (p.Fragment? <==> ComesTo(base, limit, recs, ids, i))
    && (p.Fragment? && p.frag.rrsize == 0 <==>
        CutHere(base, limit, recs, ids, i) && WithoutRoom(recs[i], CurAt(base, recs, ids, i), limit))
    && (p.Fragment? ==>
          if CutHere(base, limit, recs, ids, i) then
            CutTo(p.frag, recs[i], ids[i], RoomLeft(recs[i], CurAt(base, recs, ids, i), limit))
          else p.frag.fragsize == 0 && p.frag.data == None)
  }

  ghost predicate EverySent(cache: Cache, base: nat, limit: nat, m': Message, recs: seq<Record>, ids: seq<u16>)
    requires |recs| == |ids|
  {
    forall i :: 0 <= i < |recs| ==> Sent(cache, base, limit, m', recs, ids, i)
  }

  lemma {:induction false} RecordIsSent(cache: Cache, base: nat, limit: nat, m': Message, k: Shrunk, recs: seq<Record>,
                                        ids: seq<u16>, last: Option<nat>, i: nat)
    requires Outcome(cache, base, limit, k, recs, ids, last) && k.records == m'.Records()
    requires i < |recs| && Blocks(|RecordToBytes(recs[i])|) < 0x8000
    ensures Sent(cache, base, limit, m', recs, ids, i)
  {
    hide RecordToBytes, Width, Bound, StandsFor, CurAt, CutHere, ComesTo, WithoutRoom, CutTo, RoomLeft, Fails;
    if last == Some(i) {
      CutComes(base, limit, recs, ids, i);
      var cur := CurAt(base, recs, ids, i);
      RoomInData(recs[i], cur, limit);
      CutStandsFor(k.records[i].frag, recs[i], ids[i], RoomLeft(recs[i], cur, limit));
    } else {
      if CutHere(base, limit, recs, ids, i) && last.Some? {
        CutOnce(base, limit, recs, ids, i, last.value);
      }
      UntouchedStandsFor(cache, k, recs, ids, i);
    }
  }

  lemma {:induction false} AllSent(cache: Cache, m: Message, m': Message, q: seq<byte>, recs: seq<Record>,
                                   ids: seq<u16>, limit: nat, last: Option<nat>)
    requires |recs| == |ids| && Shrank(cache, m, m', q, recs, ids, limit, last) && Small(recs)
    ensures EverySent(cache, DNSMESSAGEHEADER + |q|, limit, m', recs, ids)
    ensures m'.Sized() && |m'.Records()| == |recs|
  {
    hide Outcome, RecordToBytes, Sent;
    var base := DNSMESSAGEHEADER + |q|;
    var k: Shrunk :| k.records == m'.Records() && Outcome(cache, base, limit, k, recs, ids, last);
    forall i | 0 <= i < |recs| ensures Sent(cache, base, limit, m', recs, ids, i) {
      assert Blocks(|RecordToBytes(recs[i])|) < 0x8000;
      RecordIsSent(cache, base, limit, m', k, recs, ids, last, i);
    }
  }

  /**
   Every record is advertised with its length unless the sizes of the message make
   the loop end with a record for which there is no room; and two fragments have
   the same rrid if and only if two records that share an id are both replaced.
   */
  lemma {:induction false} ReplyFaultsExactly(cache: Cache, m: Message, m': Message, q: seq<byte>, recs: seq<Record>,
                                              ids: seq<u16>, limit: nat, last: Option<nat>)
    requires |recs| == |ids| && Shrank(cache, m, m', q, recs, ids, limit, last) && Small(recs)
    ensures LengthsSent(m') <==> !CutWithoutRoom(DNSMESSAGEHEADER + |q|, limit, recs, ids)
    ensures (exists i :: AdvertisesNothing(m', i)) <==> CutWithoutRoom(DNSMESSAGEHEADER + |q|, limit, recs, ids)
    ensures (exists i :: SharesRrid(m', i)) <==> SharedPieces(DNSMESSAGEHEADER + |q|, limit, recs, ids)
  {
    hide Shrank, Small, Bound, Advertises, CurAt, CutHere, ComesTo, WithoutRoom;
    AllSent(cache, m, m', q, recs, ids, limit, last);
    var base := DNSMESSAGEHEADER + |q|;
    LengthsFault(cache, base, limit, m', recs, ids);
    RridsFault(cache, base, limit, m', recs, ids);
  }

  lemma {:induction false} LengthsFault(cache: Cache, base: nat, limit: nat, m': Message, recs: seq<Record>,
                                        ids: seq<u16>)
    requires |recs| == |ids| == |m'.Records()|
    requires EverySent(cache, base, limit, m', recs, ids)
    ensures LengthsSent(m') <==> !CutWithoutRoom(base, limit, recs, ids)
    ensures (exists i :: AdvertisesNothing(m', i)) <==> CutWithoutRoom(base, limit, recs, ids)
  {
    hide Bound, Advertises, CurAt, CutHere, ComesTo, WithoutRoom;
    if CutWithoutRoom(base, limit, recs, ids) {
      var j: nat :| j < |recs| && CutHere(base, limit, recs, ids, j)
                    && WithoutRoom(recs[j], CurAt(base, recs, ids, j), limit);
      assert Sent(cache, base, limit, m', recs, ids, j);
      assert AdvertisesNothing(m', j);
    }
    if i: nat :| AdvertisesNothing(m', i) {
      assert Sent(cache, base, limit, m', recs, ids, i);
    }
    if !LengthsSent(m') {
      var i: nat :| i < |m'.Records()| && m'.Records()[i].Fragment? && m'.Records()[i].frag.rrsize == 0;
      assert Sent(cache, base, limit, m', recs, ids, i);
    }
  }

  lemma {:induction false} RridsFault(cache: Cache, base: nat, limit: nat, m': Message, recs: seq<Record>,
                                      ids: seq<u16>)
    requires |recs| == |ids| == |m'.Records()|
    requires EverySent(cache, base, limit, m', recs, ids)
    ensures (exists i :: SharesRrid(m', i)) <==> SharedPieces(base, limit, recs, ids)
  {
    hide Bound, Advertises, CurAt, CutHere, ComesTo, WithoutRoom, FragFits;
    if SharedPieces(base, limit, recs, ids) {
      var i: nat, j: nat :| i < j < |recs| && ids[i] == ids[j]
                            && ComesTo(base, limit, recs, ids, i) && ComesTo(base, limit, recs, ids, j);
      assert Sent(cache, base, limit, m', recs, ids, i) && Sent(cache, base, limit, m', recs, ids, j);
      assert SharesRrid(m', j);
    }
    if j: nat :| SharesRrid(m', j) {
      var i :| 0 <= i < j && m'.Records()[i].Fragment? && m'.Records()[i].frag.rrid == m'.Records()[j].frag.rrid;
      assert Sent(cache, base, limit, m', recs, ids, i) && Sent(cache, base, limit, m', recs, ids, j);
    }
  }

  // ----- The runs it starts

  lemma {:induction false} SentAdvertises(cache: Cache, base: nat, limit: nat, m': Message, recs: seq<Record>,
                                          ids: seq<u16>, i: nat)
    requires i < |recs| == |ids| && Sent(cache, base, limit, m', recs, ids, i) && LengthsSent(m') && WireSafe(recs[i])
    ensures Advertises(m'.Records()[i], recs[i], if m'.Records()[i].Fragment? then ids[i] else 0)
    ensures m'.Records()[i].Fragment? ==> ids[i] != 0 && Bound(cache, ids[i], recs[i])
  {
    hide WireSafe, RecordToBytes, Bound, CurAt, CutHere, ComesTo, WithoutRoom;
  }

  lemma {:induction false} SentIdsCast(cache: Cache, base: nat, limit: nat, m': Message, recs: seq<Record>,
                                       ids: seq<u16>)
    requires |recs| == |ids| == |m'.Records()| && !SharedPieces(base, limit, recs, ids)
    requires EverySent(cache, base, limit, m', recs, ids)
    ensures Cast(recs, SentIds(m', ids))
  {
    hide Bound, StandsFor, CurAt, CutHere, ComesTo, WithoutRoom;
    var sent := SentIds(m', ids);
    forall i, j | 0 <= i < j < |ids| && sent[i] != 0 ensures sent[i] != sent[j] {
      assert Sent(cache, base, limit, m', recs, ids, i) && Sent(cache, base, limit, m', recs, ids, j);
    }
  }

  /** The cache the requests meet binds all ids as the one the reply was made
      from, whatever other messages have been answered since. */
  lemma {:induction false} SentIsServed(cache: Cache, cache': Cache, recs: seq<Record>, ids: seq<u16>, sent: seq<u16>)
    requires Cast(recs, sent) && |ids| == |sent| && Keeps(cache, cache')
    requires forall i :: 0 <= i < |ids| && sent[i] != 0 ==> sent[i] == ids[i] && Bound(cache, ids[i], recs[i])
    ensures Serves(cache', recs, sent)
  {
    hide RecordToBytes, SameRecord;
    forall i | 0 <= i < |ids| && sent[i] != 0
      ensures sent[i] in cache' && RecordToBytes(cache'[sent[i]]) == RecordToBytes(recs[i])
    {
      assert Bound(cache, ids[i], recs[i]);
      SameRecordBytes(recs[i], cache[ids[i]]);
    }
  }

  lemma {:induction false} ReplyStartsRun(form: Form, cache: Cache, cache': Cache, m: Message, q: seq<byte>,
                                          recs: seq<Record>, ids: seq<u16>, m': Message, limit: nat, last: Option<nat>)
    requires |recs| == |ids| && Original(m, recs) && Small(recs)
    requires Shrank(cache, m, m', q, recs, ids, limit, last) && Keeps(cache, cache')
    requires !CutWithoutRoom(DNSMESSAGEHEADER + |q|, limit, recs, ids)
    requires !SharedPieces(DNSMESSAGEHEADER + |q|, limit, recs, ids)
    ensures |m'.Records()| == |ids| && Setup(form, cache', m, recs, SentIds(m', ids), m')
  {
    hide Outcome, Advertises, WireSafe, CanonicalQuestion, Bound, RecordToBytes, LengthsSent, Keeps, Cast, Sent, Small,
         SharedPieces, CutWithoutRoom;
    var base := DNSMESSAGEHEADER + |q|;
    AllSent(cache, m, m', q, recs, ids, limit, last);
    ReplyFaultsExactly(cache, m, m', q, recs, ids, limit, last);
    SentIdsCast(cache, base, limit, m', recs, ids);
    var sent := SentIds(m', ids);
    forall i | 0 <= i < |recs|
      ensures Advertises(m'.Records()[i], recs[i], sent[i]) && (sent[i] != 0 ==> Bound(cache, ids[i], recs[i]))
    {
      SentAdvertises(cache, base, limit, m', recs, ids, i);
    }
    SentIsServed(cache, cache', recs, ids, sent);
    assert Replaced(m, recs, sent, m');
  }

  /** A message that goes out as it is. */
  lemma {:induction false} WholeStartsRun(form: Form, cache: Cache, m: Message, recs: seq<Record>, nobody: seq<u16>)
    requires Original(m, recs) && |nobody| == |recs| && forall i :: 0 <= i < |recs| ==> nobody[i] == 0
    ensures Setup(form, cache, m, recs, nobody, m)
  {
    hide WireSafe, CanonicalQuestion;
  }

  /** The reply passes the wire whatever has become of its records. */
  lemma {:induction false} ReplyPasses(cache: Cache, m: Message, m': Message, q: seq<byte>, recs: seq<Record>,
                                       ids: seq<u16>, limit: nat, last: Option<nat>)
    requires |recs| == |ids| && Original(m, recs) && Small(recs)
    requires Shrank(cache, m, m', q, recs, ids, limit, last)
    ensures MessageFits(m') && !m'.IsQuery()
  {
    hide Outcome, Advertises, WireSafe, CanonicalQuestion, Bound, RecordToBytes, CurAt, CutHere, ComesTo, WithoutRoom,
         FragFits;
    AllSent(cache, m, m', q, recs, ids, limit, last);
    var base := DNSMESSAGEHEADER + |q|;
    forall i | 0 <= i < |recs| ensures PackedFits(m'.Records()[i], false) {
      assert Sent(cache, base, limit, m', recs, ids, i);
    }
    SectionsFit(m');
  }

  /** The first reply has lost something that no follow-up brings back. */
  predicate Loses(qLen: nat, recs: seq<Record>, ids: seq<u16>, maxSize: u32)
    requires |recs| == |ids|
  {
    && DNSMESSAGEHEADER <= maxSize
    && (|| CutWithoutRoom(DNSMESSAGEHEADER + qLen, maxSize - DNSMESSAGEHEADER, recs, ids)
        || SharedPieces(DNSMESSAGEHEADER + qLen, maxSize - DNSMESSAGEHEADER, recs, ids))
  }

  /**
   From one end to the other. The responder takes any upstream message that the
   codec carries, with any cache and any hash function, and makes its first reply;
   whatever it answers afterwards to others, no run of the requester ever gives
   back a message if the sizes and ids of the records meet `Loses`, and otherwise
   every run that completes gives back the upstream message, and runs complete
   exactly as `Rebuilds` says.
   */
  lemma {:induction false} UpstreamToRequester(form: Form, cache: Cache, cache': Cache, hash: seq<byte> -> u16,
                                               m: Message, q: seq<byte>, recs: seq<Record>, maxSize: u32,
                                               identification: u16, maxUdp: nat, rounds: nat)
    requires FromUpstream(m, q, recs) && Original(m, recs) && Small(recs) && maxUdp <= 65530
    requires ConstructMap(cache, hash, m, maxSize).Ok? && Keeps(ConstructMap(cache, hash, m, maxSize).value.0, cache')
    ensures InsertAll(cache, hash, recs).Ok?
    ensures var ids, first := InsertAll(cache, hash, recs).value.1, ConstructMap(cache, hash, m, maxSize).value.1;
      && first.Sized()
      && if Loses(|q|, recs, ids, maxSize) then NeverRebuilds(form, cache', first, identification, maxUdp, rounds)
         else Rebuilds(form, cache', m, first, identification, maxUdp, rounds)
  {
    hide ConstructMap, InsertAll, QuestionsToBytes, Width, Original, Small, Keeps, Shrank, Setup, Rebuilds,
         NeverRebuilds, CutWithoutRoom, SharedPieces, AdvertisesNothing, SharesRrid, MessageFits;
    if maxSize < DNSMESSAGEHEADER {
      TinyLimitNeverShrinks(cache, hash, m, q, recs, maxSize);
      var nobody := seq(|recs|, i => 0);
      WholeStartsRun(form, cache', m, recs, nobody);
      RunRebuilds(form, cache', m, recs, nobody, m, identification, maxUdp, rounds);
      return;
    }
    var last, c, ids, first := ReplyShrank(cache, hash, m, q, recs, maxSize);
    var limit := maxSize - DNSMESSAGEHEADER;
    AllSent(c, m, first, q, recs, ids, limit, last);
    if Loses(|q|, recs, ids, maxSize) {
      ReplyFaultsExactly(c, m, first, q, recs, ids, limit, last);
      ReplyPasses(c, m, first, q, recs, ids, limit, last);
      var i: nat :| AdvertisesNothing(first, i) || SharesRrid(first, i);
      HopelessIsNeverRebuilt(form, cache', first, identification, maxUdp, rounds, i);
    } else {
      ReplyStartsRun(form, c, cache', m, q, recs, ids, first, limit, last);
      RunRebuilds(form, cache', m, recs, SentIds(first, ids), first, identification, maxUdp, rounds);
    }
  }

  /** The length of the record that the cache holds under this id. */
  function Held(cache: Cache): u16 -> nat {
    (id: u16) => if id in cache then |RecordToBytes(cache[id])| else 0
  }

  lemma {:induction false} SentIsShort(cache: Cache, base: nat, limit: nat, m': Message, recs: seq<Record>,
                                       ids: seq<u16>, i: nat)
    requires i < |recs| == |ids| && Sent(cache, base, limit, m', recs, ids, i)
    requires m'.Records()[i].Fragment? && m'.Records()[i].frag.rrsize != 0
    ensures ShortOf(m'.Records()[i].frag, Held(cache)(m'.Records()[i].frag.rrid))
  {
    hide RecordToBytes, CurAt, CutHere, ComesTo, WithoutRoom;
    SameRecordBytes(recs[i], cache[ids[i]]);
  }

  /**
   When two records that share an id are both replaced, and every record is
   advertised with its length, no run completes: the fragments of both go to the
   first of their slots.
   */
  lemma {:induction false} SharedIdsNeverComplete(form: Form, cache: Cache, cache': Cache, hash: seq<byte> -> u16,
                                                  m: Message, q: seq<byte>, recs: seq<Record>, maxSize: u32,
                                                  identification: u16, maxUdp: nat, rounds: nat)
    requires FromUpstream(m, q, recs) && Original(m, recs) && Small(recs) && DNSMESSAGEHEADER <= maxSize
    requires maxUdp <= 65530
    requires ConstructMap(cache, hash, m, maxSize).Ok? && InsertAll(cache, hash, recs).Ok?
    requires var ids := InsertAll(cache, hash, recs).value.1;
      && SharedPieces(DNSMESSAGEHEADER + |q|, maxSize - DNSMESSAGEHEADER, recs, ids)
      && !CutWithoutRoom(DNSMESSAGEHEADER + |q|, maxSize - DNSMESSAGEHEADER, recs, ids)
    ensures var first := ConstructMap(cache, hash, m, maxSize).value.1;
      first.Sized() && NeverCompletes(form, cache', first, identification, maxUdp, rounds)
  {
    hide ConstructMap, InsertAll, QuestionsToBytes, Width, Original, Small, Shrank, NeverCompletes, CutWithoutRoom,
         SharedPieces, SharesRrid, MessageFits, Sent, ShortOf, AdvertisesNothing;
    var last, c, ids, first := ReplyShrank(cache, hash, m, q, recs, maxSize);
    var limit := maxSize - DNSMESSAGEHEADER;
    AllSent(c, m, first, q, recs, ids, limit, last);
    ReplyFaultsExactly(c, m, first, q, recs, ids, limit, last);
    ReplyPasses(c, m, first, q, recs, ids, limit, last);
    forall i | 0 <= i < |recs| && first.Records()[i].Fragment?
      ensures ShortOf(first.Records()[i].frag, Held(c)(first.Records()[i].frag.rrid))
    {
      SentIsShort(c, DNSMESSAGEHEADER + |q|, limit, first, recs, ids, i);
    }
    var i: nat :| SharesRrid(first, i);
    SharedNeverCompletes(form, cache', first, Held(c), identification, maxUdp, rounds, i);
  }

  lemma {:induction false} ReplyShrank(cache: Cache, hash: seq<byte> -> u16, m: Message, q: seq<byte>,
                                       recs: seq<Record>, maxSize: u32)
    returns (last: Option<nat>, c: Cache, ids: seq<u16>, first: Message)
    requires FromUpstream(m, q, recs) && DNSMESSAGEHEADER <= maxSize && ConstructMap(cache, hash, m, maxSize).Ok?
    ensures InsertAll(cache, hash, recs) == Ok((c, ids)) && |ids| == |recs|
    ensures ConstructMap(cache, hash, m, maxSize) == Ok((c, first))
    ensures Shrank(c, m, first, q, recs, ids, maxSize - DNSMESSAGEHEADER, last)
  {
    hide ConstructMap, InsertAll, Shrank, MessageToBytes, Fails, QuestionsToBytes, Width;
    last := FirstReplyFits(cache, hash, m, q, recs, maxSize);
    c, first := ConstructMap(cache, hash, m, maxSize).value.0, ConstructMap(cache, hash, m, maxSize).value.1;
    ids := InsertAll(cache, hash, recs).value.1;
  }
}
