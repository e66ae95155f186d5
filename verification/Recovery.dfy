/**
 Which messages get through: the sizes and ids of the records, the limits and the
 form decide it before anything is sent.
 */
module Recovery {
  import opened Wire
  import opened Records
  import opened Messages
  import opened Reassembly
  import opened Requester
  import opened Responder
  import opened Shrinking
  import opened Stopping
  import opened Progress
  import opened Delivery
  import opened Asking
  import opened Session
  import opened EndToEnd
  import opened Failures
  import opened Tallies
  import opened Upstream

  /** The loop ends with this record and leaves it at least one block of data. */
  predicate KeepsData(base: nat, limit: nat, recs: seq<Record>, ids: seq<u16>, i: nat)
    requires i < |recs| == |ids|
  {
    CutHere(base, limit, recs, ids, i) && RoomLeft(recs[i], CurAt(base, recs, ids, i), limit) >= 32
  }

  /** Follow-ups of this budget make good what the loop has taken away: there is
      nothing, or they have an answer section to go to, a block fits into them, and for
      the dynamic form no record starts with an empty fragment. */
  predicate Recovers(form: Form, answers: nat, base: nat, limit: nat, recs: seq<Record>, ids: seq<u16>, maxUdp: nat)
    requires |recs| == |ids|
  {
    || (forall i :: 0 <= i < |recs| ==> !ComesTo(base, limit, recs, ids, i))
    || (44 <= maxUdp && answers > 0
        && (form == Dynamic ==>
              forall i :: 0 <= i < |recs| && ComesTo(base, limit, recs, ids, i) ==>
                KeepsData(base, limit, recs, ids, i)))
  }

  /** The message gets through. */
  predicate GetsThrough(form: Form, answers: nat, qLen: nat, recs: seq<Record>, ids: seq<u16>, maxSize: u32,
                        maxUdp: nat)
    requires |recs| == |ids|
  {
    || maxSize < DNSMESSAGEHEADER
    || (!Loses(qLen, recs, ids, maxSize)
        && Recovers(form, answers, DNSMESSAGEHEADER + qLen, maxSize - DNSMESSAGEHEADER, recs, ids, maxUdp))
  }

  // ----- The fragments of the first reply

  /** A fragment has data if and only if it is the last one cut and there was room for
      a block. */
  lemma {:induction false} DataIsSentExactly(cache: Cache, base: nat, limit: nat, m': Message, recs: seq<Record>,
                                             ids: seq<u16>, i: nat)
    requires i < |recs| == |ids| && Sent(cache, base, limit, m', recs, ids, i) && m'.Records()[i].Fragment?
    ensures m'.Records()[i].frag.fragsize > 0 <==> KeepsData(base, limit, recs, ids, i)
  {
    hide RecordToBytes, Bound, StandsFor, CurAt, CutHere, ComesTo, WithoutRoom, RoomLeft;
  }

  // ----- Completeness after the first reply

  /** Slots of fragments with more to come are not complete, those of whole records are. */
  lemma {:induction false} FirstIsComplete(form: Form, first: Message, pm: Partial, recs: seq<ResourceRecord>,
                                           ids: seq<u16>, size: u16 -> nat)
    requires Cast(recs, ids) && Good(form, pm, recs, ids, Zeros(|recs|)) && AllYoung(pm.slots, size)
    ensures MessageComplete(pm) <==> forall i :: 0 <= i < |ids| ==> ids[i] == 0
  {
    hide SlotAt, RecordToBytes, Counted, MessageComplete;
    CountersDecide(pm);
    forall i | 0 <= i < |ids| ensures pm.slots[i].complete <==> ids[i] == 0 {
      assert Fine(form, pm.slots[i], recs[i], ids[i], 0);
      assert Young(pm.slots[i], size(pm.slots[i].rrid));
      if ids[i] != 0 {
        HasRrid(form, pm.slots[i], RecordToBytes(recs[i]), ids[i]);
      }
    }
  }

  lemma {:induction false} HasRrid(form: Form, s: Slot, record: seq<byte>, id: u16)
    requires SlotAt(form, s, record, id, s.blocksReceived, 0)
    ensures s.rrid == id
  {
  }

  /** What the requester has after a first reply of short pieces. */
  lemma {:induction false} AfterShort(form: Form, cache: Cache, m: Message, recs: seq<ResourceRecord>, ids: seq<u16>,
                                      first: Message, size: u16 -> nat)
    requires Setup(form, cache, m, recs, ids, first) && first.Sized() && AllShort(first.Records(), size)
    requires MessageFits(first) && !first.IsQuery()
    ensures AfterFirst(form, first).Ok?
    ensures var pm := AfterFirst(form, first).value;
      Good(form, pm, recs, ids, Zeros(|recs|)) && AllYoung(pm.slots, size)
  {
    hide Good, Original, Replaced, Serves, Cast, CanComplete, MessageFits, Begun, Transmit, AllShort, Tallied, AllYoung,
         MessageComplete, Fed;
    FirstReply(form, cache, m, recs, ids, first);
    FitsArrives(first);
    var got := ReceivedMessage(first);
    SameShort(first, got, size);
    FirstTallies(form, got, size);
  }

  // ----- Both ways

  /** Whether follow-ups can complete the first reply, from the sizes alone. */
  lemma {:induction false} WithinBudgetExactly(form: Form, cache: Cache, base: nat, limit: nat, m: Message,
                                               first: Message, pm: Partial, recs: seq<Record>, ids: seq<u16>,
                                               maxUdp: nat)
    requires |recs| == |ids| == |first.Records()| && EverySent(cache, base, limit, first, recs, ids) && pm.Shaped()
    requires |first.answers| == |m.answers|
    requires MessageComplete(pm) <==> forall i :: 0 <= i < |recs| ==> SentIds(first, ids)[i] == 0
    ensures WithinBudget(form, first, pm, maxUdp) <==> Recovers(form, |m.answers|, base, limit, recs, ids, maxUdp)
  {
    hide Bound, StandsFor, CurAt, CutHere, ComesTo, WithoutRoom, RoomLeft, CutTo, KeepsData, MessageComplete, Sent;
    forall i | 0 <= i < |recs|
      ensures first.Records()[i].Fragment? <==> ComesTo(base, limit, recs, ids, i)
      ensures SentIds(first, ids)[i] == 0 <==> !ComesTo(base, limit, recs, ids, i)
      ensures EmptyFragment(form, first.Records()[i])
              <==> form == Dynamic && ComesTo(base, limit, recs, ids, i) && !KeepsData(base, limit, recs, ids, i)
    {
      FragmentsCome(cache, base, limit, first, recs, ids, i);
      if first.Records()[i].Fragment? {
        DataIsSentExactly(cache, base, limit, first, recs, ids, i);
      }
    }
  }

  lemma {:induction false} FragmentsCome(cache: Cache, base: nat, limit: nat, m': Message, recs: seq<Record>,
                                         ids: seq<u16>, i: nat)
    requires i < |recs| == |ids| && EverySent(cache, base, limit, m', recs, ids)
    ensures Sent(cache, base, limit, m', recs, ids, i) && i < |m'.Records()|
    ensures m'.Records()[i].Fragment? <==> ComesTo(base, limit, recs, ids, i)
    ensures m'.Records()[i].Fragment? ==> ids[i] != 0
  {
    hide Bound, CurAt, CutHere, ComesTo, WithoutRoom, RoomLeft, CutTo, Advertises;
    assert Sent(cache, base, limit, m', recs, ids, i);
  }

  /**
   The whole exchange, decided beforehand. With any cache, any hash function, any UDP
   limit and any budget: a run forwards nothing but the upstream message, it completes
   within as many rounds as blocks are missing if the sizes and ids of the records
   meet `GetsThrough`, and otherwise no run of any length gives back a message.
   */
  lemma {:induction false} UpstreamDecided(form: Form, cache: Cache, cache': Cache, hash: seq<byte> -> u16, m: Message,
                                           q: seq<byte>, recs: seq<Record>, maxSize: u32, identification: u16,
                                           maxUdp: nat, rounds: nat)
    requires FromUpstream(m, q, recs) && Original(m, recs) && Small(recs) && maxUdp <= 65530
    requires ConstructMap(cache, hash, m, maxSize).Ok? && Keeps(ConstructMap(cache, hash, m, maxSize).value.0, cache')
    ensures InsertAll(cache, hash, recs).Ok?
    ensures var ids, first := InsertAll(cache, hash, recs).value.1, ConstructMap(cache, hash, m, maxSize).value.1;
      && first.Sized()
      && Decided(form, cache', m, first, GetsThrough(form, |m.answers|, |q|, recs, ids, maxSize, maxUdp),
                 identification, maxUdp, rounds)
  {
    hide ConstructMap, InsertAll, Width, Original, Small, Keeps, FromUpstream, Loses, Recovers, Decided, Rebuilds,
         NeverRebuilds, WithinBudget;
    UpstreamNames(m, q, recs);
    UpstreamToRequester(form, cache, cache', hash, m, q, recs, maxSize, identification, maxUdp, rounds);
    var ids, first := InsertAll(cache, hash, recs).value.1, ConstructMap(cache, hash, m, maxSize).value.1;
    var through := GetsThrough(form, |m.answers|, |q|, recs, ids, maxSize, maxUdp);
    NoLossBelowTwelve(|q|, recs, ids, maxSize);
    if Loses(|q|, recs, ids, maxSize) {
      LostIsDecided(form, cache', m, first, identification, maxUdp, rounds);
    } else {
      BudgetDecides(form, cache, cache', hash, m, q, recs, maxSize, maxUdp);
      RebuildsIsDecided(form, cache', m, first, through, identification, maxUdp, rounds);
    }
  }

  lemma {:induction false} NoLossBelowTwelve(qLen: nat, recs: seq<Record>, ids: seq<u16>, maxSize: u32)
    requires |recs| == |ids|
    ensures Loses(qLen, recs, ids, maxSize) ==> maxSize >= DNSMESSAGEHEADER
  {
    hide CutWithoutRoom, SharedPieces;
  }

  /** What becomes of the message, when it gets through and when it does not. */
  ghost predicate Decided(form: Form, cache: Cache, m: Message, first: Message, through: bool, identification: u16,
                          maxUdp: nat, rounds: nat)
    requires first.Sized()
  {
    if through then
      && AfterFirst(form, first).Ok?
      && var pm := AfterFirst(form, first).value;
         var r := Run(form, cache, pm, identification, maxUdp, rounds);
      && (r.Ok? && MessageComplete(r.value) ==> PartialToMessage(r.value) == Ok(m))
      && (rounds >= Missing(pm.slots) ==> r.Ok? && MessageComplete(r.value))
    else NeverRebuilds(form, cache, first, identification, maxUdp, rounds)
  }

  lemma {:induction false} LostIsDecided(form: Form, cache: Cache, m: Message, first: Message, identification: u16,
                                         maxUdp: nat, rounds: nat)
    requires first.Sized() && NeverRebuilds(form, cache, first, identification, maxUdp, rounds)
    ensures Decided(form, cache, m, first, false, identification, maxUdp, rounds)
  {
  }

  lemma {:induction false} RebuildsIsDecided(form: Form, cache: Cache, m: Message, first: Message, through: bool,
                                             identification: u16, maxUdp: nat, rounds: nat)
    requires first.Sized() && Rebuilds(form, cache, m, first, identification, maxUdp, rounds)
    requires AfterFirst(form, first).Ok? && through == WithinBudget(form, first, AfterFirst(form, first).value, maxUdp)
    ensures Decided(form, cache, m, first, through, identification, maxUdp, rounds)
  {
    hide AfterFirst, Run, MessageComplete, WithinBudget, Missing, SlotsToRecords;
  }

  /** When nothing is lost, the budget decides as `GetsThrough` says. */
  lemma {:induction false} BudgetDecides(form: Form, cache: Cache, cache': Cache, hash: seq<byte> -> u16, m: Message,
                                         q: seq<byte>, recs: seq<Record>, maxSize: u32, maxUdp: nat)
    requires FromUpstream(m, q, recs) && Original(m, recs) && Small(recs)
    requires ConstructMap(cache, hash, m, maxSize).Ok? && Keeps(ConstructMap(cache, hash, m, maxSize).value.0, cache')
    requires InsertAll(cache, hash, recs).Ok?
    requires !Loses(|q|, recs, InsertAll(cache, hash, recs).value.1, maxSize)
    ensures var ids, first := InsertAll(cache, hash, recs).value.1, ConstructMap(cache, hash, m, maxSize).value.1;
      && first.Sized() && AfterFirst(form, first).Ok?
      && (GetsThrough(form, |m.answers|, |q|, recs, ids, maxSize, maxUdp)
          <==> WithinBudget(form, first, AfterFirst(form, first).value, maxUdp))
  {
    hide ConstructMap, InsertAll, Original, Small, Keeps, FromUpstream, Recovers, WithinBudget, CutWithoutRoom,
         SharedPieces, AfterFirst;
    if maxSize < DNSMESSAGEHEADER {
      TinyLimitNeverShrinks(cache, hash, m, q, recs, maxSize);
      WholeIsComplete(form, cache', m, recs, maxUdp);
    } else {
      ShrunkDecides(form, cache, cache', hash, m, q, recs, maxSize, maxUdp);
    }
  }

  lemma {:induction false} WholeIsComplete(form: Form, cache: Cache, m: Message, recs: seq<Record>, maxUdp: nat)
    requires Original(m, recs)
    ensures m.Sized() && AfterFirst(form, m).Ok? && WithinBudget(form, m, AfterFirst(form, m).value, maxUdp)
  {
    hide AfterFirst, Good, CanComplete, MessageComplete;
    var nobody := seq(|recs|, i => 0);
    WholeStartsRun(form, cache, m, recs, nobody);
    FirstReply(form, cache, m, recs, nobody, m);
    AllWholeComplete(form, AfterFirst(form, m).value, recs, nobody);
    CompleteIsWithin(form, m, AfterFirst(form, m).value, maxUdp);
  }

  lemma {:induction false} CompleteIsWithin(form: Form, first: Message, pm: Partial, maxUdp: nat)
    requires pm.Shaped() && MessageComplete(pm)
    ensures WithinBudget(form, first, pm, maxUdp)
  {
    hide MessageComplete;
  }

  lemma {:induction false} AllWholeComplete(form: Form, pm: Partial, recs: seq<ResourceRecord>, ids: seq<u16>)
    requires Cast(recs, ids) && Good(form, pm, recs, ids, Zeros(|recs|)) && forall i :: 0 <= i < |ids| ==> ids[i] == 0
    ensures MessageComplete(pm)
  {
    hide MessageComplete, Counted, RecordToBytes;
    CountersDecide(pm);
    forall i | 0 <= i < |pm.slots| ensures pm.slots[i].complete {
      assert Fine(form, pm.slots[i], recs[i], ids[i], 0);
    }
  }

  lemma {:induction false} ShrunkDecides(form: Form, cache: Cache, cache': Cache, hash: seq<byte> -> u16, m: Message,
                                         q: seq<byte>, recs: seq<Record>, maxSize: u32, maxUdp: nat)
    requires FromUpstream(m, q, recs) && Original(m, recs) && Small(recs) && DNSMESSAGEHEADER <= maxSize
    requires ConstructMap(cache, hash, m, maxSize).Ok? && Keeps(ConstructMap(cache, hash, m, maxSize).value.0, cache')
    requires InsertAll(cache, hash, recs).Ok?
    requires !Loses(|q|, recs, InsertAll(cache, hash, recs).value.1, maxSize)
    ensures var ids, first := InsertAll(cache, hash, recs).value.1, ConstructMap(cache, hash, m, maxSize).value.1;
      && first.Sized() && AfterFirst(form, first).Ok?
      && (Recovers(form, |m.answers|, DNSMESSAGEHEADER + |q|, maxSize - DNSMESSAGEHEADER, recs, ids, maxUdp)
          <==> WithinBudget(form, first, AfterFirst(form, first).value, maxUdp))
  {
    hide ConstructMap, InsertAll, Original, Small, Keeps, FromUpstream, Recovers, WithinBudget, CutWithoutRoom, Good,
         SharedPieces, AfterFirst, Shrank, MessageFits, AllShort, AllYoung, MessageComplete, EverySent, LengthsSent;
    var last, c, ids, first := ReplyShrank(cache, hash, m, q, recs, maxSize);
    var base, limit := DNSMESSAGEHEADER + |q|, maxSize - DNSMESSAGEHEADER;
    AllSent(c, m, first, q, recs, ids, limit, last);
    ReplyFaultsExactly(c, m, first, q, recs, ids, limit, last);
    ReplyPasses(c, m, first, q, recs, ids, limit, last);
    ReplyStartsRun(form, c, cache', m, q, recs, ids, first, limit, last);
    EveryShort(c, base, limit, first, recs, ids);
    SameAnswers(c, m, first, q, recs, ids, limit, last);
    var sent := SentIds(first, ids);
    AfterShort(form, cache', m, recs, sent, first, Held(c));
    var pm := AfterFirst(form, first).value;
    FirstIsComplete(form, first, pm, recs, sent, Held(c));
    WithinBudgetExactly(form, c, base, limit, m, first, pm, recs, ids, maxUdp);
  }

  lemma {:induction false} SameAnswers(cache: Cache, m: Message, m': Message, q: seq<byte>, recs: seq<Record>,
                                       ids: seq<u16>, limit: nat, last: Option<nat>)
    requires |recs| == |ids| && Shrank(cache, m, m', q, recs, ids, limit, last)
    ensures |m'.answers| == |m.answers|
  {
  }

  lemma {:induction false} EveryShort(cache: Cache, base: nat, limit: nat, m': Message, recs: seq<Record>,
                                      ids: seq<u16>)
    requires |recs| == |ids| == |m'.Records()| && EverySent(cache, base, limit, m', recs, ids) && LengthsSent(m')
    ensures AllShort(m'.Records(), Held(cache))
  {
    hide Sent, ShortOf;
    forall i | 0 <= i < |recs| && m'.Records()[i].Fragment?
      ensures ShortOf(m'.Records()[i].frag, Held(cache)(m'.Records()[i].frag.rrid))
    {
      assert Sent(cache, base, limit, m', recs, ids, i);
      SentIsShort(cache, base, limit, m', recs, ids, i);
    }
  }
}
