/**
 The lock-step exchange between requester and responder: the first reply, then
 rounds of a request, slices of the cached records and their arrival, each
 message going over the wire as bytes. No message is lost.
 */
module Session {
  import opened Wire
  import opened Names
  import opened Records
  import opened Messages
  import opened Reassembly
  import opened Requester
  import opened Responder
  import opened Progress
  import opened Delivery
  import opened Asking

  // ----- The wire

  lemma {:induction false} DecodedRecordIsSized(s: seq<byte>, query: bool)
    ensures PackedFromBytes(s, query).Ok? ==> PackedFromBytes(s, query).value.value.Sized()
  {
    hide LooksLikeFrag, NameFromBytes;
  }

  lemma {:induction false} DecodedSectionIsSized(s: seq<byte>, count: nat, query: bool)
    ensures var r := SectionFromBytes(s, count, query);
      r.Ok? ==> |r.value.value| == count && AllSized(r.value.value)
  {
    hide PackedFromBytes;
    if count > 0 {
      DecodedRecordIsSized(s, query);
      var p := PackedFromBytes(s, query);
      if p.Ok? && p.value.used <= |s| {
        DecodedSectionIsSized(s[p.value.used..], count - 1, query);
      }
    }
  }

  lemma {:induction false} DecodedQuestions(s: seq<byte>, count: nat)
    ensures var r := QuestionsFromBytes(s, count);
      r.Ok? ==> |r.value.value| == count
  {
    hide QuestionFromBytes;
    if count > 0 {
      var q := QuestionFromBytes(s);
      if q.Ok? && q.value.used <= |s| {
        DecodedQuestions(s[q.value.used..], count - 1);
      }
    }
  }

  lemma {:induction false} DecodedIsSized(s: seq<byte>)
    ensures MessageFromBytes(s).Ok? ==> MessageFromBytes(s).value.Sized()
  {
    hide SectionFromBytes, QuestionsFromBytes, AllSized;
    if MessageFromBytes(s).Ok? {
      var query := QueryFlags(Get16(s, 2));
      DecodedQuestions(s[12..], Get16(s, 4));
      var s0 := s[12..][QuestionsFromBytes(s[12..], Get16(s, 4)).value.used..];
      DecodedSectionIsSized(s0, Get16(s, 6), query);
      var s1 := s0[SectionFromBytes(s0, Get16(s, 6), query).value.used..];
      DecodedSectionIsSized(s1, Get16(s, 8), query);
      DecodedSectionIsSized(s1[SectionFromBytes(s1, Get16(s, 8), query).value.used..], Get16(s, 10), query);
    }
  }

  /** Encoded by one daemon, decoded by the other. */
  function Transmit(m: Message): (r: Result<Message>)
    requires m.Sized()
    ensures r.Ok? ==> r.value.Sized()
  {
    var bytes :- MessageToBytes(m);
    DecodedIsSized(bytes);
    MessageFromBytes(bytes)
  }

  // ----- Rounds

  predicate AllBare(fs: seq<Frag>) {
    forall a :: 0 <= a < |fs| ==> fs[a].data.None?
  }

  lemma {:induction false} AskIsBare(s: Slot, cursize: u16, maxUdp: nat)
    requires cursize < maxUdp
    ensures var a := AskFor(s, cursize, maxUdp);
      a.All? || a.Part? ==> a.frag.data.None?
  {
  }

  lemma {:induction false} PackedFromIsBare(k: Packing, lo: nat, hi: nat, ids: seq<u16>, notComplete: nat, i: nat,
                                            maxUdp: nat)
    requires lo <= hi <= |k.slots| && AllBare(k.frags)
    ensures var r := PackFrom(k, lo, hi, ids, notComplete, i, maxUdp);
      r.Ok? ==> AllBare(r.value.frags)
    decreases notComplete - i
  {
    if i < notComplete && k.size < maxUdp && i < |ids| {
      var j := FindSlot(k.slots[..hi], ids[i], lo);
      if j < hi {
        AskIsBare(k.slots[j], k.size, maxUdp);
        hide AskFor, FindSlot;
        match AskFor(k.slots[j], k.size, maxUdp)
        case Nothing => PackedFromIsBare(k, lo, hi, ids, notComplete, i + 1, maxUdp);
        case All(f, s, size) =>
          PackedFromIsBare(Packing(k.slots[j := s], k.frags + [f], size), lo, hi, ids, notComplete, i + 1, maxUdp);
        case Part(f, s, size) =>
        case NoRoom =>
      }
    }
  }

  lemma {:induction false} SectionIsBare(pm: Partial, k: Packing, section: nat, maxUdp: nat)
    requires pm.Shaped() && |k.slots| == |pm.slots| && section < 3 && AllBare(k.frags)
    ensures var r := PackSection(k, pm, section, maxUdp);
      r.Ok? ==> AllBare(r.value.frags)
  {
    hide PackFrom, AllBare;
    var lo, hi := Start(pm, section), Start(pm, section + 1);
    PackedFromIsBare(k, lo, hi, IncompleteIds(pm.slots, lo, hi), NotComplete(pm.slots, lo, hi), 0, maxUdp);
  }

  lemma {:induction false} PackedIsBare(pm: Partial, maxUdp: nat)
    requires pm.Shaped()
    ensures var r := PackAll(pm, maxUdp);
      r.Ok? ==> AllBare(r.value.frags)
  {
    hide PackSection;
    SectionIsBare(pm, Packing(pm.slots, [], 12), 0, maxUdp);
    var k0 := PackSection(Packing(pm.slots, [], 12), pm, 0, maxUdp);
    if k0.Ok? {
      SectionIsBare(pm, k0.value, 1, maxUdp);
      var k1 := PackSection(k0.value, pm, 1, maxUdp);
      if k1.Ok? {
        SectionIsBare(pm, k1.value, 2, maxUdp);
      }
    }
  }

  /** The follow-up request goes out. final_size is a 16-bit number. */
  function SendRequest(identification: u16, fs: seq<Frag>): (r: Result<Message>)
    requires AllBare(fs)
    ensures r.Ok? ==> r.value.Sized()
  {
    if |fs| >= 0x1_0000 then Err(OutOfBounds) else Transmit(RequestMessage(identification, fs))
  }

  /** The responder's answer comes back. */
  function SendReply(cache: Cache, request: Message): (r: Result<Message>)
    requires request.Sized()
    ensures r.Ok? ==> r.value.Sized()
  {
    var reply :- Answer(cache, request);
    Transmit(reply)
  }

  /** One round, from an incomplete message to what has arrived. A request
      without fragments is an ordinary query, which brings no fragments. */
  function Round(form: Form, cache: Cache, pm: Partial, identification: u16, maxUdp: nat): (r: Result<Partial>)
    requires pm.Shaped()
    ensures r.Ok? ==> r.value.Shaped()
  {
    var k :- PackAll(pm, maxUdp);
    PackedIsBare(pm, maxUdp);
    var request :- SendRequest(identification, k.frags);
    if !request.ContainsFrag() then Ok(pm.(slots := k.slots))
    else
      var reply :- SendReply(cache, request);
      CopyMessage(form, pm.(slots := k.slots), reply)
  }

  function Run(form: Form, cache: Cache, pm: Partial, identification: u16, maxUdp: nat,
               rounds: nat): (r: Result<Partial>)
    requires pm.Shaped()
    ensures r.Ok? ==> r.value.Shaped()
    decreases rounds
  {
    if rounds == 0 || MessageComplete(pm) then Ok(pm)
    else
      var pm' :- Round(form, cache, pm, identification, maxUdp);
      Run(form, cache, pm', identification, maxUdp, rounds - 1)
  }

  // ----- A round over the wire

  /** The empty question name arrives as the root. */
  lemma {:induction false} RequestArrives(identification: u16, fs: seq<Frag>)
    requires |fs| < 0x1_0000 && AllBare(fs)
    ensures SendRequest(identification, fs)
            == Ok(RequestMessage(identification, fs).(questions := [Question([DOT], RRFRAG, 1)]))
  {
    hide MessageToBytes, MessageFromBytes;
    var m := RequestMessage(identification, fs);
    var m' := m.(questions := [Question([DOT], RRFRAG, 1)]);
    SameOnTheWire(m, m');
    RootIsCanonical();
    assert MessageFits(m') by {
      assert CanonicalName(m'.questions[0].qname, []);
    }
    MessageRoundTrip(m');
    assert ReceivedMessage(m') == m' by {
      assert ReceivedSection(m'.additional, true) == m'.additional;
      assert ReceivedSection(m'.answers, true) == m'.answers;
    }
  }

  lemma {:induction false} RootIsCanonical()
    ensures CanonicalName([DOT], [])
    ensures NameToBytes([]) == NameToBytes([DOT])
  {
  }

  lemma {:induction false} SameOnTheWire(m: Message, m': Message)
    requires m.Sized() && m.questions == [Question([], RRFRAG, 1)]
    requires m' == m.(questions := [Question([DOT], RRFRAG, 1)])
    ensures MessageToBytes(m) == MessageToBytes(m')
  {
    RootIsCanonical();
    hide NameToBytes, SectionToBytes;
    assert m.questions[1..] == [] && m'.questions[1..] == [];
    assert QuestionsToBytes(m.questions) == QuestionsToBytes(m'.questions);
    assert HeaderBytes(m) == HeaderBytes(m');
  }

  /** A reply made of fragments with data arrives as it is. */
  lemma {:induction false} ReplyArrives(identification: u16, flags: u16, fs: seq<Frag>)
    requires |fs| < 0x1_0000 && !QueryFlags(flags)
    requires forall i :: 0 <= i < |fs| ==> fs[i].Sized() && fs[i].data.Some?
    ensures var m := Message(identification, flags, [], AsRecords(fs), [], []);
      m.Sized() && Transmit(m) == Ok(m)
  {
    hide MessageToBytes, MessageFromBytes;
    var m := Message(identification, flags, [], AsRecords(fs), [], []);
    assert MessageFits(m);
    MessageRoundTrip(m);
    assert ReceivedSection(m.answers, false) == m.answers;
    assert ReceivedSection(m.additional, false) == m.additional;
  }

  // ----- The responder serves what it advertised

  /** The cache holds the bytes of every record that was sent in pieces. */
  ghost predicate Serves(cache: Cache, recs: seq<ResourceRecord>, ids: seq<u16>)
    requires Cast(recs, ids)
  {
    forall i :: 0 <= i < |ids| && ids[i] != 0 ==>
      ids[i] in cache && RecordToBytes(cache[ids[i]]) == RecordToBytes(recs[i])
  }

  lemma {:induction false} SliceIsPiece(cache: Cache, record: seq<byte>, id: u16, r: nat, w: nat)
    requires id in cache && RecordToBytes(cache[id]) == record
    requires |record| < 0x10_0000 && r + w <= Blocks(|record|)
    requires BytesUpTo(r + w, |record|) - BytesUpTo(r, |record|) < 0x1_0000
    ensures var f := Piece(record, id, r, w);
      Slice(cache, f.(data := None)) == Ok(f) && f.Sized() && f.data.Some?
  {
    hide RecordToBytes;
  }

  /** What is asked for is what is answered. */
  lemma {:induction false} AnswerIsPlan(cache: Cache, slots: seq<Slot>, recs: seq<ResourceRecord>, ids: seq<u16>,
                                        ws: seq<nat>, idx: seq<nat>, fs: seq<Frag>, m: Message)
    requires Cast(recs, ids) && Serves(cache, recs, ids) && Plan(slots, recs, ids, ws, idx, fs)
    requires m.additional == AsRecords(Bare(fs))
    ensures Answer(cache, m) == Ok(Message(m.identification, MarkResponse(m.flags), [], AsRecords(fs), [], []))
    ensures forall a :: 0 <= a < |fs| ==> fs[a].Sized() && fs[a].data.Some?
  {
    hide RecordToBytes, Slice, Piece;
    forall a | 0 <= a < |fs|
      ensures Slice(cache, Bare(fs)[a]) == Ok(fs[a]) && fs[a].Sized() && fs[a].data.Some?
    {
      var i := idx[a];
      assert PieceOk(slots, recs, ws, i) && fs[a] == Awaited(slots, recs, ids, ws, i);
      SliceIsPiece(cache, RecordToBytes(recs[i]), ids[i], slots[i].blocksReceived, ws[i]);
    }
    FragsOfRecords(Bare(fs));
    SlicesAt(cache, Bare(fs), fs);
  }

  /**
   What becomes of a follow-up request, whatever the cache holds and whatever it asks
   for: it is answered exactly when each of its fragments asks for bytes that are
   there; the reply has the request's identification, the flags 0x8000 (a response
   without any other flag and without an error code), no questions, and in its answer
   section the fragments in their order, each with the bytes asked for; and it arrives
   as it was sent.
   */
  lemma {:induction false} FollowUpAnswered(cache: Cache, identification: u16, fs: seq<Frag>)
    returns (request: Message, gs: seq<Frag>)
    requires AllBare(fs) && |fs| < 0x1_0000
    ensures SendRequest(identification, fs) == Ok(request)
    ensures SendReply(cache, request).Ok? <==> forall a :: 0 <= a < |fs| ==> Answerable(cache, fs[a])
    ensures SendReply(cache, request).Ok? ==>
      && SendReply(cache, request) == Ok(Message(identification, 0x8000, [], AsRecords(gs), [], []))
      && |gs| == |fs|
      && forall a :: 0 <= a < |fs| ==>
           && Answerable(cache, fs[a])
           && var record, from := RecordToBytes(cache[fs[a].rrid]), fs[a].curidx;
              gs[a] == fs[a].(data := Some(record[from..from + fs[a].fragsize]))
  {
    hide RecordToBytes, FragsOf, Transmit, SendRequest, AnswerSlices;
    RequestArrives(identification, fs);
    request := SendRequest(identification, fs).value;
    FragsOfRecords(fs);
    AnsweredExactly(cache, fs);
    gs := [];
    if AnswerSlices(cache, fs).Ok? {
      gs := AnswerSlices(cache, fs).value;
      ReplyArrives(identification, 0x8000, gs);
    }
  }

  lemma {:induction false} CostBound(fs: seq<Frag>)
    ensures 5 * |fs| <= Cost(fs)
  {
    if fs != [] {
      CostBound(fs[..|fs| - 1]);
    }
  }

  /** A reply with fragments in its answer section is copied into the partial message. */
  lemma {:induction false} CopyReply(form: Form, pm: Partial, identification: u16, flags: u16, fs: seq<Frag>)
    requires pm.Shaped() && pm.known && |fs| < 0x1_0000 && fs != []
    requires forall i :: 0 <= i < |fs| ==> fs[i].Sized()
    ensures var m := Message(identification, flags, [], AsRecords(fs), [], []);
      && m.Sized() && AllSized(AsRecords(fs))
      && CopyMessage(form, pm, m)
         == if pm.ancount == 0 then Err(OutOfBounds) else CopySection(form, pm, AsRecords(fs), 0)
  {
    hide CopyItem;
  }

  /**
   A round never runs into an error, except in two cases: a slot was started by
   an empty fragment, or the first reply had no answers at all.
   */
  ghost predicate RoundOutcome(form: Form, pm: Partial, r: Result<Partial>, recs: seq<ResourceRecord>, ids: seq<u16>,
                               maxUdp: nat)
    requires Cast(recs, ids) && pm.Shaped()
  {
    && (r.Err? ==> (r == Err(NeverTerminates) && !Fed(form, pm.slots)) || (r == Err(OutOfBounds) && pm.ancount == 0))
    && (r.Ok? ==>
          && r.value.Shaped()
          && Good(form, r.value, recs, ids, Zeros(|recs|))
          && r.value == pm.(slots := r.value.slots, done := r.value.done)
          && SameStarved(form, pm.slots, r.value.slots)
          && Missing(r.value.slots) <= Missing(pm.slots)
          && (44 <= maxUdp && !MessageComplete(pm) ==> pm.ancount > 0 && Missing(r.value.slots) < Missing(pm.slots)))
  }

  lemma {:induction false} RoundStep(form: Form, cache: Cache, pm: Partial, recs: seq<ResourceRecord>, ids: seq<u16>,
                                     identification: u16, maxUdp: nat)
    requires Cast(recs, ids) && pm.Shaped() && Good(form, pm, recs, ids, Zeros(|recs|)) && Serves(cache, recs, ids)
    requires 12 <= maxUdp <= 65530
    ensures RoundOutcome(form, pm, Round(form, cache, pm, identification, maxUdp), recs, ids, maxUdp)
  {
    hide PackedSoFar, Good, MessageComplete, SendRequest, PackAll, Missing, SameStarved, Plan, Serves, Cast, Round,
         RoundOutcome;
    var k, ws, idx, fs := RoundPlan(form, pm, recs, ids, maxUdp);
    PackedIsBare(pm, maxUdp);
    RequestArrives(identification, k.frags);
    var pm' := pm.(slots := k.slots);
    var request := SendRequest(identification, k.frags).value;
    if fs == [] {
      IdleRound(form, cache, pm, recs, ids, identification, maxUdp, k, ws, idx);
    } else {
      BusyRound(form, cache, pm', recs, ids, ws, idx, fs, request);
      RoundIsReply(form, cache, pm, identification, maxUdp, k, request);
      RoundOfReply(form, pm, pm', ReplyTo(form, cache, pm', request), recs, ids, ws, |fs|, maxUdp);
    }
  }

  /** The request of a round, and the partial message once it is out. */
  lemma {:induction false} RoundPlan(form: Form, pm: Partial, recs: seq<ResourceRecord>, ids: seq<u16>, maxUdp: nat)
    returns (k: Packing, ws: seq<nat>, idx: seq<nat>, fs: seq<Frag>)
    requires Cast(recs, ids) && pm.Shaped() && Good(form, pm, recs, ids, Zeros(|recs|)) && 12 <= maxUdp <= 65530
    ensures PackAll(pm, maxUdp) == Ok(k) && k.frags == Bare(fs) && |fs| < 0x1_0000 && |k.slots| == |pm.slots|
    ensures var pm' := pm.(slots := k.slots);
      && Good(form, pm', recs, ids, ws) && Plan(pm'.slots, recs, ids, ws, idx, fs)
      && Missing(pm'.slots) == Missing(pm.slots) && SameStarved(form, pm.slots, pm'.slots)
    ensures forall i :: 0 <= i < |pm.slots| ==> k.slots[i].blocksReceived == pm.slots[i].blocksReceived
    ensures fs == [] ==> ws == Zeros(|recs|)
    ensures fs == [] && 44 <= maxUdp ==> MessageComplete(pm)
  {
    k, ws, idx, fs := RequestPlan(form, pm, recs, ids, maxUdp);
    GoodAfterAsking(form, pm, k, recs, ids, ws, idx, fs, maxUdp);
    CountersDecide(pm);
    CostBound(fs);
    PackedFacts(form, pm.slots, k, recs, ids, ws, idx, fs, maxUdp);
    hide PackedSoFar, Good, MessageComplete, PackAll, Missing, SameStarved, Plan;
  }

  lemma {:induction false} RoundIsReply(form: Form, cache: Cache, pm: Partial, identification: u16, maxUdp: nat,
                                        k: Packing, request: Message)
    requires pm.Shaped() && PackAll(pm, maxUdp) == Ok(k) && |k.slots| == |pm.slots| && k.frags != []
    requires AllBare(k.frags)
    requires SendRequest(identification, k.frags) == Ok(request) && request.Sized()
    requires request.additional == AsRecords(k.frags)
    ensures Round(form, cache, pm, identification, maxUdp) == ReplyTo(form, cache, pm.(slots := k.slots), request)
  {
    hide SendRequest, PackAll, SendReply, CopyMessage;
    var at := |request.answers| + |request.authoritative|;
    assert request.Records()[at] == Fragment(k.frags[0]);
  }

  function ReplyTo(form: Form, cache: Cache, pm: Partial, request: Message): (r: Result<Partial>)
    requires pm.Shaped() && request.Sized()
  {
    var reply :- SendReply(cache, request);
    CopyMessage(form, pm, reply)
  }

  lemma {:induction false} PackedFacts(form: Form, slots0: seq<Slot>, k: Packing, recs: seq<ResourceRecord>,
                                       ids: seq<u16>, ws: seq<nat>, idx: seq<nat>, fs: seq<Frag>, maxUdp: nat)
    requires Cast(recs, ids) && PackedSoFar(form, slots0, k, recs, ids, ws, idx, fs, maxUdp)
    ensures k.frags == Bare(fs) && |k.slots| == |slots0| && 12 + Cost(fs) <= maxUdp + 5 && |ws| == |recs|
    ensures Plan(k.slots, recs, ids, ws, idx, fs)
    ensures forall i :: 0 <= i < |slots0| ==> k.slots[i].blocksReceived == slots0[i].blocksReceived
    ensures fs == [] ==> ws == Zeros(|recs|)
  {
    if fs == [] {
      assert idx == [] && forall i :: 0 <= i < |ws| ==> i !in idx;
    }
  }

  lemma {:induction false} IdleRound(form: Form, cache: Cache, pm: Partial, recs: seq<ResourceRecord>, ids: seq<u16>,
                                     identification: u16, maxUdp: nat, k: Packing, ws: seq<nat>, idx: seq<nat>)
    requires Cast(recs, ids) && pm.Shaped() && |k.slots| == |pm.slots|
    requires PackAll(pm, maxUdp) == Ok(k) && k.frags == []
    requires SendRequest(identification, [])
             == Ok(RequestMessage(identification, []).(questions := [Question([DOT], RRFRAG, 1)]))
    requires var pm' := pm.(slots := k.slots);
      && Good(form, pm', recs, ids, Zeros(|recs|)) && SameStarved(form, pm.slots, k.slots)
      && Missing(k.slots) == Missing(pm.slots)
    requires 44 <= maxUdp ==> MessageComplete(pm)
    ensures RoundOutcome(form, pm, Round(form, cache, pm, identification, maxUdp), recs, ids, maxUdp)
  {
    hide Good, MessageComplete, SendRequest, PackAll, Missing, SameStarved;
  }

  lemma {:induction false} BusyRound(form: Form, cache: Cache, pm: Partial, recs: seq<ResourceRecord>, ids: seq<u16>,
                                     ws: seq<nat>, idx: seq<nat>, fs: seq<Frag>, request: Message)
    requires Cast(recs, ids) && pm.Shaped() && Good(form, pm, recs, ids, ws) && Serves(cache, recs, ids)
    requires Plan(pm.slots, recs, ids, ws, idx, fs) && fs != [] && |fs| < 0x1_0000
    requires request.Sized() && request.additional == AsRecords(Bare(fs))
    ensures var r := ReplyTo(form, cache, pm, request);
      if pm.ancount == 0 then r == Err(OutOfBounds) else Took(form, pm, ws, r, recs, ids, Zeros(|recs|), |fs|)
  {
    AnswerIsPlan(cache, pm.slots, recs, ids, ws, idx, fs, request);
    assert pm.known;
    hide Good, Plan, Serves, Cast, MarkResponse, QueryFlags, Answer, Transmit, CopySection;
    ReplyArrives(request.identification, MarkResponse(request.flags), fs);
    CopyReply(form, pm, request.identification, MarkResponse(request.flags), fs);
    DeliverAll(form, pm, recs, ids, ws, idx, fs, 0);
  }

  lemma {:induction false} RoundOfReply(form: Form, pm: Partial, pm': Partial, r: Result<Partial>,
                                        recs: seq<ResourceRecord>, ids: seq<u16>, ws: seq<nat>, n: nat, maxUdp: nat)
    requires Cast(recs, ids) && pm.Shaped() && pm' == pm.(slots := pm'.slots) && n > 0
    requires SameStarved(form, pm.slots, pm'.slots) && Missing(pm'.slots) == Missing(pm.slots)
    requires if pm.ancount == 0 then r == Err(OutOfBounds) else Took(form, pm', ws, r, recs, ids, Zeros(|recs|), n)
    ensures RoundOutcome(form, pm, r, recs, ids, maxUdp)
  {
    hide Missing, MessageComplete, Starved;
  }
}
