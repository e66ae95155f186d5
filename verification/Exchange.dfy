/**
 The whole exchange on the objects of the two daemons: the responder's cache, the
 requester's partial message, and every message encoded by the one daemon and
 decoded by the other.
 */
module Exchange {
  import opened Wire
  import opened Records
  import opened Messages
  import opened MessageBuffers
  import opened Reassembly
  import opened Requester
  import opened Responder
  import opened Shrinking
  import opened Delivery
  import opened Session
  import opened EndToEnd
  import opened Failures
  import opened Upstream
  import opened Recovery
  import opened PartialMessages
  import opened PartialRequests
  import opened ResponderLoops

  method OverTheWire(m: Message) returns (r: Result<Message>)
    requires m.Sized()
    ensures r == Transmit(m)
    ensures r.Ok? ==> r.value.Sized()
  {
    hide MessageToBytes, MessageFromBytes;
    var bytes := DnsMessageToBytes(m);
    if bytes.Err? {
      return Err(bytes.error);
    }
    DecodedIsSized(bytes.value);
    r := DnsMessageFromBytes(bytes.value);
  }

  // ----- Runs, as the objects go through them

  /** What requester_thread forwards when a run ends like this. */
  function Forwarded(run: Result<Partial>): (r: Option<Message>)
    requires run.Ok? ==> run.value.Shaped()
  {
    if run.Ok? && MessageComplete(run.value) && PartialToMessage(run.value).Ok?
    then Some(PartialToMessage(run.value).value) else None
  }

  function RunFrom(form: Form, cache: Cache, pm: Result<Partial>, identification: u16, maxUdp: nat, rounds: nat)
    : (run: Result<Partial>)
    requires pm.Ok? ==> pm.value.Shaped()
    ensures run.Ok? ==> run.value.Shaped()
  {
    if pm.Ok? then Run(form, cache, pm.value, identification, maxUdp, rounds) else pm
  }

  /** A run from the first reply on. */
  function WholeRun(form: Form, cache: Cache, first: Message, maxUdp: nat, rounds: nat): (run: Result<Partial>)
    requires first.Sized()
    ensures run.Ok? ==> run.value.Shaped()
  {
    RunFrom(form, cache, AfterFirst(form, first), IdOf(first), maxUdp, rounds)
  }

  /** The identification that the requester sees. */
  function IdOf(first: Message): u16
    requires first.Sized()
  {
    if Transmit(first).Ok? then Transmit(first).value.identification else 0
  }

  lemma {:induction false} NothingPacked(k: Packing, lo: nat, hi: nat, ids: seq<u16>, notComplete: nat, i: nat,
                                         maxUdp: nat)
    requires lo <= hi <= |k.slots| && PackFrom(k, lo, hi, ids, notComplete, i, maxUdp).Ok?
    ensures var r := PackFrom(k, lo, hi, ids, notComplete, i, maxUdp).value;
      |r.frags| >= |k.frags| && (|r.frags| == |k.frags| ==> r.slots == k.slots)
    decreases notComplete - i
  {
    if i < notComplete && k.size < maxUdp {
      var j := FindSlot(k.slots[..hi], ids[i], lo);
      hide AskFor, FindSlot;
      match AskFor(k.slots[j], k.size, maxUdp)
      case Nothing => NothingPacked(k, lo, hi, ids, notComplete, i + 1, maxUdp);
      case All(f, s, size) =>
        NothingPacked(Packing(k.slots[j := s], k.frags + [f], size), lo, hi, ids, notComplete, i + 1, maxUdp);
      case Part(f, s, size) =>
      case NoRoom =>
    }
  }

  /** A request without fragments has marked nothing. */
  lemma {:induction false} NothingAsked(pm: Partial, maxUdp: nat)
    requires pm.Shaped() && PackAll(pm, maxUdp).Ok? && PackAll(pm, maxUdp).value.frags == []
    ensures PackAll(pm, maxUdp).value.slots == pm.slots
  {
    hide PackFrom, IncompleteIds, NotComplete, PackSection;
    var k := Packing(pm.slots, [], 12);
    SectionPacked(pm, k, 0, maxUdp);
    var k0 := PackSection(k, pm, 0, maxUdp).value;
    SectionPacked(pm, k0, 1, maxUdp);
    SectionPacked(pm, PackSection(k0, pm, 1, maxUdp).value, 2, maxUdp);
  }

  lemma {:induction false} SectionPacked(pm: Partial, k: Packing, section: nat, maxUdp: nat)
    requires pm.Shaped() && |k.slots| == |pm.slots| && section < 3 && PackSection(k, pm, section, maxUdp).Ok?
    ensures var r := PackSection(k, pm, section, maxUdp).value;
      |r.frags| >= |k.frags| && (|r.frags| == |k.frags| ==> r.slots == k.slots)
  {
    hide PackFrom;
    var lo, hi := Start(pm, section), Start(pm, section + 1);
    NothingPacked(k, lo, hi, IncompleteIds(pm.slots, lo, hi), NotComplete(pm.slots, lo, hi), 0, maxUdp);
  }

  /** A round that changes nothing is followed by others that do not. */
  lemma {:induction false} IdleForEver(form: Form, cache: Cache, pm: Partial, identification: u16, maxUdp: nat,
                                       rounds: nat)
    requires pm.Shaped() && Round(form, cache, pm, identification, maxUdp) == Ok(pm)
    ensures Run(form, cache, pm, identification, maxUdp, rounds) == Ok(pm)
    decreases rounds
  {
    hide Round, MessageComplete;
    if rounds > 0 && !MessageComplete(pm) {
      IdleForEver(form, cache, pm, identification, maxUdp, rounds - 1);
    }
  }

  lemma {:induction false} RunStep(form: Form, cache: Cache, pm: Partial, identification: u16, maxUdp: nat, rounds: nat,
                                   rest: nat)
    requires pm.Shaped() && !MessageComplete(pm) && rounds == rest + 1
    ensures Run(form, cache, pm, identification, maxUdp, rounds)
            == match Round(form, cache, pm, identification, maxUdp)
               case Err(e) => Err(e)
               case Ok(pm') => Run(form, cache, pm', identification, maxUdp, rest)
  {
    hide Round, MessageComplete;
  }

  /** The request of a round reaches the responder, and the identification comes back. */
  lemma {:induction false} RoundIs(form: Form, cache: Cache, pm: Partial, k: Packing, identification: u16, maxUdp: nat,
                                   rounds: nat, rest: nat)
    requires pm.Shaped() && !MessageComplete(pm) && PackAll(pm, maxUdp) == Ok(k) && |k.frags| < 0x1_0000
    requires rounds == rest + 1
    ensures AllBare(k.frags) && SendRequest(identification, k.frags).Ok?
    ensures SendRequest(identification, k.frags) == Transmit(RequestMessage(identification, k.frags))
    ensures var request := SendRequest(identification, k.frags).value;
      && |request.additional| < 0x1_0000
      && var run := Run(form, cache, pm, identification, maxUdp, rounds);
      && (!request.ContainsFrag() ==> run == Ok(pm))
      && (request.ContainsFrag() ==>
            var reply := SendReply(cache, request);
            && (reply.Ok? ==> reply.value.identification == identification)
            && run == match reply
                      case Err(e) => Err(e)
                      case Ok(m) =>
                        match CopyMessage(form, pm.(slots := k.slots), m)
                        case Err(e) => Err(e)
                        case Ok(pm') => Run(form, cache, pm', identification, maxUdp, rest))
  {
    PackedIsBare(pm, maxUdp);
    RequestArrives(identification, k.frags);
    var request := SendRequest(identification, k.frags).value;
    ReplyKeepsId(cache, request, k.frags);
    FragsIffAny(request, k.frags);
    RunStep(form, cache, pm, identification, maxUdp, rounds, rest);
    hide PackAll, MessageComplete, SendReply, Transmit, CopyMessage, SendRequest, Run;
    if !request.ContainsFrag() {
      NothingAsked(pm, maxUdp);
      IdleKeeps(form, cache, pm, identification, maxUdp, k);
      IdleForEver(form, cache, pm, identification, maxUdp, rounds);
    } else {
      RoundIsReply(form, cache, pm, identification, maxUdp, k, request);
    }
  }

  lemma {:induction false} FragsIffAny(m: Message, fs: seq<Frag>)
    requires m.answers == [] && m.authoritative == [] && m.additional == AsRecords(fs)
    ensures m.ContainsFrag() <==> fs != []
  {
    assert m.Records() == AsRecords(fs);
    if fs != [] {
      assert m.Records()[0].Fragment?;
    }
  }

  lemma {:induction false} SlicesHaveData(cache: Cache, fs: seq<Frag>)
    requires AnswerSlices(cache, fs).Ok?
    ensures var gs := AnswerSlices(cache, fs).value;
      forall a :: 0 <= a < |gs| ==> gs[a].Sized() && gs[a].data.Some?
  {
    hide RecordToBytes;
    if fs != [] {
      SlicesHaveData(cache, fs[1..]);
    }
  }

  lemma {:induction false} ReplyKeepsId(cache: Cache, request: Message, fs: seq<Frag>)
    requires request.Sized() && request.additional == AsRecords(fs) && |fs| < 0x1_0000
    ensures SendReply(cache, request).Ok? ==> SendReply(cache, request).value.identification == request.identification
  {
    FragsOfRecords(fs);
    hide FragsOf, Transmit, MarkResponse, QueryFlags;
    if Answer(cache, request).Ok? {
      SlicesHaveData(cache, fs);
      ReplyArrives(request.identification, MarkResponse(request.flags), AnswerSlices(cache, fs).value);
    }
  }

  /** `p` is waiting for the answer to `reaction`, the follow-up of `pm`; or the
      message is rebuilt, or the requester has failed. */
  ghost predicate Reacted(p: PartialDNSMessage, pm: Result<Partial>, identification: u16, maxUdp: nat,
                          reaction: Result<Reaction>)
    requires pm.Ok? ==> pm.value.Shaped()
    reads p, p.All()
  {
    match pm
    case Err(_) => reaction.Err?
    case Ok(pm) =>
      if MessageComplete(pm) then
        match PartialToMessage(pm)
        case Err(_) => reaction.Err?
        case Ok(whole) => reaction == Ok(Forward(whole))
      else
        match PackAll(pm, maxUdp)
        case Err(_) => reaction.Err?
        case Ok(k) =>
          if |k.frags| >= 0x1_0000 then reaction.Err?
          else
            && reaction == Ok(FollowUp(RequestMessage(identification, k.frags)))
            && p.Valid() && p.View() == pm.(slots := k.slots)
  }

  /** The requester's reaction, and what it leaves behind. */
  method React(p: PartialDNSMessage, form: Form, m: Message, maxUdp: nat) returns (reaction: Result<Reaction>)
    requires p.Valid() && m.Sized()
    modifies p, p.All()
    ensures CopyMessage(form, old(p.View()), m).Ok? ==> CopyMessage(form, old(p.View()), m).value.Shaped()
    ensures Reacted(p, CopyMessage(form, old(p.View()), m), m.identification, maxUdp, reaction)
    ensures reaction.Ok? && reaction.value.FollowUp? ==> p.All() == old(p.All()) || fresh(p.All())
  {
    hide CopyMessage, PackAll, PartialToMessage, MessageComplete;
    reaction := OnReply(p, form, m, maxUdp);
  }

  /** A follow-up is the request for what is missing. */
  lemma {:induction false} HasAsked(p: PartialDNSMessage, pm: Result<Partial>, identification: u16, maxUdp: nat,
                                    reaction: Result<Reaction>)
    returns (k: Packing)
    requires (pm.Ok? ==> pm.value.Shaped()) && Reacted(p, pm, identification, maxUdp, reaction)
    requires reaction.Ok? && reaction.value.FollowUp?
    ensures pm.Ok? && !MessageComplete(pm.value) && PackAll(pm.value, maxUdp) == Ok(k) && |k.frags| < 0x1_0000
    ensures reaction.value.m == RequestMessage(identification, k.frags)
    ensures p.Valid() && p.View() == pm.value.(slots := k.slots)
  {
    hide PackAll, PartialToMessage, MessageComplete;
    k := PackAll(pm.value, maxUdp).value;
  }

  lemma {:induction false} NotForwarded(run: Result<Partial>)
    requires run.Ok? ==> run.value.Shaped() && !MessageComplete(run.value)
    ensures Forwarded(run) == None
  {
  }

  /** No follow-up is left to answer. */
  lemma {:induction false} Ends(form: Form, cache: Cache, p: PartialDNSMessage, pm: Result<Partial>,
                                identification: u16, maxUdp: nat, left: nat, reaction: Result<Reaction>)
    requires (pm.Ok? ==> pm.value.Shaped()) && Reacted(p, pm, identification, maxUdp, reaction)
    requires left == 0 || reaction.Err? || reaction.value.Forward?
    ensures Forwarded(RunFrom(form, cache, pm, identification, maxUdp, left))
            == if reaction.Ok? && reaction.value.Forward? then Some(reaction.value.m) else None
  {
    hide PackAll, PartialToMessage, MessageComplete, Run;
    if pm.Ok? {
      RunStops(form, cache, pm.value, identification, maxUdp, left);
    }
  }

  lemma {:induction false} RunStops(form: Form, cache: Cache, pm: Partial, identification: u16, maxUdp: nat, left: nat)
    requires pm.Shaped()
    ensures left == 0 || MessageComplete(pm) ==> Run(form, cache, pm, identification, maxUdp, left) == Ok(pm)
    ensures left > 0 && !MessageComplete(pm)
            && (PackAll(pm, maxUdp).Err? || |PackAll(pm, maxUdp).value.frags| >= 0x1_0000) ==>
      Run(form, cache, pm, identification, maxUdp, left).Err?
  {
    hide PackAll, MessageComplete, SendReply, CopyMessage, Transmit;
    if PackAll(pm, maxUdp).Ok? {
      PackedIsBare(pm, maxUdp);
    }
  }

  /** One request and its answer, if it asks for anything; `p` is left alone. */
  method Ask(ghost p: PartialDNSMessage, cache: Cache, m: Message) returns (asked: bool, arrived: Result<Message>)
    requires m.Sized() && Transmit(m).Ok? && |Transmit(m).value.additional| < 0x1_0000
    ensures asked == Transmit(m).value.ContainsFrag()
    ensures asked ==> arrived == SendReply(cache, Transmit(m).value)
    ensures p.All() == old(p.All()) && p.View() == old(p.View()) && p.Valid() == old(p.Valid())
  {
    hide Transmit, Answer, MarkResponse;
    var request := OverTheWire(m);
    asked := request.value.ContainsFrag();
    arrived := request;
    if asked {
      var answer := AnswerFrags(cache, request.value);
      if answer.Err? {
        return true, Err(answer.error);
      }
      AnswerIsSized(cache, request.value);
      arrived := OverTheWire(answer.value);
    }
  }

  /** The follow-up, its answer, and what is left of the run. */
  lemma {:induction false} OneTurn(form: Form, cache: Cache, p: PartialDNSMessage, pm: Result<Partial>, id: u16,
                                   maxUdp: nat, left: nat, rest: nat, reaction: Result<Reaction>)
    requires (pm.Ok? ==> pm.value.Shaped()) && Reacted(p, pm, id, maxUdp, reaction)
    requires left == rest + 1 && reaction.Ok? && reaction.value.FollowUp?
    ensures p.Valid() && p.View().Shaped()
    ensures var m := reaction.value.m;
      && m.Sized() && Transmit(m).Ok? && |Transmit(m).value.additional| < 0x1_0000
      && var request := Transmit(m).value;
      && var reply := SendReply(cache, request);
      && var run := RunFrom(form, cache, pm, id, maxUdp, left);
      && if !request.ContainsFrag() || reply.Err? then Forwarded(run) == None
         else reply.value.identification == id
              && run == RunFrom(form, cache, CopyMessage(form, p.View(), reply.value), id, maxUdp, rest)
  {
    hide PackAll, MessageComplete, SendRequest, SendReply, CopyMessage, Transmit, Run, Reacted, Forwarded, Views;
    var k := HasAsked(p, pm, id, maxUdp, reaction);
    RoundIs(form, cache, pm.value, k, id, maxUdp, left, rest);
    RequestIsSized(id, k.frags);
    NotForwarded(Ok(pm.value));
    NotForwarded(Err(OutOfBounds));
    var run := RunFrom(form, cache, pm, id, maxUdp, left);
    if run.Err? {
      NotForwarded(run);
    }
  }

  lemma {:induction false} StartsRun(form: Form, cache: Cache, first: Message, maxUdp: nat, rounds: nat)
    requires first.Sized()
    ensures match Transmit(first)
      case Err(_) => Forwarded(WholeRun(form, cache, first, maxUdp, rounds)) == None
      case Ok(got) =>
        WholeRun(form, cache, first, maxUdp, rounds)
        == RunFrom(form, cache, Begun(form, got), got.identification, maxUdp, rounds)
  {
    hide Transmit, Begun, Run;
    if Transmit(first).Err? {
      NotForwarded(WholeRun(form, cache, first, maxUdp, rounds));
    }
  }

  /** The two daemons talk, while the responder's cache holds `cache`: the requester
      reacts to the first reply, its request goes to the responder, and the answer
      back, until it forwards the rebuilt message or fails, or the rounds are used up. */
  method Converse(form: Form, cache: Cache, first: Message, maxUdp: nat, rounds: nat)
    returns (forwarded: Option<Message>)
    requires first.Sized()
    ensures forwarded == Forwarded(WholeRun(form, cache, first, maxUdp, rounds))
  {
    hide Transmit, CopyMessage, SendReply, Reacted, Forwarded, RunFrom, WholeRun, PartialDNSMessage.All,
         PartialDNSMessage.View, PartialDNSMessage.Valid;
    ghost var run := WholeRun(form, cache, first, maxUdp, rounds);
    StartsRun(form, cache, first, maxUdp, rounds);
    var arrived := OverTheWire(first);
    if arrived.Err? {
      return None;
    }
    var p := new PartialDNSMessage();
    ghost var pm := Begun(form, arrived.value);
    ghost var id := arrived.value.identification;
    var reaction := React(p, form, arrived.value, maxUdp);
    var left: nat := rounds;
    while left > 0 && reaction.Ok? && reaction.value.FollowUp?
      invariant left <= rounds && (pm.Ok? ==> pm.value.Shaped())
      invariant fresh(p) && (reaction.Ok? && reaction.value.FollowUp? ==> fresh(p.All()))
      invariant Reacted(p, pm, id, maxUdp, reaction)
      invariant run == RunFrom(form, cache, pm, id, maxUdp, left)
    {
      ghost var view := p.View();
      var rest: nat := left - 1;
      OneTurn(form, cache, p, pm, id, maxUdp, left, rest, reaction);
      var asked, answer := Ask(p, cache, reaction.value.m);
      if !asked || answer.Err? {
        return None;
      }
      pm := CopyMessage(form, view, answer.value);
      reaction := React(p, form, answer.value, maxUdp);
      left := rest;
    }
    Ends(form, cache, p, pm, id, maxUdp, left, reaction);
    return if reaction.Ok? && reaction.value.Forward? then Some(reaction.value.m) else None;
  }

  lemma {:induction false} RequestIsSized(identification: u16, fs: seq<Frag>)
    requires AllBare(fs) && |fs| < 0x1_0000
    ensures RequestMessage(identification, fs).Sized()
  {
  }

  lemma {:induction false} AnswerIsSized(cache: Cache, m: Message)
    requires Answer(cache, m).Ok? && |m.additional| < 0x1_0000
    ensures Answer(cache, m).value.Sized()
  {
    hide AnswerSlices;
  }

  // ----- The exchange

  /**
   From the upstream message to the forwarded one, on the objects: whatever is
   forwarded is the upstream message; it is forwarded within as many rounds as blocks
   are missing when the sizes and ids of its records meet `GetsThrough`, and never
   otherwise.
   */
  method Relay(form: Form, cache: ResponderCache, hash: seq<byte> -> u16, m: Message, ghost q: seq<byte>,
               ghost recs: seq<Record>, maxSize: u32, maxUdp: nat, rounds: nat)
    returns (r: Result<Option<Message>>)
    requires FromUpstream(m, q, recs) && Original(m, recs) && Small(recs) && maxUdp <= 65530
    modifies cache
    ensures match ConstructMap(old(cache.entries), hash, m, maxSize)
      case Err(e) => r == Err(e)
      case Ok((after, first)) =>
        && cache.entries == after && InsertAll(old(cache.entries), hash, recs).Ok?
        && r.Ok? && (r.value.Some? ==> r.value == Some(m))
        && first.Sized()
        && var ids := InsertAll(old(cache.entries), hash, recs).value.1;
           Reaches(form, first, GetsThrough(form, |m.answers|, |q|, recs, ids, maxSize, maxUdp), rounds, r.value.Some?)
  {
    hide FromUpstream, Original, Small, ConstructMap, InsertAll, GetsThrough, Reaches, WholeRun, Forwarded;
    UpstreamSized(m, q, recs);
    ghost var before := cache.entries;
    var first := InsertIntoStateAndConstructMap(cache, hash, m, maxSize);
    if first.Err? {
      return Err(first.error);
    }
    Relayed(form, before, hash, m, q, recs, maxSize, maxUdp, rounds);
    var forwarded := Converse(form, cache.entries, first.value, maxUdp, rounds);
    return Ok(forwarded);
  }

  lemma {:induction false} UpstreamSized(m: Message, q: seq<byte>, recs: seq<Record>)
    requires FromUpstream(m, q, recs)
    ensures m.Sized()
  {
  }

  lemma {:induction false} Relayed(form: Form, cache: Cache, hash: seq<byte> -> u16, m: Message, q: seq<byte>,
                                   recs: seq<Record>, maxSize: u32, maxUdp: nat, rounds: nat)
    requires FromUpstream(m, q, recs) && Original(m, recs) && Small(recs) && maxUdp <= 65530
    requires ConstructMap(cache, hash, m, maxSize).Ok?
    ensures InsertAll(cache, hash, recs).Ok?
    ensures var (after, first) := ConstructMap(cache, hash, m, maxSize).value;
      && first.Sized()
      && var forwarded := Forwarded(WholeRun(form, after, first, maxUdp, rounds));
      && (forwarded.Some? ==> forwarded == Some(m))
      && var ids := InsertAll(cache, hash, recs).value.1;
         Reaches(form, first, GetsThrough(form, |m.answers|, |q|, recs, ids, maxSize, maxUdp), rounds, forwarded.Some?)
  {
    hide FromUpstream, Original, Small, ConstructMap, InsertAll, GetsThrough, Reaches, Decided, WholeRun, Forwarded,
         Transmit;
    UpstreamSized(m, q, recs);
    var (after, first) := ConstructMap(cache, hash, m, maxSize).value;
    var id: u16 := if first.Sized() then IdOf(first) else 0;
    UpstreamDecided(form, cache, after, hash, m, q, recs, maxSize, id, maxUdp, rounds);
    var ids := InsertAll(cache, hash, recs).value.1;
    DecidedForwards(form, after, m, first, GetsThrough(form, |m.answers|, |q|, recs, ids, maxSize, maxUdp), id, maxUdp,
                    rounds);
  }

  /** Whether the message is forwarded. */
  ghost predicate Reaches(form: Form, first: Message, through: bool, rounds: nat, forwarded: bool)
    requires first.Sized()
  {
    if !through then !forwarded
    else AfterFirst(form, first).Ok? && (rounds >= Missing(AfterFirst(form, first).value.slots) ==> forwarded)
  }

  lemma {:induction false} DecidedForwards(form: Form, cache: Cache, m: Message, first: Message, through: bool, id: u16,
                                           maxUdp: nat, rounds: nat)
    requires first.Sized() && Decided(form, cache, m, first, through, id, maxUdp, rounds) && id == IdOf(first)
    ensures var forwarded := Forwarded(WholeRun(form, cache, first, maxUdp, rounds));
      && (forwarded.Some? ==> forwarded == Some(m))
      && Reaches(form, first, through, rounds, forwarded.Some?)
  {
    hide Transmit, CopyMessage, Run, PartialToMessage, MessageComplete, Missing;
  }
}
