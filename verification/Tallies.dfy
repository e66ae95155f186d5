/**
 Two records in pieces under one rrid: the fragments of both go to the first of
 their slots, and the message is never complete. What the responder's cache holds
 does not matter.
 */
module Tallies {
  import opened Wire
  import opened Records
  import opened Messages
  import opened Reassembly
  import opened Requester
  import opened Responder
  import opened Delivery
  import opened Asking
  import opened Session
  import opened EndToEnd
  import opened Failures

  // ----- Slots that are counted once

  /** A complete slot has received at least as many blocks as it has, so that another
      block takes it past the test that counts it. */
  predicate Trim(s: Slot) {
    && (s.started ==> s.rrid != 0 && |s.markers| == Blocks(s.rrsize))
    && (!s.started ==> s.markers == [])
    && (s.started && s.complete ==> s.blocksReceived >= |s.markers|)
  }

  /** The counters are right, and will be. */
  ghost predicate Tallied(pm: Partial) {
    pm.Shaped() && pm.known && Counted(pm) && forall i :: 0 <= i < |pm.slots| ==> Trim(pm.slots[i])
  }

  lemma {:induction false} AbsorbTrims(form: Form, s: Slot, f: Frag)
    requires f.Sized() && Trim(s) && s.rrid != 0 && Absorb(form, s, f).Ok? && (f.fragsize > 0 || !s.complete)
    ensures var s' := Absorb(form, s, f).value;
      && Trim(s') && s'.rrid == s.rrid
      && (s'.blocksReceived == |s'.markers| <==> s'.complete && !s.complete)
      && (s.complete ==> s'.complete)
  {
    hide Scatter, Total, HeadersFit, CheckFree, Grow, GrowHeaders, Splice, Cells;
  }

  lemma {:induction false} TalliedStep(pm: Partial, i: nat, s: Slot)
    requires Tallied(pm) && i < |pm.slots| && Trim(s) && (pm.slots[i].complete ==> s.complete)
    ensures var pm' := pm.(slots := pm.slots[i := s]);
      Tallied(if s.complete && !pm.slots[i].complete then Count(pm', SectionOf(pm, i)) else pm')
  {
    hide Trim;
    var pm' := pm.(slots := pm.slots[i := s]);
    if !pm.slots[i].complete {
      hide Counted;
      CountedStep(pm, i, s);
    } else {
      forall k | 0 <= k < 3 ensures pm'.done[k] == CountComplete(pm'.slots, Start(pm', k), Start(pm', k + 1)) {
        CountUpdate(pm.slots, i, s, Start(pm, k), Start(pm, k + 1));
      }
    }
  }

  /** The fragment goes to slot `i`, which it may not find complete if it has no data. */
  predicate Counts(slots: seq<Slot>, p: PackedRR) {
    p.Fragment? ==>
      && p.frag.rrid != 0
      && var i := FindSlot(slots, p.frag.rrid); i < |slots| && slots[i].complete ==> p.frag.fragsize > 0
  }

  lemma {:induction false} ItemTallies(form: Form, pm: Partial, p: PackedRR, section: nat)
    requires Tallied(pm) && p.Sized() && section < 3 && CopyItem(form, pm, p, section).Ok? && Counts(pm.slots, p)
    ensures Tallied(CopyItem(form, pm, p, section).value)
  {
    match p {
      case Fragment(f) =>
        var i := FindSlot(pm.slots, f.rrid);
        AbsorbTrims(form, pm.slots[i], f);
        hide Absorb, Counted, Trim, Tallied;
        TalliedStep(pm, i, Absorb(form, pm.slots[i], f).value);
      case Whole(rr) =>
        var j := FindEmpty(pm.slots, Start(pm, section), Start(pm, section + 1));
        if j < Start(pm, section + 1) {
          assert Trim(StoreWhole(pm.slots[j], rr)) && StoreWhole(pm.slots[j], rr).complete;
          hide StoreWhole, Counted, Trim, Tallied;
          TalliedStep(pm, j, StoreWhole(pm.slots[j], rr));
        }
    }
  }

  /** With a slot that never gets complete the message does not either. */
  lemma {:induction false} TalliedIsIncomplete(pm: Partial, i: nat)
    requires Tallied(pm) && Hopeless(pm.slots, i, false)
    ensures !MessageComplete(pm)
  {
    CountersDecide(pm);
    assert !pm.slots[i].complete;
  }

  // ----- Follow-ups

  predicate Asks(f: Frag) { f.rrid != 0 && f.fragsize > 0 }

  lemma {:induction false} AskAsks(s: Slot, cursize: u16, maxUdp: nat)
    requires Trim(s) && cursize < maxUdp <= 65530
    ensures var a := AskFor(s, cursize, maxUdp);
      a.All? || a.Part? ==>
        a.frag.rrid == s.rrid && a.frag.fragsize > 0 && a.slot == s.(markers := a.slot.markers) && Trim(a.slot)
  {
    hide FirstFree, FreeBlocks, Mark;
    SomeFree(s.markers, 0);
  }

  lemma {:induction false} IdsAreNonzero(slots: seq<Slot>, lo: nat, hi: nat)
    requires lo <= hi <= |slots|
    ensures forall t :: 0 <= t < |IncompleteIds(slots, lo, hi)| ==> IncompleteIds(slots, lo, hi)[t] != 0
    decreases hi - lo
  {
    if lo < hi {
      IdsAreNonzero(slots, lo + 1, hi);
    }
  }

  /** The packing so far asks for data only, and has changed markers only. */
  ghost predicate Packs(pm: Partial, k: Packing) {
    && |k.slots| == |pm.slots| && Tallied(pm.(slots := k.slots))
    && forall a :: 0 <= a < |k.frags| ==> Asks(k.frags[a])
  }

  lemma {:induction false} PacksOn(pm: Partial, k: Packing, j: nat, a: Ask, maxUdp: nat)
    requires Packs(pm, k) && j < |k.slots| && k.slots[j].rrid != 0 && k.size < maxUdp <= 65530
    requires a == AskFor(k.slots[j], k.size, maxUdp) && (a.All? || a.Part?)
    ensures Packs(pm, Packing(k.slots[j := a.slot], k.frags + [a.frag], a.size))
  {
    hide AskFor, Trim, Counted;
    AskAsks(k.slots[j], k.size, maxUdp);
    TalliedStep(pm.(slots := k.slots), j, a.slot);
  }

  lemma {:induction false} PackFromPacks(pm: Partial, k: Packing, lo: nat, hi: nat, ids: seq<u16>, n: nat, t: nat,
                                         maxUdp: nat)
    requires lo <= hi <= |k.slots| && PackFrom(k, lo, hi, ids, n, t, maxUdp).Ok? && Packs(pm, k) && maxUdp <= 65530
    requires forall i :: 0 <= i < |ids| ==> ids[i] != 0
    ensures Packs(pm, PackFrom(k, lo, hi, ids, n, t, maxUdp).value)
    decreases n - t
  {
    if t < n && k.size < maxUdp {
      var j := FindSlot(k.slots[..hi], ids[t], lo);
      var a := AskFor(k.slots[j], k.size, maxUdp);
      if a.All? || a.Part? {
        PacksOn(pm, k, j, a, maxUdp);
      }
      hide AskFor, FindSlot, Packs;
      match a
      case Nothing => PackFromPacks(pm, k, lo, hi, ids, n, t + 1, maxUdp);
      case All(f, s, size) =>
        PackFromPacks(pm, Packing(k.slots[j := s], k.frags + [f], size), lo, hi, ids, n, t + 1, maxUdp);
      case Part(f, s, size) =>
      case NoRoom =>
    }
  }

  lemma {:induction false} PackAllPacks(pm: Partial, maxUdp: nat)
    requires Tallied(pm) && PackAll(pm, maxUdp).Ok? && maxUdp <= 65530
    ensures Packs(pm, PackAll(pm, maxUdp).value)
  {
    var k := Packing(pm.slots, [], 12);
    assert pm.(slots := pm.slots) == pm;
    hide PackFrom, Packs, Tallied, IncompleteIds, NotComplete;
    SectionPacks(pm, k, 0, maxUdp);
    var k0 := PackSection(k, pm, 0, maxUdp).value;
    SectionPacks(pm, k0, 1, maxUdp);
    SectionPacks(pm, PackSection(k0, pm, 1, maxUdp).value, 2, maxUdp);
  }

  lemma {:induction false} SectionPacks(pm: Partial, k: Packing, section: nat, maxUdp: nat)
    requires pm.Shaped() && |k.slots| == |pm.slots| && section < 3 && PackSection(k, pm, section, maxUdp).Ok?
    requires Packs(pm, k) && maxUdp <= 65530
    ensures Packs(pm, PackSection(k, pm, section, maxUdp).value)
  {
    hide PackFrom, Packs;
    var lo, hi := Start(pm, section), Start(pm, section + 1);
    IdsAreNonzero(pm.slots, lo, hi);
    PackFromPacks(pm, k, lo, hi, IncompleteIds(pm.slots, lo, hi), NotComplete(pm.slots, lo, hi), 0, maxUdp);
  }

  // ----- Their answers

  lemma {:induction false} SlicesAsk(cache: Cache, fs: seq<Frag>)
    requires AnswerSlices(cache, fs).Ok? && forall a :: 0 <= a < |fs| ==> Asks(fs[a])
    ensures var gs := AnswerSlices(cache, fs).value;
      forall a :: 0 <= a < |gs| ==> gs[a].Sized() && gs[a].data.Some? && Asks(gs[a])
  {
    hide RecordToBytes;
    if fs != [] {
      SlicesAsk(cache, fs[1..]);
    }
  }

  lemma {:induction false} AnswersTally(form: Form, pm: Partial, ps: seq<PackedRR>, section: nat)
    requires Tallied(pm) && AllSized(ps) && section < 3 && CopySection(form, pm, ps, section).Ok?
    requires forall c :: 0 <= c < |ps| ==> ps[c].Fragment? && Asks(ps[c].frag)
    ensures Tallied(CopySection(form, pm, ps, section).value)
    decreases |ps|
  {
    if ps != [] {
      assert Counts(pm.slots, ps[0]);
      hide CopyItem, Tallied;
      ItemTallies(form, pm, ps[0], section);
      AnswersTally(form, CopyItem(form, pm, ps[0], section).value, ps[1..], section);
    }
  }

  /** What the responder sends back, whatever it holds. */
  lemma {:induction false} ReplyAsks(cache: Cache, identification: u16, fs: seq<Frag>)
    returns (request: Message, gs: seq<Frag>)
    requires AllBare(fs) && SendRequest(identification, fs).Ok? && forall a :: 0 <= a < |fs| ==> Asks(fs[a])
    ensures SendRequest(identification, fs) == Ok(request)
    ensures SendReply(cache, request).Ok? ==>
      && (forall a :: 0 <= a < |gs| ==> gs[a].Sized() && Asks(gs[a])) && AllSized(AsRecords(gs))
      && var m := SendReply(cache, request).value;
         m.questions == [] && m.answers == AsRecords(gs) && m.authoritative == [] && m.additional == []
  {
    RequestArrives(identification, fs);
    request := SendRequest(identification, fs).value;
    FragsOfRecords(fs);
    hide SendRequest, FragsOf, Transmit, MarkResponse, QueryFlags;
    gs := [];
    if Answer(cache, request).Ok? {
      gs := AnswerSlices(cache, fs).value;
      SlicesAsk(cache, fs);
      ReplyArrives(identification, MarkResponse(request.flags), gs);
    }
  }

  lemma {:induction false} CopyAnswers(form: Form, pm: Partial, m: Message)
    requires pm.Shaped() && pm.known && m.Sized() && m.authoritative == [] && m.additional == []
    requires CopyMessage(form, pm, m).Ok?
    ensures CopySection(form, pm, m.answers, 0) == CopyMessage(form, pm, m)
  {
    hide CopyItem;
  }

  lemma {:induction false} RoundTallies(form: Form, cache: Cache, pm: Partial, identification: u16, maxUdp: nat)
    requires Tallied(pm) && maxUdp <= 65530 && Round(form, cache, pm, identification, maxUdp).Ok?
    ensures Tallied(Round(form, cache, pm, identification, maxUdp).value)
  {
    hide PackAll, SendRequest, SendReply, CopyMessage, CopySection, Counted, Trim;
    PackAllPacks(pm, maxUdp);
    PackedIsBare(pm, maxUdp);
    var k := PackAll(pm, maxUdp).value;
    var request, gs := ReplyAsks(cache, identification, k.frags);
    var pm' := pm.(slots := k.slots);
    if request.ContainsFrag() {
      var m := SendReply(cache, request).value;
      CopyAnswers(form, pm', m);
      hide Tallied;
      AnswersTally(form, pm', m.answers, 0);
    }
  }

  lemma {:induction false} RunTallies(form: Form, cache: Cache, pm: Partial, identification: u16, maxUdp: nat,
                                      rounds: nat)
    requires Tallied(pm) && maxUdp <= 65530 && Run(form, cache, pm, identification, maxUdp, rounds).Ok?
    ensures Tallied(Run(form, cache, pm, identification, maxUdp, rounds).value)
    decreases rounds
  {
    hide Round, MessageComplete, Counted, Trim;
    if rounds > 0 && !MessageComplete(pm) {
      RoundTallies(form, cache, pm, identification, maxUdp);
      var pm' := Round(form, cache, pm, identification, maxUdp).value;
      hide Tallied;
      RunTallies(form, cache, pm', identification, maxUdp, rounds - 1);
    }
  }

  // ----- The first reply

  /** A first piece of a record of n bytes, short of its end. */
  predicate ShortOf(f: Frag, n: nat) {
    f.rrid != 0 && f.curidx == 0 && f.rrsize == n && f.fragsize % 32 == 0 && f.fragsize < n
  }

  /** The last block of the slot's record has not arrived. */
  predicate Young(s: Slot, n: nat) {
    s.rrid != 0 ==>
      && !s.complete
      && (s.started ==> s.rrsize == n > 0 && |s.markers| == Blocks(n) && s.markers[|s.markers| - 1] != RECVD)
  }

  ghost predicate AllYoung(slots: seq<Slot>, size: u16 -> nat) {
    forall i :: 0 <= i < |slots| ==> Young(slots[i], size(slots[i].rrid))
  }

  /** Pieces of one record do not differ about its length. */
  ghost predicate AllShort(ps: seq<PackedRR>, size: u16 -> nat) {
    forall c :: 0 <= c < |ps| && ps[c].Fragment? ==> ShortOf(ps[c].frag, size(ps[c].frag.rrid))
  }

  lemma {:induction false} TakeKeeps(form: Form, s: Slot, f: Frag)
    requires f.Sized() && Take(form, s, f).Ok?
    ensures var t := Take(form, s, f).value;
      t == s.(bytes := t.bytes, headers := t.headers, headersCapacity := t.headersCapacity)
  {
    hide CheckFree, Grow, GrowHeaders, Splice, Cells, JunkCells;
  }

  lemma {:induction false} SettleStaysYoung(form: Form, s: Slot, f: Frag, n: nat)
    requires s.started && s.rrid != 0 && Young(s, n) && ShortOf(f, n) && Settle(form, s, f).Ok?
    ensures var s' := Settle(form, s, f).value;
      s'.rrid == s.rrid && Young(s', n)
  {
    hide Scatter, Total, HeadersFit;
    assert f.fragsize / 32 <= |s.markers| - 1;
  }

  lemma {:induction false} AbsorbStaysYoung(form: Form, s: Slot, f: Frag, n: nat)
    requires f.Sized() && s.rrid == f.rrid && Young(s, n) && ShortOf(f, n) && Absorb(form, s, f).Ok?
    ensures Absorb(form, s, f).value.rrid == s.rrid && Young(Absorb(form, s, f).value, n)
  {
    assert Young(Begin(form, s, f), n) && Begin(form, s, f).started && Begin(form, s, f).rrid == s.rrid;
    hide Begin, Take, Settle;
    TakeKeeps(form, Begin(form, s, f), f);
    SettleStaysYoung(form, Take(form, Begin(form, s, f), f).value, f, n);
  }

  lemma {:induction false} ItemStaysYoung(form: Form, pm: Partial, p: PackedRR, section: nat, size: u16 -> nat)
    requires Tallied(pm) && AllYoung(pm.slots, size) && p.Sized() && section < 3 && CopyItem(form, pm, p, section).Ok?
    requires p.Fragment? ==> ShortOf(p.frag, size(p.frag.rrid))
    ensures Tallied(CopyItem(form, pm, p, section).value)
    ensures AllYoung(CopyItem(form, pm, p, section).value.slots, size)
  {
    hide Tallied, Counts, Absorb, StoreWhole, Young, ShortOf;
    TalliedIsShaped(pm);
    YoungCounts(pm.slots, p, size);
    ItemTallies(form, pm, p, section);
    match p {
      case Fragment(f) =>
        var i := FindSlot(pm.slots, f.rrid);
        assert Young(pm.slots[i], size(pm.slots[i].rrid));
        AbsorbStaysYoung(form, pm.slots[i], f, size(f.rrid));
      case Whole(rr) =>
        var j := FindEmpty(pm.slots, Start(pm, section), Start(pm, section + 1));
        if j < Start(pm, section + 1) {
          StoredIsYoung(pm.slots[j], rr, size);
        }
    }
  }

  lemma {:induction false} YoungCounts(slots: seq<Slot>, p: PackedRR, size: u16 -> nat)
    requires AllYoung(slots, size) && (p.Fragment? ==> ShortOf(p.frag, size(p.frag.rrid)))
    ensures Counts(slots, p)
  {
    if p.Fragment? {
      var i := FindSlot(slots, p.frag.rrid);
      assert i < |slots| ==> Young(slots[i], size(slots[i].rrid));
    }
  }

  lemma {:induction false} StoredIsYoung(s: Slot, rr: ResourceRecord, size: u16 -> nat)
    requires rr.Sized() && s.rrid == 0
    ensures StoreWhole(s, rr).rrid == 0 && Young(StoreWhole(s, rr), size(0))
  {
  }

  lemma {:induction false} SectionStaysYoung(form: Form, pm: Partial, ps: seq<PackedRR>, section: nat, size: u16 -> nat)
    requires Tallied(pm) && AllYoung(pm.slots, size) && AllSized(ps) && section < 3
    requires CopySection(form, pm, ps, section).Ok? && AllShort(ps, size)
    ensures Tallied(CopySection(form, pm, ps, section).value)
    ensures AllYoung(CopySection(form, pm, ps, section).value.slots, size)
    decreases |ps|
  {
    hide Tallied, AllYoung, ShortOf, CopyItem;
    TalliedIsShaped(pm);
    if ps != [] {
      ItemStaysYoung(form, pm, ps[0], section, size);
      SectionStaysYoung(form, CopyItem(form, pm, ps[0], section).value, ps[1..], section, size);
    }
  }

  lemma {:induction false} TalliedIsShaped(pm: Partial)
    requires Tallied(pm)
    ensures pm.Shaped() && pm.known
  {
  }

  lemma {:induction false} FirstTallies(form: Form, got: Message, size: u16 -> nat)
    requires got.Sized() && AllShort(got.Records(), size) && Begun(form, got).Ok?
    ensures Tallied(Begun(form, got).value) && AllYoung(Begun(form, got).value.slots, size)
  {
    var pm := FirstPartial(got);
    BegunIs(form, got);
    StartsTallied(got, size);
    RecordsAt(got);
    assert AllShort(got.answers, size) && AllShort(got.authoritative, size) && AllShort(got.additional, size);
    hide CopySection, CopySections, Begun, Tallied, AllYoung, AllShort, AllSized;
    var pm1, pm2 := ThreeSections(form, pm, got);
    SectionStaysYoung(form, pm, got.answers, 0, size);
    SectionStaysYoung(form, pm1, got.authoritative, 1, size);
    SectionStaysYoung(form, pm2, got.additional, 2, size);
  }

  lemma {:induction false} StartsTallied(got: Message, size: u16 -> nat)
    ensures Tallied(FirstPartial(got)) && AllYoung(FirstPartial(got).slots, size)
  {
    var pm := FirstPartial(got);
    forall k | 0 <= k < 3 ensures CountComplete(pm.slots, Start(pm, k), Start(pm, k + 1)) == 0 {
      NoneComplete(pm.slots, Start(pm, k), Start(pm, k + 1));
    }
  }

  /** No run completes after a first reply of pieces short of their ends, two of
      which have the same rrid. */
  lemma {:induction false} SharedNeverCompletes(form: Form, cache: Cache, first: Message, size: u16 -> nat,
                                                identification: u16, maxUdp: nat, rounds: nat, i: nat)
    requires MessageFits(first) && !first.IsQuery() && maxUdp <= 65530
    requires SharesRrid(first, i) && AllShort(first.Records(), size)
    ensures NeverCompletes(form, cache, first, identification, maxUdp, rounds)
  {
    var got := ReceivedMessage(first);
    FitsArrives(first);
    SameFaults(first, got, i);
    SameShort(first, got, size);
    hide MessageFits, Arrives, SharesRrid, AdvertisesNothing, Hopeless, Transmit, Begun, Run, AllShort, Tallied;
    if AfterFirst(form, first).Ok? {
      FirstIsHopeless(form, got, i);
      FirstTallies(form, got, size);
      var pm := AfterFirst(form, first).value;
      var r := Run(form, cache, pm, identification, maxUdp, rounds);
      if r.Ok? {
        RunStaysHopeless(form, cache, pm, identification, maxUdp, rounds, i, false);
        RunTallies(form, cache, pm, identification, maxUdp, rounds);
        TalliedIsIncomplete(r.value, i);
      }
    }
  }

  ghost predicate NeverCompletes(form: Form, cache: Cache, first: Message, identification: u16, maxUdp: nat,
                                 rounds: nat)
    requires first.Sized()
  {
    AfterFirst(form, first).Ok? ==>
      var r := Run(form, cache, AfterFirst(form, first).value, identification, maxUdp, rounds);
      r.Ok? ==> !MessageComplete(r.value)
  }

  lemma {:induction false} SameShort(first: Message, got: Message, size: u16 -> nat)
    requires Arrives(first, got) && AllShort(first.Records(), size)
    ensures AllShort(got.Records(), size)
  {
    hide Transmit;
  }
}
