/**
 First replies that no run can repair: a record advertised with length 0, and two
 records in pieces under one rrid. Nothing is assumed here about what the
 responder's cache holds.
 */
module Failures {
  import opened Wire
  import opened Records
  import opened Messages
  import opened Reassembly
  import opened Requester
  import opened Responder
  import opened Delivery
  import opened Asking
  import opened Session
  import opened EndToEnd

  // ----- Slots from which no record can be read

  /** Taken for a complete record of no bytes. */
  predicate Emptied(s: Slot) { s.started && s.complete && s.rrsize == 0 }

  /** Behind a slot with the same rrid, so that find_partialrr never gets to it. */
  predicate Shadowed(slots: seq<Slot>, i: nat)
    requires i < |slots|
  {
    slots[i] == NewSlot(slots[i].rrid) && FindSlot(slots, slots[i].rrid) < i
  }

  /** No record will ever be read from slot i: it has been emptied, or else it is
      shadowed. */
  predicate Hopeless(slots: seq<Slot>, i: nat, empty: bool) {
    i < |slots| && slots[i].rrid != 0 && if empty then Emptied(slots[i]) else Shadowed(slots, i)
  }

  predicate SameRrids(slots: seq<Slot>, slots': seq<Slot>) {
    |slots| == |slots'| && forall i :: 0 <= i < |slots| ==> slots'[i].rrid == slots[i].rrid
  }

  lemma {:induction false} FindSame(slots: seq<Slot>, slots': seq<Slot>, rrid: u16)
    requires SameRrids(slots, slots')
    ensures FindSlot(slots', rrid) == FindSlot(slots, rrid)
  {
    var i, j := FindSlot(slots, rrid), FindSlot(slots', rrid);
    assert i >= j && j >= i;
  }

  lemma {:induction false} StillHopeless(slots: seq<Slot>, slots': seq<Slot>, i: nat, empty: bool)
    requires Hopeless(slots, i, empty) && SameRrids(slots, slots')
    requires slots'[i] == slots[i] || (Emptied(slots[i]) && Emptied(slots'[i]))
    ensures Hopeless(slots', i, empty)
  {
    FindSame(slots, slots', slots[i].rrid);
  }

  lemma {:induction false} AbsorbKeeps(form: Form, s: Slot, f: Frag)
    requires f.Sized() && Absorb(form, s, f).Ok?
    ensures Absorb(form, s, f).value.rrid == s.rrid
    ensures Emptied(s) ==> Emptied(Absorb(form, s, f).value)
  {
    hide Scatter, Total, HeadersFit, CheckFree, Grow, GrowHeaders, Splice, Mark, Blocks, Cells;
  }

  /** Whatever arrives, a hopeless slot stays hopeless. */
  lemma {:induction false} CopyItemKeeps(form: Form, pm: Partial, p: PackedRR, section: nat, i: nat, empty: bool)
    requires pm.Shaped() && p.Sized() && section < 3 && CopyItem(form, pm, p, section).Ok?
    ensures var r := CopyItem(form, pm, p, section).value;
      && SameRrids(pm.slots, r.slots) && r.known == pm.known
      && (Hopeless(pm.slots, i, empty) ==> Hopeless(r.slots, i, empty))
  {
    hide Absorb, StoreWhole, Hopeless, SectionOf;
    match p {
      case Fragment(f) =>
        var j := FindSlot(pm.slots, f.rrid);
        AbsorbKeeps(form, pm.slots[j], f);
        UpdateKeeps(pm.slots, j, Absorb(form, pm.slots[j], f).value, i, empty);
      case Whole(rr) =>
        var hi := Start(pm, section + 1);
        var j := FindEmpty(pm.slots, Start(pm, section), hi);
        if j < hi {
          StoreKeepsRrid(pm.slots, rr);
          UpdateKeeps(pm.slots, j, StoreWhole(pm.slots[j], rr), i, empty);
        }
    }
  }

  /** A slot that changes as hopeless slots do. */
  lemma {:induction false} UpdateKeeps(slots: seq<Slot>, j: nat, s: Slot, i: nat, empty: bool)
    requires j < |slots| && s.rrid == slots[j].rrid
    requires slots[j].rrid == 0 || j == FindSlot(slots, s.rrid)
    requires Emptied(slots[j]) ==> Emptied(s) || slots[j].rrid == 0
    ensures SameRrids(slots, slots[j := s]) && (Hopeless(slots, i, empty) ==> Hopeless(slots[j := s], i, empty))
  {
    if Hopeless(slots, i, empty) {
      StillHopeless(slots, slots[j := s], i, empty);
    }
  }

  lemma {:induction false} StoreKeepsRrid(slots: seq<Slot>, rr: ResourceRecord)
    requires rr.Sized()
    ensures forall j :: 0 <= j < |slots| ==> StoreWhole(slots[j], rr).rrid == slots[j].rrid
  {
  }

  lemma {:induction false} CopySectionKeeps(form: Form, pm: Partial, ps: seq<PackedRR>, section: nat, i: nat,
                                            empty: bool)
    requires pm.Shaped() && AllSized(ps) && section < 3 && CopySection(form, pm, ps, section).Ok?
    ensures var r := CopySection(form, pm, ps, section).value;
      && SameRrids(pm.slots, r.slots) && r.known == pm.known
      && (Hopeless(pm.slots, i, empty) ==> Hopeless(r.slots, i, empty))
    decreases |ps|
  {
    hide CopyItem, Hopeless;
    if ps != [] {
      CopyItemKeeps(form, pm, ps[0], section, i, empty);
      CopySectionKeeps(form, CopyItem(form, pm, ps[0], section).value, ps[1..], section, i, empty);
    }
  }

  /** The three sections of a message that goes in. */
  lemma {:induction false} ThreeSections(form: Form, pm: Partial, m: Message) returns (pm1: Partial, pm2: Partial)
    requires pm.Shaped() && m.Sized() && CopySections(form, pm, m).Ok?
    ensures pm1.Shaped() && pm2.Shaped()
    ensures AllSized(m.answers) && AllSized(m.authoritative) && AllSized(m.additional)
    ensures CopySection(form, pm, m.answers, 0) == Ok(pm1)
    ensures CopySection(form, pm1, m.authoritative, 1) == Ok(pm2)
    ensures CopySection(form, pm2, m.additional, 2) == CopySections(form, pm, m)
  {
    hide CopySection;
    pm1 := CopySection(form, pm, m.answers, 0).value;
    pm2 := CopySection(form, pm1, m.authoritative, 1).value;
  }

  lemma {:induction false} CopySectionsKeep(form: Form, pm: Partial, m: Message, i: nat, empty: bool)
    requires pm.Shaped() && m.Sized() && CopySections(form, pm, m).Ok?
    ensures var r := CopySections(form, pm, m).value;
      r.known == pm.known && (Hopeless(pm.slots, i, empty) ==> Hopeless(r.slots, i, empty))
  {
    hide CopySection, CopySections, Hopeless, SameRrids, AllSized;
    var pm1, pm2 := ThreeSections(form, pm, m);
    CopySectionKeeps(form, pm, m.answers, 0, i, empty);
    CopySectionKeeps(form, pm1, m.authoritative, 1, i, empty);
    CopySectionKeeps(form, pm2, m.additional, 2, i, empty);
  }

  lemma {:induction false} CopyMessageKeeps(form: Form, pm: Partial, m: Message, i: nat, empty: bool)
    requires pm.Shaped() && pm.known && m.Sized() && CopyMessage(form, pm, m).Ok?
    ensures var r := CopyMessage(form, pm, m).value;
      r.known && (Hopeless(pm.slots, i, empty) ==> Hopeless(r.slots, i, empty))
  {
    hide CopySections, Hopeless;
    CopySectionsKeep(form, pm, m, i, empty);
  }

  /** Asking changes markers only, and asks nothing of a slot without any. */
  lemma {:induction false} AskKeeps(s: Slot, cursize: u16, maxUdp: nat)
    requires cursize < maxUdp
    ensures var a := AskFor(s, cursize, maxUdp);
      && (a.All? || a.Part? ==> a.slot == s.(markers := a.slot.markers) && |a.slot.markers| == |s.markers| > 0)
  {
    hide FreeBlocks, Mark;
  }

  lemma {:induction false} PackFromKeeps(k: Packing, lo: nat, hi: nat, ids: seq<u16>, n: nat, t: nat, maxUdp: nat,
                                         i: nat, empty: bool)
    requires lo <= hi <= |k.slots| && PackFrom(k, lo, hi, ids, n, t, maxUdp).Ok?
    ensures var r := PackFrom(k, lo, hi, ids, n, t, maxUdp).value;
      SameRrids(k.slots, r.slots) && (Hopeless(k.slots, i, empty) ==> Hopeless(r.slots, i, empty))
    decreases n - t
  {
    if t < n && k.size < maxUdp {
      var j := FindSlot(k.slots[..hi], ids[t], lo);
      var s := k.slots[j];
      AskKeeps(s, k.size, maxUdp);
      hide AskFor, FindSlot, Hopeless;
      match AskFor(s, k.size, maxUdp)
      case Nothing => PackFromKeeps(k, lo, hi, ids, n, t + 1, maxUdp, i, empty);
      case All(f, s', size) =>
        MarkedKeeps(k.slots, j, s', i, empty);
        PackFromKeeps(Packing(k.slots[j := s'], k.frags + [f], size), lo, hi, ids, n, t + 1, maxUdp, i, empty);
      case Part(f, s', size) => MarkedKeeps(k.slots, j, s', i, empty);
      case NoRoom =>
    }
  }

  lemma {:induction false} MarkedKeeps(slots: seq<Slot>, j: nat, s': Slot, i: nat, empty: bool)
    requires j < |slots| && s' == slots[j].(markers := s'.markers) && |slots[j].markers| > 0
    ensures SameRrids(slots, slots[j := s']) && (Hopeless(slots, i, empty) ==> Hopeless(slots[j := s'], i, empty))
  {
    if Hopeless(slots, i, empty) {
      StillHopeless(slots, slots[j := s'], i, empty);
    }
  }

  lemma {:induction false} PackAllKeeps(pm: Partial, maxUdp: nat, i: nat, empty: bool)
    requires pm.Shaped() && PackAll(pm, maxUdp).Ok?
    ensures Hopeless(pm.slots, i, empty) ==> Hopeless(PackAll(pm, maxUdp).value.slots, i, empty)
  {
    hide PackFrom, Hopeless, SameRrids, IncompleteIds, NotComplete;
    var k := Packing(pm.slots, [], 12);
    SectionKeeps(pm, k, 0, maxUdp, i, empty);
    var k0 := PackSection(k, pm, 0, maxUdp).value;
    SectionKeeps(pm, k0, 1, maxUdp, i, empty);
    var k1 := PackSection(k0, pm, 1, maxUdp).value;
    SectionKeeps(pm, k1, 2, maxUdp, i, empty);
  }

  lemma {:induction false} SectionKeeps(pm: Partial, k: Packing, section: nat, maxUdp: nat, i: nat, empty: bool)
    requires pm.Shaped() && |k.slots| == |pm.slots| && section < 3 && PackSection(k, pm, section, maxUdp).Ok?
    ensures Hopeless(k.slots, i, empty) ==> Hopeless(PackSection(k, pm, section, maxUdp).value.slots, i, empty)
  {
    hide PackFrom, Hopeless, SameRrids;
    var lo, hi := Start(pm, section), Start(pm, section + 1);
    PackFromKeeps(k, lo, hi, IncompleteIds(pm.slots, lo, hi), NotComplete(pm.slots, lo, hi), 0, maxUdp, i, empty);
  }

  lemma {:induction false} RoundKeeps(form: Form, cache: Cache, pm: Partial, identification: u16, maxUdp: nat, i: nat,
                                      empty: bool)
    requires pm.Shaped() && pm.known && Hopeless(pm.slots, i, empty)
    requires Round(form, cache, pm, identification, maxUdp).Ok?
    ensures var r := Round(form, cache, pm, identification, maxUdp).value;
      r.known && Hopeless(r.slots, i, empty)
  {
    hide PackAll, Hopeless, SendRequest, SendReply, CopyMessage;
    PackAllKeeps(pm, maxUdp, i, empty);
    PackedIsBare(pm, maxUdp);
    var k := PackAll(pm, maxUdp).value;
    var request := SendRequest(identification, k.frags).value;
    if request.ContainsFrag() {
      CopyMessageKeeps(form, pm.(slots := k.slots), SendReply(cache, request).value, i, empty);
    }
  }

  lemma {:induction false} RunStaysHopeless(form: Form, cache: Cache, pm: Partial, identification: u16, maxUdp: nat,
                                            rounds: nat, i: nat, empty: bool)
    requires pm.Shaped() && pm.known && Hopeless(pm.slots, i, empty)
    requires Run(form, cache, pm, identification, maxUdp, rounds).Ok?
    ensures Hopeless(Run(form, cache, pm, identification, maxUdp, rounds).value.slots, i, empty)
    decreases rounds
  {
    hide Round, Hopeless, MessageComplete;
    if rounds > 0 && !MessageComplete(pm) {
      RoundKeeps(form, cache, pm, identification, maxUdp, i, empty);
      RunStaysHopeless(form, cache, Round(form, cache, pm, identification, maxUdp).value, identification, maxUdp,
                       rounds - 1, i, empty);
    }
  }

  /** No record can be read from a hopeless slot, and so no message at all. */
  lemma {:induction false} HopelessIsUnreadable(pm: Partial, i: nat, empty: bool)
    requires pm.Shaped() && Hopeless(pm.slots, i, empty)
    ensures PartialToMessage(pm).Err?
  {
    NothingToRead(pm.slots[i]);
    hide SlotToRecord, Hopeless, MessageComplete;
    OneUnreadable(pm.slots, i);
  }

  lemma {:induction false} NothingToRead(s: Slot)
    requires s.rrsize == 0
    ensures SlotToRecord(s).Err?
  {
    assert s.bytes[..0] == [];
    assert |DefinedBytes([]).value| == |Cells(DefinedBytes([]).value)| == 0;
    assert DefinedBytes([]).value == [];
    assert FirstZero([]) == 0;
  }

  lemma {:induction false} OneUnreadable(slots: seq<Slot>, i: nat)
    requires i < |slots| && SlotToRecord(slots[i]).Err?
    ensures SlotsToRecords(slots).Err?
  {
    hide SlotToRecord;
    if i > 0 {
      OneUnreadable(slots[1..], i - 1);
    }
  }

  // ----- The first reply

  /** The fragment advertises a record of no bytes. */
  predicate ZeroLength(f: Frag) {
    f.rrid != 0 && f.fragsize == 0 && f.curidx == 0 && f.rrsize == 0
  }

  /** Record i of the message is a fragment, and an earlier one has its rrid. */
  predicate SharesRrid(m: Message, i: nat) {
    && i < |m.Records()| && m.Records()[i].Fragment? && m.Records()[i].frag.rrid != 0
    && exists a :: 0 <= a < i && m.Records()[a].Fragment? && m.Records()[a].frag.rrid == m.Records()[i].frag.rrid
  }

  predicate AdvertisesNothing(m: Message, i: nat) {
    i < |m.Records()| && m.Records()[i].Fragment? && ZeroLength(m.Records()[i].frag)
  }

  /** Slot i waits for the fragments with its rrid. */
  predicate Fresh(slots: seq<Slot>, i: nat, rrid: u16) {
    i < |slots| && slots[i] == NewSlot(rrid) && FindSlot(slots, rrid) == i && rrid != 0
  }

  predicate HasRrid(p: PackedRR, rrid: u16) { p.Fragment? && p.frag.rrid == rrid }

  /** The first n records have other rrids. */
  predicate NoneWith(ps: seq<PackedRR>, n: nat, rrid: u16)
    requires n <= |ps|
  {
    forall c :: 0 <= c < n ==> !HasRrid(ps[c], rrid)
  }

  /** Record c is the first fragment with its rrid, and has no bytes. */
  predicate ZeroAt(ps: seq<PackedRR>, c: nat, rrid: u16) {
    && c < |ps| && ps[c].Fragment? && ps[c].frag.rrid == rrid && ZeroLength(ps[c].frag)
    && NoneWith(ps, c, rrid)
  }

  /** Records of other slots pass it by. */
  lemma {:induction false} ItemPasses(form: Form, pm: Partial, p: PackedRR, section: nat, i: nat, rrid: u16)
    requires pm.Shaped() && p.Sized() && section < 3 && CopyItem(form, pm, p, section).Ok?
    requires Fresh(pm.slots, i, rrid) && !HasRrid(p, rrid)
    ensures Fresh(CopyItem(form, pm, p, section).value.slots, i, rrid)
  {
    hide Absorb, StoreWhole;
    CopyItemKeeps(form, pm, p, section, i, true);
    FindSame(pm.slots, CopyItem(form, pm, p, section).value.slots, rrid);
  }

  lemma {:induction false} SectionPasses(form: Form, pm: Partial, ps: seq<PackedRR>, section: nat, i: nat, rrid: u16)
    requires pm.Shaped() && AllSized(ps) && section < 3 && CopySection(form, pm, ps, section).Ok?
    requires Fresh(pm.slots, i, rrid) && NoneWith(ps, |ps|, rrid)
    ensures Fresh(CopySection(form, pm, ps, section).value.slots, i, rrid)
    decreases |ps|
  {
    hide CopyItem, Fresh, HasRrid;
    if ps != [] {
      ItemPasses(form, pm, ps[0], section, i, rrid);
      SectionPasses(form, CopyItem(form, pm, ps[0], section).value, ps[1..], section, i, rrid);
    }
  }

  /** Its own fragment, of no bytes, makes it hopeless. */
  lemma {:induction false} ZeroEmpties(form: Form, pm: Partial, f: Frag, section: nat, i: nat)
    requires pm.Shaped() && f.Sized() && section < 3 && Fresh(pm.slots, i, f.rrid) && ZeroLength(f)
    requires CopyItem(form, pm, Fragment(f), section).Ok?
    ensures Hopeless(CopyItem(form, pm, Fragment(f), section).value.slots, i, true)
  {
    hide Absorb;
    AbsorbZero(form, pm.slots[i], f);
  }

  lemma {:induction false} AbsorbZero(form: Form, s: Slot, f: Frag)
    requires f.Sized() && s == NewSlot(f.rrid) && ZeroLength(f) && Absorb(form, s, f).Ok?
    ensures Absorb(form, s, f).value.rrid == s.rrid && Emptied(Absorb(form, s, f).value)
  {
    hide Scatter, Total, HeadersFit, CheckFree, Grow, GrowHeaders, Splice, Cells;
    AbsorbKeeps(form, s, f);
    assert Begin(form, s, f).markers == [];
    assert Mark([], 0, 0, RECVD) == [];
  }

  lemma {:induction false} SectionEmpties(form: Form, pm: Partial, ps: seq<PackedRR>, section: nat, i: nat, c: nat,
                                          rrid: u16)
    requires pm.Shaped() && AllSized(ps) && section < 3 && CopySection(form, pm, ps, section).Ok?
    requires ZeroAt(ps, c, rrid) && Fresh(pm.slots, i, rrid)
    ensures Hopeless(CopySection(form, pm, ps, section).value.slots, i, true)
    decreases |ps|
  {
    hide CopyItem, Fresh, HasRrid, Hopeless, ZeroLength;
    var pm' := CopyItem(form, pm, ps[0], section).value;
    if c == 0 {
      ZeroEmpties(form, pm, ps[0].frag, section, i);
      CopySectionKeeps(form, pm', ps[1..], section, i, true);
    } else {
      assert ps[1..][c - 1] == ps[c] && forall d :: 0 <= d < c - 1 ==> ps[1..][d] == ps[d + 1];
      ItemPasses(form, pm, ps[0], section, i, rrid);
      SectionEmpties(form, pm', ps[1..], section, i, c - 1, rrid);
    }
  }

  /** What arrives of a first reply, record by record. */
  ghost predicate Arrives(first: Message, got: Message) {
    && first.Sized() && got.Sized() && Transmit(first) == Ok(got)
    && |got.Records()| == |first.Records()|
    && forall i :: 0 <= i < |first.Records()| ==> got.Records()[i] == ReceivedPacked(first.Records()[i], false)
  }

  lemma {:induction false} FitsArrives(first: Message)
    requires MessageFits(first) && !first.IsQuery()
    ensures Arrives(first, ReceivedMessage(first))
  {
    hide MessageToBytes, MessageFromBytes, ReceivedPacked, SectionFits;
    MessageRoundTrip(first);
    ReceivedRecords(first);
    DecodedIsSized(MessageToBytes(first).value);
  }

  /** The records of a message, section by section. */
  lemma {:induction false} RecordsAt(m: Message)
    ensures forall c :: 0 <= c < |m.answers| ==> m.answers[c] == m.Records()[c]
    ensures forall c :: 0 <= c < |m.authoritative| ==> m.authoritative[c] == m.Records()[|m.answers| + c]
    ensures forall c :: 0 <= c < |m.additional| ==>
      m.additional[c] == m.Records()[|m.answers| + |m.authoritative| + c]
  {
  }

  /** The section in which the record stands, and those before it. */
  lemma {:induction false} ZeroInSection(got: Message, i: nat)
    requires AdvertisesNothing(got, i) && !SharesRrid(got, i)
    ensures i < |got.Records()| && got.Records()[i].Fragment?
    ensures var an, ns, rrid := |got.answers|, |got.authoritative|, got.Records()[i].frag.rrid;
      && (i < an ==> ZeroAt(got.answers, i, rrid))
      && (an <= i ==> NoneWith(got.answers, an, rrid))
      && (an <= i < an + ns ==> ZeroAt(got.authoritative, i - an, rrid))
      && (an + ns <= i ==> NoneWith(got.authoritative, ns, rrid) && ZeroAt(got.additional, i - an - ns, rrid))
  {
    RecordsAt(got);
    assert forall c :: 0 <= c < i ==> !HasRrid(got.Records()[c], got.Records()[i].frag.rrid);
  }

  /** A fragment of no bytes empties its slot when the message is copied. */
  lemma {:induction false} CopyEmpties(form: Form, pm: Partial, got: Message, i: nat)
    requires pm == FirstPartial(got) && pm.Shaped() && got.Sized()
    requires AdvertisesNothing(got, i) && !SharesRrid(got, i)
    requires CopySections(form, pm, got).Ok?
    ensures Hopeless(CopySections(form, pm, got).value.slots, i, true)
  {
    hide CopySection, CopySections, Fresh, Hopeless, AllSized, SharesRrid, AdvertisesNothing, SlotsFor, ZeroAt,
         NoneWith;
    ZeroInSection(got, i);
    StartsFresh(got, i);
    var an, ns, rrid := |got.answers|, |got.authoritative|, got.Records()[i].frag.rrid;
    var pm1, pm2 := ThreeSections(form, pm, got);
    if i < an {
      SectionEmpties(form, pm, got.answers, 0, i, i, rrid);
      CopySectionKeeps(form, pm1, got.authoritative, 1, i, true);
      CopySectionKeeps(form, pm2, got.additional, 2, i, true);
    } else {
      SectionPasses(form, pm, got.answers, 0, i, rrid);
      if i < an + ns {
        SectionEmpties(form, pm1, got.authoritative, 1, i, i - an, rrid);
        CopySectionKeeps(form, pm2, got.additional, 2, i, true);
      } else {
        SectionPasses(form, pm1, got.authoritative, 1, i, rrid);
        SectionEmpties(form, pm2, got.additional, 2, i, i - an - ns, rrid);
      }
    }
  }

  lemma {:induction false} StartsFresh(got: Message, i: nat)
    requires AdvertisesNothing(got, i) && !SharesRrid(got, i)
    ensures i < |got.Records()| && got.Records()[i].Fragment?
    ensures Fresh(SlotsFor(got.Records()), i, got.Records()[i].frag.rrid)
  {
    var slots, rrid := SlotsFor(got.Records()), got.Records()[i].frag.rrid;
    forall j | 0 <= j < i ensures slots[j].rrid != rrid {
    }
    SlotIsAt(slots, i, 0);
  }

  lemma {:induction false} StartsShadowed(got: Message, i: nat)
    requires SharesRrid(got, i)
    ensures Hopeless(SlotsFor(got.Records()), i, false)
  {
    var slots := SlotsFor(got.Records());
    var a :| 0 <= a < i && got.Records()[a].Fragment? && got.Records()[a].frag.rrid == got.Records()[i].frag.rrid;
    assert slots[a].rrid == slots[i].rrid;
  }

  /** A first reply with such a fragment leaves a hopeless slot behind. */
  lemma {:induction false} FirstIsHopeless(form: Form, got: Message, i: nat)
    requires got.Sized() && (AdvertisesNothing(got, i) || SharesRrid(got, i))
    requires Begun(form, got).Ok?
    ensures var r := Begun(form, got).value;
      r.known && Hopeless(r.slots, i, !SharesRrid(got, i))
  {
    hide CopySections, Hopeless, AdvertisesNothing, SharesRrid, AllSized, Begun, SlotsFor;
    var pm := FirstPartial(got);
    BegunIs(form, got);
    RecordsSized(got);
    CopySectionsKeep(form, pm, got, i, !SharesRrid(got, i));
    if SharesRrid(got, i) {
      StartsShadowed(got, i);
    } else {
      CopyEmpties(form, pm, got, i);
    }
  }

  lemma {:induction false} RecordsSized(m: Message)
    requires m.Sized()
    ensures AllSized(m.Records())
  {
  }

  /** No number of rounds after `first` gives a message. */
  ghost predicate NeverRebuilds(form: Form, cache: Cache, first: Message, identification: u16, maxUdp: nat, rounds: nat)
    requires first.Sized()
  {
    AfterFirst(form, first).Ok? ==>
      var r := Run(form, cache, AfterFirst(form, first).value, identification, maxUdp, rounds);
      r.Ok? ==> PartialToMessage(r.value).Err?
  }

  /**
   When a record is advertised with length 0, or shares its rrid with an earlier
   one in pieces, no run of any length gives the message back, in either form,
   whatever the cache holds.
   */
  lemma {:induction false} HopelessIsNeverRebuilt(form: Form, cache: Cache, first: Message, identification: u16,
                                                  maxUdp: nat, rounds: nat, i: nat)
    requires MessageFits(first) && !first.IsQuery()
    requires AdvertisesNothing(first, i) || SharesRrid(first, i)
    ensures NeverRebuilds(form, cache, first, identification, maxUdp, rounds)
  {
    var got := ReceivedMessage(first);
    FitsArrives(first);
    SameFaults(first, got, i);
    hide MessageFits, Arrives, AdvertisesNothing, SharesRrid, Hopeless, Transmit, Begun, Run;
    if AfterFirst(form, first).Ok? {
      FirstIsHopeless(form, got, i);
      var pm := AfterFirst(form, first).value;
      var r := Run(form, cache, pm, identification, maxUdp, rounds);
      if r.Ok? {
        var empty := !SharesRrid(got, i);
        RunStaysHopeless(form, cache, pm, identification, maxUdp, rounds, i, empty);
        HopelessIsUnreadable(r.value, i, empty);
      }
    }
  }

  lemma {:induction false} SameFaults(first: Message, got: Message, i: nat)
    requires Arrives(first, got)
    ensures got.Sized() && Transmit(first) == Ok(got)
    ensures AdvertisesNothing(first, i) ==> AdvertisesNothing(got, i)
    ensures SharesRrid(first, i) ==> SharesRrid(got, i)
  {
    hide Transmit;
    if SharesRrid(first, i) {
      var a :| 0 <= a < i && first.Records()[a].Fragment?
               && first.Records()[a].frag.rrid == first.Records()[i].frag.rrid;
      assert got.Records()[a].Fragment? && got.Records()[a].frag.rrid == got.Records()[i].frag.rrid;
    }
  }
}
