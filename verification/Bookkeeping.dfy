/** The counters of a partial message, whatever order its records arrive in. */
module Bookkeeping {
  import opened Wire
  import opened Records
  import opened Messages
  import opened Reassembly
  import opened ArrivalOrder
  import opened Requester
  import opened Delivery
  import opened Asking

  /** A slot for fragments in good order, or one for a whole record. */
  ghost predicate Orderly(form: Form, s: Slot) {
    if s.rrid == 0 then !s.started && (s.complete || s == NewSlot(0)) else Ready(form, s)
  }

  /** Counters agree with markers in every slot, and with slots in every section. */
  ghost predicate Bookkept(form: Form, pm: Partial) {
    pm.Shaped() && pm.known && Counted(pm) && forall i :: 0 <= i < |pm.slots| ==> Orderly(form, pm.slots[i])
  }

  /** The protocol allows this record to arrive now: a fragment of a record under
      way, with none of its blocks received before. */
  ghost predicate Expected(form: Form, pm: Partial, p: PackedRR) {
    && p.Sized()
    && match p
       case Whole(_) => true
       case Fragment(f) =>
         var i := FindSlot(pm.slots, f.rrid);
         f.rrid != 0 && i < |pm.slots| && Welcome(form, pm.slots[i], f) && !Stuck(form, pm.slots[i], f)
  }

  /** Each record is expected when its turn comes. */
  ghost predicate AllExpected(form: Form, pm: Partial, ps: seq<PackedRR>, section: nat)
    requires pm.Shaped() && section < 3
    decreases |ps|
  {
    ps == [] ||
    (Expected(form, pm, ps[0])
     && (CopyItem(form, pm, ps[0], section).Ok? ==>
           AllExpected(form, CopyItem(form, pm, ps[0], section).value, ps[1..], section)))
  }

  /** The counters agree again, and complete slots are as they were. */
  ghost predicate BookkeptAfter(form: Form, pm: Partial, r: Result<Partial>) {
    && r.Ok? && Bookkept(form, r.value) && |r.value.slots| == |pm.slots|
    && forall i :: 0 <= i < |pm.slots| && pm.slots[i].complete ==> r.value.slots[i] == pm.slots[i]
  }

  lemma {:induction false} BookkeepingStep(form: Form, pm: Partial, p: PackedRR, section: nat)
    requires Bookkept(form, pm) && Expected(form, pm, p) && section < 3
    ensures BookkeptAfter(form, pm, CopyItem(form, pm, p, section))
  {
    match p
    case Fragment(f) => ExpectedFragment(form, pm, f, section);
    case Whole(rr) => ExpectedWhole(form, pm, rr, section);
  }

  lemma {:induction false} ExpectedFragment(form: Form, pm: Partial, f: Frag, section: nat)
    requires Bookkept(form, pm) && Expected(form, pm, Fragment(f)) && section < 3
    ensures BookkeptAfter(form, pm, CopyItem(form, pm, Fragment(f), section))
  {
    hide Absorb, Assembled, CountRecvd, RecvdBytes, Counted;
    var i := FindSlot(pm.slots, f.rrid);
    var s := pm.slots[i];
    Step(form, s, f);
    CountedStep(pm, i, Absorb(form, s, f).value);
  }

  lemma {:induction false} ExpectedWhole(form: Form, pm: Partial, rr: ResourceRecord, section: nat)
    requires Bookkept(form, pm) && Expected(form, pm, Whole(rr)) && section < 3
    ensures BookkeptAfter(form, pm, CopyItem(form, pm, Whole(rr), section))
  {
    hide RecordToBytes, Counted, Ready;
    var lo, hi := Start(pm, section), Start(pm, section + 1);
    var j := FindEmpty(pm.slots, lo, hi);
    if j < hi {
      assert SectionOf(pm, j) == section;
      CountedStep(pm, j, StoreWhole(pm.slots[j], rr));
    }
  }

  /**
   Over every sequence of expected records nothing fails, each slot's counters
   count what its markers and headers say, each section's counter is the number of
   its complete slots, and a complete slot is never touched, hence never counted,
   again.
   */
  lemma {:induction false} BookkeepingHolds(form: Form, pm: Partial, ps: seq<PackedRR>, section: nat)
    requires Bookkept(form, pm) && section < 3 && AllSized(ps) && AllExpected(form, pm, ps, section)
    ensures var r := CopySection(form, pm, ps, section);
      && r.Ok? && Bookkept(form, r.value) && |r.value.slots| == |pm.slots|
      && forall i :: 0 <= i < |pm.slots| && pm.slots[i].complete ==> r.value.slots[i] == pm.slots[i]
    decreases |ps|
  {
    CopyFirst(form, pm, ps, section);
    if ps != [] {
      BookkeepingStep(form, pm, ps[0], section);
      hide Bookkept, CopyItem, Expected, CopySection;
      var pm' := CopyItem(form, pm, ps[0], section).value;
      BookkeepingHolds(form, pm', ps[1..], section);
    }
  }

  /** message_complete, which looks only at the counters, is right. */
  lemma {:induction false} CompleteWhenAllAre(form: Form, pm: Partial)
    requires Bookkept(form, pm)
    ensures pm.Shaped() && (MessageComplete(pm) <==> forall i :: 0 <= i < |pm.slots| ==> pm.slots[i].complete)
  {
    CountersDecide(pm);
  }
}
