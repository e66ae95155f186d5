/** PartialDNSMessage as the object that copy_message_contents fills and that
    requester_thread cuts its requests from; proved against `Requester`. */
module PartialMessages {
  import opened Wire
  import opened Records
  import opened Messages
  import opened Reassembly
  import opened Requester
  import opened PartialRecords

  function Views(rs: seq<PartialRR>): (vs: seq<Slot>)
    reads rs
    ensures |vs| == |rs|
  {
    if rs == [] then [] else Views(rs[..|rs| - 1]) + [rs[|rs| - 1].View()]
  }

  lemma {:induction false} ViewsAre(rs: seq<PartialRR>)
    ensures forall i :: 0 <= i < |rs| ==> Views(rs)[i] == rs[i].View()
  {
    if rs != [] {
      var n := |rs| - 1;
      ViewsAre(rs[..n]);
      forall i | 0 <= i < |rs| ensures Views(rs)[i] == rs[i].View() {
        if i < n {
          assert Views(rs)[i] == Views(rs[..n])[i] == rs[..n][i].View();
        }
      }
    }
  }

  /** No object occurs twice. */
  ghost predicate Apart(rs: seq<PartialRR>) {
    forall i, j :: 0 <= i < j < |rs| ==> rs[i] != rs[j]
  }

  class PartialDNSMessage {
    var known: bool
    var identification: u16
    var flags: u16
    var questions: seq<Question>
    var ancount: nat
    var nscount: nat
    var arcount: nat
    var answers: seq<PartialRR>
    var authoritative: seq<PartialRR>
    var additional: seq<PartialRR>
    var answersDone: nat
    var authoritativeDone: nat
    var additionalsDone: nat

    function All(): seq<PartialRR>
      reads this
    {
      answers + authoritative + additional
    }

    ghost predicate Valid()
      reads this
    {
      |answers| == ancount && |authoritative| == nscount && |additional| == arcount && Apart(All())
    }

    function View(): Partial
      reads this, All()
    {
      Partial(known, identification, flags, questions, ancount, nscount, arcount, Views(All()),
              [answersDone, authoritativeDone, additionalsDone])
    }

    /** init_partialdnsmessage */
    constructor ()
      ensures Valid() && View() == NOTHING_YET && All() == []
    {
      known, identification, flags, questions, ancount, nscount, arcount := false, 0, 0, [], 0, 0, 0;
      answers, authoritative, additional, answersDone, authoritativeDone, additionalsDone := [], [], [], 0, 0, 0;
    }

    /** message_complete */
    method IsComplete() returns (res: bool)
      requires Valid()
      ensures res == MessageComplete(View())
    {
      res := known && ancount == answersDone && nscount == authoritativeDone && arcount == additionalsDone;
    }

    /** One of find_partialrr's loops. */
    static method FindIn(section: seq<PartialRR>, rrid: u16) returns (i: nat)
      ensures i == FindSlot(Views(section), rrid)
    {
      ViewsAre(section);
      i := 0;
      while i < |section| && section[i].rrid != rrid
        invariant i <= |section| && FindSlot(Views(section), rrid) == FindSlot(Views(section), rrid, i)
      {
        i := i + 1;
      }
    }

    /** find_partialrr: the position among all slots, and the section. */
    method FindPartialRR(rrid: u16) returns (i: nat, section: nat)
      requires Valid()
      ensures i == FindSlot(Views(All()), rrid) <= |All()| && section < 3
      ensures i < |All()| ==> section == if i < ancount then 0 else if i < ancount + nscount then 1 else 2
    {
      hide FindSlot, Views, Apart;
      FindAll(answers, authoritative, additional, rrid);
      i := FindIn(answers, rrid);
      if i < ancount {
        return i, 0;
      }
      i := FindIn(authoritative, rrid);
      if i < nscount {
        return ancount + i, 1;
      }
      i := FindIn(additional, rrid);
      return ancount + nscount + i, 2;
    }

    /** One more record of the section is complete. */
    method CountDone(section: nat)
      requires Valid() && section < 3
      modifies this`answersDone, this`authoritativeDone, this`additionalsDone
      ensures Valid() && View() == Count(old(View()), section)
    {
      match section
      case 0 => answersDone := answersDone + 1;
      case 1 => authoritativeDone := authoritativeDone + 1;
      case 2 => additionalsDone := additionalsDone + 1;
    }

    /** copy_section's branch for a fragment; `form` says which of the two
        reassemblers it runs. */
    method CopyFragment(form: Form, f: Frag, section: nat) returns (error: Option<Error>)
      requires Valid() && f.Sized() && section < 3
      modifies this, All()
      ensures error.None? ==>
        Valid() && All() == old(All()) && CopyItem(form, old(View()), Fragment(f), section) == Ok(View())
      ensures error.Some? ==> CopyItem(form, old(View()), Fragment(f), section) == Err(error.value)
    {
      hide Absorb, FindSlot, Views;
      ghost var before := Views(All());
      var i, found := FindPartialRR(f.rrid);
      if i == |All()| {
        return Some(NullPointer);
      }
      ViewsAre(All());
      var prr := All()[i];
      if form == Dynamic {
        error := prr.AppendFragment(f);
      } else {
        error := prr.PlaceFragment(f);
      }
      if error.Some? {
        return;
      }
      OneView(All(), before, i);
      if prr.blocksReceived == |prr.markers| {
        CountDone(found);
      }
    }

    /** copy_section's branch for a whole record. */
    method CopyWhole(form: Form, rr: ResourceRecord, section: nat)
      requires Valid() && rr.Sized() && section < 3
      modifies this, All()
      ensures Valid() && All() == old(All()) && CopyItem(form, old(View()), Whole(rr), section) == Ok(View())
    {
      hide StoreWhole, FindEmpty, Views, Apart;
      var j, free := FindEmptySlot(section);
      if free {
        StoreAt(j, rr);
        CountDone(section);
      }
    }

    /** The first slot of the section that waits for a whole record. */
    method FindEmptySlot(section: nat) returns (i: nat, free: bool)
      requires Valid() && section < 3
      ensures i == FindEmpty(Views(All()), Start(View(), section), Start(View(), section + 1)) <= |All()|
      ensures free <==> i < Start(View(), section + 1)
    {
      hide FindEmpty, Views, Apart;
      EmptyInEach(answers, authoritative, additional);
      var lo, prrs := 0, answers;
      if section == 1 {
        lo, prrs := ancount, authoritative;
      } else if section == 2 {
        lo, prrs := ancount + nscount, additional;
      }
      i := FindEmptyIn(prrs);
      i, free := lo + i, i < |prrs|;
    }

    static method FindEmptyIn(prrs: seq<PartialRR>) returns (j: nat)
      ensures j <= |prrs| && j == FindEmpty(Views(prrs), 0, |prrs|)
    {
      hide Views;
      ghost var slots := Views(prrs);
      ViewsAre(prrs);
      j := 0;
      while j < |prrs| && !(!prrs[j].complete && prrs[j].rrid == 0)
        invariant j <= |prrs| && FindEmpty(slots, 0, |prrs|) == FindEmpty(slots, j, |prrs|)
      {
        assert prrs[j].View() == slots[j];
        j := j + 1;
      }
      if j < |prrs| {
        assert prrs[j].View() == slots[j];
      }
    }

    method StoreAt(i: nat, rr: ResourceRecord)
      requires Valid() && rr.Sized() && i < |All()|
      modifies All()
      ensures Views(All()) == old(Views(All()))[i := StoreWhole(old(Views(All()))[i], rr)]
    {
      hide StoreWhole, Views, RecordToBytes;
      ghost var before := Views(All());
      ViewsAre(All());
      All()[i].TakeWhole(rr);
      StoreWholeIs(before[i], rr);
      OneView(All(), before, i);
    }

    /** copy_section */
    method CopyRecords(form: Form, ps: seq<PackedRR>, section: nat) returns (error: Option<Error>)
      requires Valid() && AllSized(ps) && section < 3
      modifies this, All()
      ensures error.None? ==>
        Valid() && All() == old(All()) && CopySection(form, old(View()), ps, section) == Ok(View())
      ensures error.Some? ==> CopySection(form, old(View()), ps, section) == Err(error.value)
    {
      hide CopyItem, Views, Apart;
      assert ps[0..] == ps;
      for i := 0 to |ps|
        invariant Valid() && All() == old(All())
        invariant CopySection(form, old(View()), ps, section) == CopySection(form, View(), ps[i..], section)
      {
        assert ps[i..][0] == ps[i] && ps[i..][1..] == ps[i + 1..];
        match ps[i] {
          case Fragment(f) =>
            error := CopyFragment(form, f, section);
            if error.Some? {
              return;
            }
          case Whole(rr) =>
            CopyWhole(form, rr, section);
        }
      }
      return None;
    }

    /** The loops that allocate the slots of one section. */
    static method NewSlots(ps: seq<PackedRR>) returns (rs: seq<PartialRR>)
      ensures |rs| == |ps| && fresh(rs) && Apart(rs) && Views(rs) == SlotsFor(ps)
    {
      rs := [];
      for i := 0 to |ps|
        invariant |rs| == i && fresh(rs) && Apart(rs)
        invariant forall j :: 0 <= j < i ==> rs[j].View() == SlotFor(ps[j])
      {
        var prr := new PartialRR(if ps[i].Fragment? then ps[i].frag.rrid else 0);
        rs := rs + [prr];
      }
      ViewsAre(rs);
      assert forall j :: 0 <= j < |ps| ==> Views(rs)[j] == SlotsFor(ps)[j];
    }

    /** What copy_message_contents does before it copies the sections. */
    method PrepareFor(m: Message) returns (error: Option<Error>)
      requires Valid()
      modifies this
      ensures error.None? ==> Valid() && (All() == old(All()) || fresh(All())) && Prepare(old(View()), m) == Ok(View())
      ensures error.Some? ==> Prepare(old(View()), m) == Err(error.value)
    {
      hide Views, Apart;
      if !known {
        for i := 0 to |m.questions|
          invariant forall k :: 0 <= k < i ==> m.questions[k].qtype != RRFRAG
        {
          if m.questions[i].qtype == RRFRAG {
            return Some(AssertionFailed);
          }
        }
        Initialise(m);
        return None;
      }
      if questions == [] && m.questions != [] {
        return Some(OutOfBounds);
      }
      if ancount == 0 && m.answers != [] {
        return Some(OutOfBounds);
      }
      return None;
    }

    /** The slots of the three sections. */
    static method NewSections(m: Message) returns (an: seq<PartialRR>, ns: seq<PartialRR>, ar: seq<PartialRR>)
      ensures |an| == |m.answers| && |ns| == |m.authoritative| && |ar| == |m.additional|
      ensures fresh(an + ns + ar) && Apart(an + ns + ar) && Views(an + ns + ar) == SlotsFor(m.Records())
    {
      hide Views, SlotsFor, Apart;
      an := NewSlots(m.answers);
      ns := NewSlots(m.authoritative);
      assert forall i, j :: 0 <= i < |an| && 0 <= j < |ns| ==> an[i] != ns[j];
      ApartJoin(an, ns);
      ar := NewSlots(m.additional);
      assert forall i, j :: 0 <= i < |an + ns| && 0 <= j < |ar| ==> (an + ns)[i] != ar[j];
      ApartJoin(an + ns, ar);
      SlotsJoin(m);
      ViewsJoin(an, ns);
      ViewsJoin(an + ns, ar);
    }

    /** The first message sets the header and allocates the slots. */
    method Initialise(m: Message)
      requires Valid()
      modifies this
      ensures Valid() && fresh(All())
      ensures View() == Partial(true, m.identification, m.flags, m.questions, |m.answers|, |m.authoritative|,
                                |m.additional|, SlotsFor(m.Records()), old(View()).done)
    {
      hide Views, SlotsFor, Apart;
      var an, ns, ar := NewSections(m);
      SetHeader(m);
      answers, authoritative, additional := an, ns, ar;
    }

    method SetHeader(m: Message)
      modifies `known, `identification, `flags, `questions, `ancount, `nscount, `arcount
      ensures known && identification == m.identification && flags == m.flags && questions == m.questions
      ensures ancount == |m.answers| && nscount == |m.authoritative| && arcount == |m.additional|
    {
      known, identification, flags, questions := true, m.identification, m.flags, m.questions;
      ancount, nscount, arcount := |m.answers|, |m.authoritative|, |m.additional|;
    }

    /** copy_message_contents */
    method CopyMessageContents(form: Form, m: Message) returns (error: Option<Error>)
      requires Valid() && m.Sized()
      modifies this, All()
      ensures error.None? ==> Valid() && (All() == old(All()) || fresh(All()))
      ensures error.None? ==> CopyMessage(form, old(View()), m) == Ok(View())
      ensures error.Some? ==> CopyMessage(form, old(View()), m) == Err(error.value)
    {
      hide Prepare, CopySection, Views, Apart;
      error := PrepareFor(m);
      if error.None? {
        error := CopyRecords(form, m.answers, 0);
      }
      if error.None? {
        error := CopyRecords(form, m.authoritative, 1);
      }
      if error.None? {
        error := CopyRecords(form, m.additional, 2);
      }
    }
  }

  lemma {:induction false} SectionsAre(a: seq<PartialRR>, b: seq<PartialRR>, c: seq<PartialRR>)
    ensures var rs, an, ns := a + b + c, |a|, |a| + |b|;
      rs[0..an] == a && rs[an..ns] == b && rs[ns..|rs|] == c
  {
  }

  lemma {:induction false} ViewsJoin(a: seq<PartialRR>, b: seq<PartialRR>)
    ensures Views(a + b) == Views(a) + Views(b)
  {
    ViewsAre(a);
    ViewsAre(b);
    ViewsAre(a + b);
    hide Views;
    assert Views(a + b) == Views(a) + Views(b);
  }

  lemma {:induction false} FindIs(slots: seq<Slot>, rrid: u16, i: nat)
    requires i <= |slots| && (i < |slots| ==> slots[i].rrid == rrid)
    requires forall j :: 0 <= j < i ==> slots[j].rrid != rrid
    ensures FindSlot(slots, rrid) == i
  {
  }

  lemma {:induction false} FindJoin(a: seq<Slot>, b: seq<Slot>, rrid: u16)
    ensures FindSlot(a + b, rrid)
            == if FindSlot(a, rrid) < |a| then FindSlot(a, rrid) else |a| + FindSlot(b, rrid)
  {
    var i := FindSlot(a, rrid);
    if i < |a| {
      FindIs(a + b, rrid, i);
    } else {
      FindIs(a + b, rrid, |a| + FindSlot(b, rrid));
    }
  }

  lemma {:induction false} FindAll(a: seq<PartialRR>, b: seq<PartialRR>, c: seq<PartialRR>, rrid: u16)
    ensures var i, j, k := FindSlot(Views(a), rrid), FindSlot(Views(b), rrid), FindSlot(Views(c), rrid);
      FindSlot(Views(a + b + c), rrid) == if i < |a| then i else if j < |b| then |a| + j else |a| + |b| + k
  {
    ViewsJoin(a, b);
    ViewsJoin(a + b, c);
    hide FindSlot, Views;
    FindJoin(Views(a), Views(b), rrid);
    FindJoin(Views(a) + Views(b), Views(c), rrid);
  }

  lemma {:induction false} ViewsSlice(rs: seq<PartialRR>, lo: nat, hi: nat)
    requires lo <= hi <= |rs|
    ensures Views(rs[lo..hi]) == Views(rs)[lo..hi]
  {
    hide Views;
    ViewsAre(rs);
    ViewsAre(rs[lo..hi]);
    assert Views(rs[lo..hi]) == Views(rs)[lo..hi];
  }

  lemma {:induction false} EmptyInSection(rs: seq<PartialRR>, lo: nat, hi: nat)
    requires lo <= hi <= |rs|
    ensures FindEmpty(Views(rs), lo, hi) == lo + FindEmpty(Views(rs[lo..hi]), 0, hi - lo)
  {
    hide Views;
    ViewsSlice(rs, lo, hi);
    EmptyInSlice(Views(rs), lo, hi, lo);
  }

  lemma {:induction false} EmptyInEach(a: seq<PartialRR>, b: seq<PartialRR>, c: seq<PartialRR>)
    ensures var rs, an, ns := a + b + c, |a|, |a| + |b|;
      && FindEmpty(Views(rs), 0, an) == FindEmpty(Views(a), 0, |a|)
      && FindEmpty(Views(rs), an, ns) == an + FindEmpty(Views(b), 0, |b|)
      && FindEmpty(Views(rs), ns, |rs|) == ns + FindEmpty(Views(c), 0, |c|)
  {
    hide FindEmpty, Views;
    var rs, an, ns := a + b + c, |a|, |a| + |b|;
    SectionsAre(a, b, c);
    EmptyInSection(rs, 0, an);
    EmptyInSection(rs, an, ns);
    EmptyInSection(rs, ns, |rs|);
  }

  lemma {:induction false} EmptyInSlice(slots: seq<Slot>, lo: nat, hi: nat, i: nat)
    requires lo <= i <= hi <= |slots|
    ensures FindEmpty(slots, i, hi) == lo + FindEmpty(slots[lo..hi], i - lo, hi - lo)
    decreases hi - i
  {
    if i < hi {
      EmptyInSlice(slots, lo, hi, i + 1);
    }
  }

  /** Only the i-th object has changed since `before`. */
  lemma {:induction false} OneView(rs: seq<PartialRR>, before: seq<Slot>, i: nat)
    requires i < |rs| == |before|
    requires forall j :: 0 <= j < |rs| && j != i ==> rs[j].View() == before[j]
    ensures Views(rs) == before[i := rs[i].View()]
  {
    ViewsAre(rs);
    hide Views;
    assert Views(rs) == before[i := rs[i].View()];
  }

  lemma {:induction false} StoreWholeIs(s: Slot, rr: ResourceRecord)
    requires rr.Sized()
    ensures StoreWhole(s, rr) == s.(bytes := Cells(RecordToBytes(rr)), bytesReceived := |RecordToBytes(rr)|,
                                    rrsize := |RecordToBytes(rr)|, complete := true)
  {
  }

  lemma {:induction false} SlotsJoin(m: Message)
    ensures SlotsFor(m.answers) + SlotsFor(m.authoritative) + SlotsFor(m.additional) == SlotsFor(m.Records())
  {
  }

  lemma {:induction false} ApartJoin(a: seq<PartialRR>, b: seq<PartialRR>)
    requires Apart(a) && Apart(b) && forall i, j :: 0 <= i < |a| && 0 <= j < |b| ==> a[i] != b[j]
    ensures Apart(a + b)
  {
  }
}
