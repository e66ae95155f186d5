/**
 What arrives twice, or was never asked for. The lock-step runs bring everything once;
 these are the cases outside them.
 */
module Repeats {
  import opened Wire
  import opened Records
  import opened Messages
  import opened Reassembly
  import opened Requester

  // ----- Fragments

  /** Block j is one of the record's, and has not been received. */
  predicate Unreceived(ms: seq<Marker>, j: nat) { j < |ms| && ms[j] != RECVD }

  lemma {:induction false} CheckedFree(ms: seq<Marker>, from: nat, to: nat, j: nat)
    requires CheckFree(ms, from, to).None? && from <= j < to
    ensures Unreceived(ms, j)
    decreases j - from
  {
    if from < j {
      CheckedFree(ms, from + 1, to, j);
    }
  }

  lemma {:induction false} TakenIsFree(s: Slot, f: Frag)
    requires f.Sized() && Take(Dynamic, s, f).Ok?
    ensures !s.complete && CheckFree(s.markers, FirstBlock(f), EndBlock(f)).None?
  {
    hide CheckFree, Grow, GrowHeaders, Splice, Cells;
  }

  lemma {:induction false} BeginsIncomplete(s: Slot, f: Frag)
    ensures Begin(Dynamic, s, f).complete == s.complete
  {
  }

  /** The dynamic form takes no fragment outside the record or with a block that has
      been received, and none at all once the record is complete. */
  lemma {:induction false} DynamicRefusesRepeats(s: Slot, f: Frag)
    requires f.Sized() && Absorb(Dynamic, s, f).Ok?
    ensures !s.complete
    ensures var ms := Begin(Dynamic, s, f).markers;
      forall j: nat :: FirstBlock(f) <= j < EndBlock(f) ==> Unreceived(ms, j)
  {
    hide Settle, Take, CheckFree, Begin, FirstBlock, EndBlock;
    TakenIsFree(Begin(Dynamic, s, f), f);
    BeginsIncomplete(s, f);
    var ms := Begin(Dynamic, s, f).markers;
    forall j: nat | FirstBlock(f) <= j < EndBlock(f) ensures Unreceived(ms, j) {
      CheckedFree(ms, FirstBlock(f), EndBlock(f), j);
    }
  }

  /** The static form takes no fragment that reaches beyond the blocks of the record or
      the bytes of its buffer. */
  lemma {:induction false} StaticRefusesBeyond(s: Slot, f: Frag)
    requires f.Sized() && Absorb(Static, s, f).Ok?
    ensures var b := Begin(Static, s, f);
      EndBlock(f) <= |b.markers| && f.curidx + f.fragsize <= |b.bytes| && (f.data == None ==> f.fragsize == 0)
  {
    hide Settle, Begin, Splice, Cells;
  }

  /**
   The static form takes a fragment again and counts its blocks and bytes again. When
   that makes up the number of blocks of a slot which lacks some, the daemon stops;
   otherwise the slot goes on with a count of blocks that it does not have.
   */
  lemma {:induction false} StaticCountsTwice(s: Slot, f: Frag)
    requires Sound(Static, s) && !s.complete && FragOf(f, s.rrsize) && f.fragsize > 0
    requires forall j :: FirstBlock(f) <= j < EndBlock(f) ==> j < |s.markers| && s.markers[j] == RECVD
    ensures var span := EndBlock(f) - FirstBlock(f);
      && span > 0
      && Absorb(Static, s, f)
         == if s.blocksReceived + span == |s.markers| then Err(AssertionFailed)
            else Ok(s.(bytes := Splice(s.bytes, f.curidx, FragCells(f)), bytesReceived := s.bytesReceived + f.fragsize,
                       blocksReceived := s.blocksReceived + span))
  {
    hide CountRecvd, RecvdBytes;
    CountAll(s.markers, s.rrsize);
    assert Mark(s.markers, FirstBlock(f), EndBlock(f), RECVD) == s.markers;
  }

  // ----- Records

  lemma {:induction false} NoneEmpty(slots: seq<Slot>, i: nat, hi: nat)
    requires i <= hi <= |slots| && forall j :: i <= j < hi ==> slots[j].complete
    ensures FindEmpty(slots, i, hi) == hi
  {
  }

  /** Whole records that come once more are passed over when nothing waits for one. */
  lemma {:induction false} WholeAgain(form: Form, pm: Partial, ps: seq<PackedRR>, section: nat)
    requires pm.Shaped() && AllSized(ps) && section < 3
    requires forall i :: 0 <= i < |pm.slots| ==> pm.slots[i].complete
    requires forall c :: 0 <= c < |ps| ==> ps[c].Whole?
    ensures CopySection(form, pm, ps, section) == Ok(pm)
    decreases |ps|
  {
    hide StoreWhole, FindEmpty;
    if ps != [] {
      NoneEmpty(pm.slots, Start(pm, section), Start(pm, section + 1));
      WholeAgain(form, pm, ps[1..], section);
    }
  }

  // ----- What was never announced

  /** A fragment of a record that the first reply did not announce ends the daemon. */
  lemma {:induction false} StrangerStops(form: Form, pm: Partial, f: Frag, section: nat)
    requires pm.Shaped() && f.Sized() && section < 3
    requires forall i :: 0 <= i < |pm.slots| ==> pm.slots[i].rrid != f.rrid
    ensures CopyItem(form, pm, Fragment(f), section) == Err(NullPointer)
  {
    hide Absorb;
  }

  /** Later messages may bring questions or answers only where the first one had some,
      and leave the header alone. */
  lemma {:induction false} LaterMessages(form: Form, pm: Partial, m: Message)
    requires pm.Shaped() && pm.known && m.Sized()
    ensures (pm.questions == [] && m.questions != []) || (pm.ancount == 0 && m.answers != []) ==>
      CopyMessage(form, pm, m) == Err(OutOfBounds)
    ensures CopyMessage(form, pm, m).Ok? ==>
      var r := CopyMessage(form, pm, m).value;
      r == pm.(slots := r.slots, done := r.done) && |r.slots| == |pm.slots|
  {
    hide CopySection;
    if CopyMessage(form, pm, m).Ok? {
      var pm1 := CopySection(form, pm, m.answers, 0).value;
      var pm2 := CopySection(form, pm1, m.authoritative, 1).value;
      SectionKeepsHead(form, pm, m.answers, 0);
      SectionKeepsHead(form, pm1, m.authoritative, 1);
      SectionKeepsHead(form, pm2, m.additional, 2);
    }
  }

  lemma {:induction false} SectionKeepsHead(form: Form, pm: Partial, ps: seq<PackedRR>, section: nat)
    requires pm.Shaped() && AllSized(ps) && section < 3 && CopySection(form, pm, ps, section).Ok?
    ensures var r := CopySection(form, pm, ps, section).value;
      r == pm.(slots := r.slots, done := r.done) && |r.slots| == |pm.slots|
    decreases |ps|
  {
    if ps != [] {
      ItemKeepsHead(form, pm, ps[0], section);
      hide CopyItem;
      SectionKeepsHead(form, CopyItem(form, pm, ps[0], section).value, ps[1..], section);
    }
  }

  lemma {:induction false} ItemKeepsHead(form: Form, pm: Partial, p: PackedRR, section: nat)
    requires pm.Shaped() && p.Sized() && section < 3 && CopyItem(form, pm, p, section).Ok?
    ensures var r := CopyItem(form, pm, p, section).value;
      r == pm.(slots := r.slots, done := r.done) && |r.slots| == |pm.slots|
  {
    hide Absorb, StoreWhole, FindSlot, FindEmpty;
  }
}
