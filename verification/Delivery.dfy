/**
 Messages arriving at the requester: what the partial message holds after the
 first reply, and after each follow-up reply.
 */
module Delivery {
  import opened Wire
  import opened Records
  import opened Messages
  import opened Reassembly
  import opened ArrivalOrder
  import opened Requester
  import opened Progress

  // ----- The partial message against the responder's records

  /** The slot holds all of a record that was sent whole. */
  ghost predicate WholeSlot(s: Slot, rr: ResourceRecord)
    requires rr.Sized()
  {
    && s.complete && !s.started && s.rrid == 0
    && s.bytes == Cells(RecordToBytes(rr)) && s.rrsize == s.bytesReceived == |RecordToBytes(rr)|
  }

  /** Slot for a record sent whole (id 0) or in pieces, with `w` blocks on their way. */
  ghost predicate Fine(form: Form, s: Slot, rr: ResourceRecord, id: u16, w: nat)
    requires rr.Sized()
  {
    if id == 0 then WholeSlot(s, rr) && w == 0
    else SlotAt(form, s, RecordToBytes(rr), id, s.blocksReceived, w)
  }

  /** The records of a message and the rrids of those sent in pieces. */
  predicate Cast(recs: seq<ResourceRecord>, ids: seq<u16>) {
    && |recs| == |ids|
    && (forall i :: 0 <= i < |recs| ==> recs[i].Sized())
    && (forall i, j :: 0 <= i < j < |ids| && ids[i] != 0 ==> ids[i] != ids[j])
  }

  ghost predicate AllFine(form: Form, slots: seq<Slot>, recs: seq<ResourceRecord>, ids: seq<u16>, ws: seq<nat>)
    requires Cast(recs, ids)
  {
    && |slots| == |recs| == |ws|
    && forall i :: 0 <= i < |slots| ==> Fine(form, slots[i], recs[i], ids[i], ws[i])
  }

  function CountComplete(slots: seq<Slot>, lo: nat, hi: nat): nat
    requires lo <= hi <= |slots|
    decreases hi - lo
  {
    if lo == hi then 0 else (if slots[lo].complete then 1 else 0) + CountComplete(slots, lo + 1, hi)
  }

  /** Each counter is the number of complete slots in its section. */
  ghost predicate Counted(pm: Partial)
    requires pm.Shaped()
  {
    forall k :: 0 <= k < 3 ==> pm.done[k] == CountComplete(pm.slots, Start(pm, k), Start(pm, k + 1))
  }

  /** The invariant of a run. */
  ghost predicate Good(form: Form, pm: Partial, recs: seq<ResourceRecord>, ids: seq<u16>, ws: seq<nat>)
    requires Cast(recs, ids)
  {
    pm.Shaped() && pm.known && AllFine(form, pm.slots, recs, ids, ws) && Counted(pm)
  }

  /** The slot was started by an empty fragment and has no buffer to double. */
  predicate Starved(form: Form, s: Slot) {
    form == Dynamic && s.started && |s.bytes| == 0
  }

  ghost predicate Fed(form: Form, slots: seq<Slot>) {
    forall i :: 0 <= i < |slots| ==> !Starved(form, slots[i])
  }

  ghost predicate SameStarved(form: Form, slots: seq<Slot>, slots': seq<Slot>) {
    |slots| == |slots'| && forall i :: 0 <= i < |slots| ==> Starved(form, slots[i]) == Starved(form, slots'[i])
  }

  function Zeros(n: nat): (ws: seq<nat>)
    ensures |ws| == n && forall i :: 0 <= i < n ==> ws[i] == 0
  {
    seq(n, i => 0)
  }

  /** Blocks that have not arrived. */
  function Missing(slots: seq<Slot>): nat {
    if slots == [] then 0
    else Missing(slots[..|slots| - 1]) + MissingIn(slots[|slots| - 1])
  }

  function MissingIn(s: Slot): nat {
    if s.blocksReceived < |s.markers| then |s.markers| - s.blocksReceived else 0
  }

  lemma {:induction false} MissingUpdate(slots: seq<Slot>, i: nat, s: Slot)
    requires i < |slots|
    ensures Missing(slots[i := s]) + MissingIn(slots[i]) == Missing(slots) + MissingIn(s)
  {
    var k := |slots| - 1;
    if i == k {
      assert slots[i := s][..k] == slots[..k];
    } else {
      MissingUpdate(slots[..k], i, s);
      assert slots[i := s][..k] == slots[..k][i := s];
    }
  }

  lemma {:induction false} CountUpdate(slots: seq<Slot>, i: nat, s: Slot, lo: nat, hi: nat)
    requires i < |slots| && lo <= hi <= |slots|
    ensures CountComplete(slots[i := s], lo, hi)
            == CountComplete(slots, lo, hi)
               + if lo <= i < hi then (if s.complete then 1 else 0) - (if slots[i].complete then 1 else 0) else 0
    decreases hi - lo
  {
    if lo < hi {
      CountUpdate(slots, i, s, lo + 1, hi);
    }
  }

  /** A slot that changes and is counted when it becomes complete keeps the counters right. */
  lemma {:induction false} CountedStep(pm: Partial, i: nat, s: Slot)
    requires pm.Shaped() && Counted(pm) && i < |pm.slots| && !pm.slots[i].complete
    ensures var pm' := pm.(slots := pm.slots[i := s]);
      Counted(if s.complete then Count(pm', SectionOf(pm, i)) else pm')
  {
    var pm' := pm.(slots := pm.slots[i := s]);
    var r := if s.complete then Count(pm', SectionOf(pm, i)) else pm';
    forall k | 0 <= k < 3 ensures r.done[k] == CountComplete(r.slots, Start(r, k), Start(r, k + 1)) {
      CountUpdate(pm.slots, i, s, Start(pm, k), Start(pm, k + 1));
      assert Start(pm, k) <= i < Start(pm, k + 1) <==> k == SectionOf(pm, i);
    }
  }

  lemma {:induction false} SlotIsAt(slots: seq<Slot>, i: nat, from: nat)
    requires from <= i < |slots|
    requires forall j :: from <= j < i ==> slots[j].rrid != slots[i].rrid
    ensures FindSlot(slots, slots[i].rrid, from) == i
    decreases i - from
  {
  }

  // ----- A follow-up reply

  /** The piece that slot i waits for. */
  ghost function Awaited(slots: seq<Slot>, recs: seq<ResourceRecord>, ids: seq<u16>, ws: seq<nat>, i: nat): Frag
    requires Cast(recs, ids) && |slots| == |recs| == |ws| && i < |slots|
    requires PieceOk(slots, recs, ws, i)
  {
    Piece(RecordToBytes(recs[i]), ids[i], slots[i].blocksReceived, ws[i])
  }

  ghost predicate PieceOk(slots: seq<Slot>, recs: seq<ResourceRecord>, ws: seq<nat>, i: nat)
    requires i < |slots| == |recs| == |ws| && recs[i].Sized()
  {
    var record, r, w := RecordToBytes(recs[i]), slots[i].blocksReceived, ws[i];
    && |record| < 0x10_0000 && r + w <= Blocks(|record|)
    && BytesUpTo(r + w, |record|) - BytesUpTo(r, |record|) < 0x1_0000
  }

  /** `idx` lists, in order, the slots that wait, and `fs` what they wait for. */
  ghost predicate Plan(slots: seq<Slot>, recs: seq<ResourceRecord>, ids: seq<u16>, ws: seq<nat>,
                       idx: seq<nat>, fs: seq<Frag>)
    requires Cast(recs, ids)
  {
    && |slots| == |recs| == |ws| && |idx| == |fs|
    && (forall a, b :: 0 <= a < b < |idx| ==> idx[a] < idx[b])
    && (forall i :: 0 <= i < |ws| ==> (ws[i] > 0 <==> i in idx))
    && (forall a :: 0 <= a < |idx| ==> idx[a] < |slots| && ids[idx[a]] != 0 && PieceOk(slots, recs, ws, idx[a]))
    && (forall a :: 0 <= a < |idx| ==> fs[a] == Awaited(slots, recs, ids, ws, idx[a]))
  }

  /** What the invariant says of one slot, and of the way to it. */
  lemma {:induction false} FineAt(form: Form, pm: Partial, recs: seq<ResourceRecord>, ids: seq<u16>, ws: seq<nat>,
                                  i: nat)
    requires Cast(recs, ids) && Good(form, pm, recs, ids, ws) && i < |ws| && ids[i] != 0
    ensures pm.Shaped() && |pm.slots| == |recs| == |ws|
    ensures SlotAt(form, pm.slots[i], RecordToBytes(recs[i]), ids[i], pm.slots[i].blocksReceived, ws[i])
    ensures pm.slots[i].rrid == ids[i] && forall j :: 0 <= j < i ==> pm.slots[j].rrid != ids[i]
  {
    hide RecordToBytes;
    RridsAreIds(form, pm.slots, recs, ids, ws);
    assert Fine(form, pm.slots[i], recs[i], ids[i], ws[i]);
  }

  /** One awaited piece arrives. */
  lemma {:induction false} DeliverOne(form: Form, pm: Partial, recs: seq<ResourceRecord>, ids: seq<u16>, ws: seq<nat>,
                                      i: nat, section: nat)
    requires Cast(recs, ids) && Good(form, pm, recs, ids, ws) && section < 3
    requires i < |ws| && ws[i] > 0 && ids[i] != 0 && PieceOk(pm.slots, recs, ws, i)
    ensures var f := Awaited(pm.slots, recs, ids, ws, i);
      && f.Sized()
      && (form == Dynamic && |pm.slots[i].bytes| == 0 ==>
            CopyItem(form, pm, Fragment(f), section) == Err(NeverTerminates))
      && (form == Static || |pm.slots[i].bytes| > 0 ==>
            Moved(form, pm, CopyItem(form, pm, Fragment(f), section), recs, ids, ws, i))
  {
    hide RecordToBytes, Absorb, SlotAt, Good, Missing, Moved, Fine;
    FineAt(form, pm, recs, ids, ws, i);
    var s, record := pm.slots[i], RecordToBytes(recs[i]);
    var f := Awaited(pm.slots, recs, ids, ws, i);
    SlotIsAt(pm.slots, i, 0);
    PieceFits(record, ids[i], s.blocksReceived, ws[i]);
    SlotReceives(form, s, record, ids[i], s.blocksReceived, ws[i]);
    StartedAt(form, pm, recs, ids, ws, i);
    if form == Static || |s.bytes| > 0 {
      ReceivedSlot(form, pm, recs, ids, ws, i, Absorb(form, s, f).value);
    }
  }

  lemma {:induction false} RridsAreIds(form: Form, slots: seq<Slot>, recs: seq<ResourceRecord>, ids: seq<u16>,
                                       ws: seq<nat>)
    requires Cast(recs, ids) && AllFine(form, slots, recs, ids, ws)
    ensures forall i :: 0 <= i < |slots| ==> slots[i].rrid == ids[i]
  {
    forall i | 0 <= i < |slots| ensures slots[i].rrid == ids[i] {
      assert Fine(form, slots[i], recs[i], ids[i], ws[i]);
    }
  }

  /** The step took slot i from waiting to received and touched nothing else. */
  ghost predicate Moved(form: Form, pm: Partial, r: Result<Partial>, recs: seq<ResourceRecord>, ids: seq<u16>,
                        ws: seq<nat>, i: nat)
    requires Cast(recs, ids) && i < |ws| && i < |pm.slots|
  {
    && r.Ok?
    && Good(form, r.value, recs, ids, ws[i := 0])
    && r.value == pm.(slots := r.value.slots, done := r.value.done)
    && |r.value.slots| == |pm.slots|
    && (forall j :: 0 <= j < |pm.slots| && j != i ==> r.value.slots[j] == pm.slots[j])
    && r.value.slots[i].blocksReceived == pm.slots[i].blocksReceived + ws[i]
    && Missing(r.value.slots) + ws[i] == Missing(pm.slots)
    && (form == Dynamic ==> |r.value.slots[i].bytes| > 0)
  }

  lemma {:induction false} ReceivedSlot(form: Form, pm: Partial, recs: seq<ResourceRecord>, ids: seq<u16>, ws: seq<nat>,
                                        i: nat, s': Slot)
    requires Cast(recs, ids) && Good(form, pm, recs, ids, ws)
    requires i < |ws| && ws[i] > 0 && ids[i] != 0
    requires SlotAt(form, s', RecordToBytes(recs[i]), ids[i], pm.slots[i].blocksReceived + ws[i], 0)
    requires form == Dynamic ==> |s'.bytes| > 0
    ensures var pm' := pm.(slots := pm.slots[i := s']);
      Moved(form, pm, Ok(if s'.complete then Count(pm', SectionOf(pm, i)) else pm'), recs, ids, ws, i)
    ensures s'.complete <==> s'.blocksReceived == |s'.markers|
  {
    hide SlotAt, RecordToBytes, Good, Missing, MissingIn;
    FineAt(form, pm, recs, ids, ws, i);
    ReceivedCounts(form, pm.slots[i], s', RecordToBytes(recs[i]), ids[i], pm.slots[i].blocksReceived, ws[i]);
    UpdatedGood(form, pm, recs, ids, ws, i, s');
    MissingUpdate(pm.slots, i, s');
  }

  lemma {:induction false} ReceivedCounts(form: Form, s: Slot, s': Slot, record: seq<byte>, id: u16, r: nat, w: nat)
    requires SlotAt(form, s, record, id, r, w) && w > 0 && s.blocksReceived == r
    requires SlotAt(form, s', record, id, r + w, 0)
    ensures !s.complete && (s'.complete <==> s'.blocksReceived == |s'.markers|) && s'.blocksReceived == r + w
    ensures MissingIn(s') + w == MissingIn(s)
  {
    hide CountRecvd, RecvdBytes, Assembled;
    RecvdRun(s'.markers, r + w, 0);
    WaitingIsIncomplete(form, s, record, id, r, w);
  }

  lemma {:induction false} UpdatedGood(form: Form, pm: Partial, recs: seq<ResourceRecord>, ids: seq<u16>, ws: seq<nat>,
                                       i: nat, s': Slot)
    requires Cast(recs, ids) && Good(form, pm, recs, ids, ws) && i < |ws| == |pm.slots| && !pm.slots[i].complete
    requires Fine(form, s', recs[i], ids[i], 0)
    ensures var pm' := pm.(slots := pm.slots[i := s']);
      Good(form, if s'.complete then Count(pm', SectionOf(pm, i)) else pm', recs, ids, ws[i := 0])
  {
    hide Fine, AllFine, Counted, Cast;
    CountedStep(pm, i, s');
    FineUpdate(form, pm.slots, recs, ids, ws, i, s');
  }

  lemma {:induction false} WaitingIsIncomplete(form: Form, s: Slot, record: seq<byte>, id: u16, r: nat, w: nat)
    requires SlotAt(form, s, record, id, r, w) && w > 0
    ensures !s.complete && s.blocksReceived == r && r + w <= |s.markers| == Blocks(|record|)
  {
    hide CountRecvd, RecvdBytes, Assembled;
    RecvdRun(s.markers, r, w);
  }

  lemma {:induction false} FineUpdate(form: Form, slots: seq<Slot>, recs: seq<ResourceRecord>, ids: seq<u16>,
                                      ws: seq<nat>, i: nat, s': Slot)
    requires Cast(recs, ids) && AllFine(form, slots, recs, ids, ws) && i < |ws|
    requires Fine(form, s', recs[i], ids[i], 0)
    ensures AllFine(form, slots[i := s'], recs, ids, ws[i := 0])
  {
    hide Fine;
  }

  /** A whole follow-up reply arrives. It either takes effect as a whole, or it
      ends at a slot that was started by an empty fragment. */
  lemma {:induction false} DeliverAll(form: Form, pm: Partial, recs: seq<ResourceRecord>, ids: seq<u16>, ws: seq<nat>,
                                      idx: seq<nat>, fs: seq<Frag>, section: nat)
    requires Cast(recs, ids) && pm.Shaped() && Good(form, pm, recs, ids, ws) && section < 3
    requires Plan(pm.slots, recs, ids, ws, idx, fs)
    requires AllSized(AsRecords(fs))
    ensures Took(form, pm, ws, CopySection(form, pm, AsRecords(fs), section), recs, ids, Zeros(|recs|), |fs|)
    decreases |fs|, 1
  {
    if fs == [] {
      AsRecordsHead(fs);
      assert ws == Zeros(|recs|) by {
        assert forall i :: 0 <= i < |ws| ==> i !in idx;
      }
      hide Good, Missing;
    } else {
      DeliverMore(form, pm, recs, ids, ws, idx, fs, section);
    }
  }

  /** Slot by slot, as many blocks are received or on their way as before. */
  ghost predicate Kept(slots: seq<Slot>, ws: seq<nat>, slots': seq<Slot>, ws': seq<nat>) {
    && |slots| == |slots'| == |ws| == |ws'|
    && forall i :: 0 <= i < |slots| ==> slots'[i].blocksReceived + ws'[i] == slots[i].blocksReceived + ws[i]
  }

  /** `r` is `pm` after `n` awaited pieces, or the endless loop of a starved slot. */
  ghost predicate Took(form: Form, pm: Partial, ws: seq<nat>, r: Result<Partial>, recs: seq<ResourceRecord>,
                       ids: seq<u16>, ws': seq<nat>, n: nat)
    requires Cast(recs, ids)
  {
    && (r.Err? ==> r == Err(NeverTerminates) && !Fed(form, pm.slots))
    && (r.Ok? ==>
          && Good(form, r.value, recs, ids, ws')
          && r.value == pm.(slots := r.value.slots, done := r.value.done)
          && SameStarved(form, pm.slots, r.value.slots)
          && Kept(pm.slots, ws, r.value.slots, ws')
          && Missing(r.value.slots) + n <= Missing(pm.slots))
  }

  lemma {:induction false} TookBoth(form: Form, pm: Partial, r1: Result<Partial>, r2: Result<Partial>,
                                    recs: seq<ResourceRecord>, ids: seq<u16>, ws: seq<nat>, ws1: seq<nat>,
                                    ws2: seq<nat>, n: nat)
    requires Cast(recs, ids) && r1.Ok?
    requires Took(form, pm, ws, r1, recs, ids, ws1, 1) && Took(form, r1.value, ws1, r2, recs, ids, ws2, n)
    ensures Took(form, pm, ws, r2, recs, ids, ws2, n + 1)
  {
    hide Good, Missing, Starved;
  }

  lemma {:induction false} DeliverMore(form: Form, pm: Partial, recs: seq<ResourceRecord>, ids: seq<u16>, ws: seq<nat>,
                                       idx: seq<nat>, fs: seq<Frag>, section: nat)
    requires Cast(recs, ids) && pm.Shaped() && Good(form, pm, recs, ids, ws) && section < 3
    requires Plan(pm.slots, recs, ids, ws, idx, fs) && fs != []
    requires AllSized(AsRecords(fs))
    ensures Took(form, pm, ws, CopySection(form, pm, AsRecords(fs), section), recs, ids, Zeros(|recs|), |fs|)
    decreases |fs|, 0
  {
    AsRecordsHead(fs);
    CopyFirst(form, pm, AsRecords(fs), section);
    hide CopyItem, CopySection, Missing, AsRecords, AllSized;
    DeliverHead(form, pm, recs, ids, ws, idx, fs, section);
    var r1 := CopyItem(form, pm, Fragment(fs[0]), section);
    if r1.Ok? {
      TookIsGood(form, pm, ws, r1, recs, ids, ws[idx[0] := 0], 1);
      hide Good, Plan, Took, Cast;
      DeliverAll(form, r1.value, recs, ids, ws[idx[0] := 0], idx[1..], fs[1..], section);
      TookBoth(form, pm, r1, CopySection(form, r1.value, AsRecords(fs[1..]), section), recs, ids,
               ws, ws[idx[0] := 0], Zeros(|recs|), |fs| - 1);
    }
  }

  lemma {:induction false} TookIsGood(form: Form, pm: Partial, ws: seq<nat>, r: Result<Partial>,
                                      recs: seq<ResourceRecord>, ids: seq<u16>, ws': seq<nat>, n: nat)
    requires Cast(recs, ids) && r.Ok? && Took(form, pm, ws, r, recs, ids, ws', n)
    ensures r.value.Shaped() && Good(form, r.value, recs, ids, ws')
  {
  }

  lemma {:induction false} AsRecordsHead(fs: seq<Frag>)
    ensures fs == [] ==> AsRecords(fs) == []
    ensures fs != [] ==> AsRecords(fs)[0] == Fragment(fs[0]) && AsRecords(fs)[1..] == AsRecords(fs[1..])
    ensures AllSized(AsRecords(fs)) <==> forall i :: 0 <= i < |fs| ==> fs[i].Sized()
    ensures fs != [] && AllSized(AsRecords(fs)) ==> AllSized(AsRecords(fs[1..]))
  {
  }

  lemma {:induction false} DeliverHead(form: Form, pm: Partial, recs: seq<ResourceRecord>, ids: seq<u16>, ws: seq<nat>,
                                       idx: seq<nat>, fs: seq<Frag>, section: nat)
    requires Cast(recs, ids) && pm.Shaped() && Good(form, pm, recs, ids, ws) && section < 3
    requires Plan(pm.slots, recs, ids, ws, idx, fs) && fs != [] && fs[0].Sized()
    ensures idx != [] && idx[0] < |ws|
    ensures var r := CopyItem(form, pm, Fragment(fs[0]), section);
      && Took(form, pm, ws, r, recs, ids, ws[idx[0] := 0], 1)
      && (r.Ok? ==> Plan(r.value.slots, recs, ids, ws[idx[0] := 0], idx[1..], fs[1..]))
  {
    var i := idx[0];
    HeadOfPlan(pm.slots, recs, ids, ws, idx, fs);
    hide Good, CopyItem, Missing, Awaited, PieceOk, Plan, Moved, Took, Cast;
    StartedAt(form, pm, recs, ids, ws, i);
    DeliverOne(form, pm, recs, ids, ws, i, section);
    var r := CopyItem(form, pm, Fragment(fs[0]), section);
    MovedTook(form, pm, r, recs, ids, ws, i);
    if !Starved(form, pm.slots[i]) {
      MovedSlots(form, pm, r, recs, ids, ws, i);
      PlanRest(pm.slots, r.value.slots, recs, ids, ws, idx, fs);
    }
  }

  lemma {:induction false} HeadOfPlan(slots: seq<Slot>, recs: seq<ResourceRecord>, ids: seq<u16>, ws: seq<nat>,
                                      idx: seq<nat>, fs: seq<Frag>)
    requires Cast(recs, ids) && Plan(slots, recs, ids, ws, idx, fs) && fs != []
    ensures idx != [] && |slots| == |recs| == |ws| == |ids| && idx[0] < |ws| && ws[idx[0]] > 0 && ids[idx[0]] != 0
    ensures PieceOk(slots, recs, ws, idx[0]) && fs[0] == Awaited(slots, recs, ids, ws, idx[0])
  {
  }

  lemma {:induction false} MovedSlots(form: Form, pm: Partial, r: Result<Partial>, recs: seq<ResourceRecord>,
                                      ids: seq<u16>, ws: seq<nat>, i: nat)
    requires Cast(recs, ids) && i < |ws| && i < |pm.slots| && Moved(form, pm, r, recs, ids, ws, i)
    ensures r.Ok? && |r.value.slots| == |pm.slots|
    ensures forall j :: 0 <= j < |pm.slots| && j != i ==> r.value.slots[j] == pm.slots[j]
  {
    hide Good, Missing;
  }

  lemma {:induction false} MovedTook(form: Form, pm: Partial, r: Result<Partial>, recs: seq<ResourceRecord>,
                                     ids: seq<u16>, ws: seq<nat>, i: nat)
    requires Cast(recs, ids) && i < |ws| == |pm.slots| && pm.slots[i].started && ws[i] > 0
    requires form == Dynamic && |pm.slots[i].bytes| == 0 ==> r == Err(NeverTerminates)
    requires form == Static || |pm.slots[i].bytes| > 0 ==> Moved(form, pm, r, recs, ids, ws, i)
    ensures Took(form, pm, ws, r, recs, ids, ws[i := 0], 1)
    ensures r.Ok? <==> !Starved(form, pm.slots[i])
  {
    hide Good, Missing;
    if Starved(form, pm.slots[i]) {
      assert !Fed(form, pm.slots);
    }
  }

  lemma {:induction false} StartedAt(form: Form, pm: Partial, recs: seq<ResourceRecord>, ids: seq<u16>, ws: seq<nat>,
                                     i: nat)
    requires Cast(recs, ids) && Good(form, pm, recs, ids, ws) && i < |ws| && ids[i] != 0
    ensures |pm.slots| == |ws| && pm.slots[i].started
  {
    assert Fine(form, pm.slots[i], recs[i], ids[i], ws[i]);
  }

  lemma {:induction false} PlanRest(slots: seq<Slot>, slots': seq<Slot>, recs: seq<ResourceRecord>, ids: seq<u16>,
                                    ws: seq<nat>, idx: seq<nat>, fs: seq<Frag>)
    requires Cast(recs, ids) && Plan(slots, recs, ids, ws, idx, fs) && fs != []
    requires |slots'| == |slots| && forall j :: 0 <= j < |slots| && j != idx[0] ==> slots'[j] == slots[j]
    ensures Plan(slots', recs, ids, ws[idx[0] := 0], idx[1..], fs[1..])
  {
    hide Piece;
    RestIndices(ws, idx);
    var ws', idx', fs' := ws[idx[0] := 0], idx[1..], fs[1..];
    forall a | 0 <= a < |idx'|
      ensures idx'[a] < |slots'| && ids[idx'[a]] != 0 && PieceOk(slots', recs, ws', idx'[a])
      ensures fs'[a] == Awaited(slots', recs, ids, ws', idx'[a])
    {
      assert idx'[a] == idx[a + 1] && fs'[a] == fs[a + 1] && idx[0] < idx[a + 1];
      assert PieceOk(slots, recs, ws, idx[a + 1]);
    }
  }

  lemma {:induction false} RestIndices(ws: seq<nat>, idx: seq<nat>)
    requires idx != [] && idx[0] < |ws|
    requires forall a, b :: 0 <= a < b < |idx| ==> idx[a] < idx[b]
    requires forall i :: 0 <= i < |ws| ==> (ws[i] > 0 <==> i in idx)
    ensures var ws', idx' := ws[idx[0] := 0], idx[1..];
      && (forall a, b :: 0 <= a < b < |idx'| ==> idx'[a] < idx'[b])
      && (forall i :: 0 <= i < |ws'| ==> (ws'[i] > 0 <==> i in idx'))
  {
  }

  lemma {:induction false} CopyFirst(form: Form, pm: Partial, ps: seq<PackedRR>, section: nat)
    requires pm.Shaped() && AllSized(ps) && section < 3
    ensures ps == [] ==> CopySection(form, pm, ps, section) == Ok(pm)
    ensures ps != [] ==> ps[0].Sized() && AllSized(ps[1..])
    ensures ps != [] && CopyItem(form, pm, ps[0], section).Ok? ==>
      CopySection(form, pm, ps, section)
      == CopySection(form, CopyItem(form, pm, ps[0], section).value, ps[1..], section)
  {
  }

  // ----- The first reply

  /** How a record may arrive at first: whole, or as a fragment with its first
      blocks, possibly none of them. */
  ghost predicate SentAs(p: PackedRR, rr: ResourceRecord, id: u16)
    requires rr.Sized()
  {
    match p
    case Whole(rr') => rr' == rr && id == 0
    case Fragment(f) =>
      && id != 0 && Blocks(|RecordToBytes(rr)|) < 0x8000
      && f.fragsize % 32 == 0 && f.fragsize <= |RecordToBytes(rr)|
      && f == Frag(f.fragsize, 0, |RecordToBytes(rr)|, id, Some(RecordToBytes(rr)[..f.fragsize]))
  }

  ghost predicate AllSentAs(ps: seq<PackedRR>, recs: seq<ResourceRecord>, ids: seq<u16>)
    requires Cast(recs, ids)
  {
    |ps| == |recs| && forall i :: 0 <= i < |ps| ==> SentAs(ps[i], recs[i], ids[i])
  }

  /** The first c slots are filled from the first c records of the reply `ps`. */
  ghost predicate Filled(form: Form, pm: Partial, ps: seq<PackedRR>, recs: seq<ResourceRecord>, ids: seq<u16>, c: nat)
    requires Cast(recs, ids)
  {
    && pm.Shaped() && pm.known && Counted(pm) && |pm.slots| == |recs| == |ps| && c <= |recs|
    && (forall i :: 0 <= i < c ==> Fine(form, pm.slots[i], recs[i], ids[i], 0))
    && (forall i :: 0 <= i < c ==> Starved(form, pm.slots[i]) == EmptyFragment(form, ps[i]))
    && (forall i :: c <= i < |recs| ==> pm.slots[i] == NewSlot(ids[i]))
  }

  /** The record starts its slot with nothing. */
  predicate EmptyFragment(form: Form, p: PackedRR) {
    form == Dynamic && p.Fragment? && p.frag.fragsize == 0
  }

  lemma {:induction false} FirstPiece(f: Frag, record: seq<byte>, id: u16)
    requires |record| < 0x10_0000 && f.fragsize % 32 == 0 && f.fragsize <= |record|
    requires f == Frag(f.fragsize, 0, |record|, id, Some(record[..f.fragsize]))
    ensures f.fragsize / 32 <= Blocks(|record|) && BytesUpTo(f.fragsize / 32, |record|) == f.fragsize
    ensures f == Piece(record, id, 0, f.fragsize / 32)
  {
  }

  lemma {:induction false} EmptyIsAt(slots: seq<Slot>, i: nat, c: nat, hi: nat)
    requires i <= c < hi <= |slots|
    requires forall j :: i <= j < c ==> slots[j].complete || slots[j].rrid != 0
    requires !slots[c].complete && slots[c].rrid == 0
    ensures FindEmpty(slots, i, hi) == c
    decreases c - i
  {
  }

  /** `r` is `pm` with slots and counters moved on to position c. */
  ghost predicate FilledTo(form: Form, pm: Partial, r: Result<Partial>, ps: seq<PackedRR>, recs: seq<ResourceRecord>,
                           ids: seq<u16>, c: nat)
    requires Cast(recs, ids)
  {
    && r.Ok? && Filled(form, r.value, ps, recs, ids, c)
    && r.value == pm.(slots := r.value.slots, done := r.value.done)
  }

  /** The record at position c fills slot c. */
  lemma {:induction false} FillOne(form: Form, pm: Partial, ps: seq<PackedRR>, recs: seq<ResourceRecord>, ids: seq<u16>,
                                   c: nat)
    requires Cast(recs, ids) && pm.Shaped() && Filled(form, pm, ps, recs, ids, c) && c < |recs| == |ps|
    requires SentAs(ps[c], recs[c], ids[c])
    ensures ps[c].Sized()
    ensures FilledTo(form, pm, CopyItem(form, pm, ps[c], SectionOf(pm, c)), ps, recs, ids, c + 1)
  {
    FilledRrids(form, pm, ps, recs, ids, c);
    match ps[c] {
      case Whole(rr) =>
        FilledBefore(form, pm, ps, recs, ids, c);
        var section := SectionOf(pm, c);
        EmptyIsAt(pm.slots, Start(pm, section), c, Start(pm, section + 1));
        assert WholeSlot(StoreWhole(pm.slots[c], rr), rr);
        hide RecordToBytes, StoreWhole, SlotAt;
        CountedStep(pm, c, StoreWhole(pm.slots[c], rr));
        FilledStep(form, pm, ps, recs, ids, c, StoreWhole(pm.slots[c], rr));
      case Fragment(f) =>
        SlotIsAt(pm.slots, c, 0);
        FillFragment(form, pm, ps, recs, ids, f, c);
    }
  }

  lemma {:induction false} FillFragment(form: Form, pm: Partial, ps: seq<PackedRR>, recs: seq<ResourceRecord>,
                                        ids: seq<u16>, f: Frag, c: nat)
    requires Cast(recs, ids) && pm.Shaped() && Filled(form, pm, ps, recs, ids, c) && c < |recs| == |ps|
    requires ps[c] == Fragment(f) && SentAs(Fragment(f), recs[c], ids[c])
    requires FindSlot(pm.slots, f.rrid) == c
    ensures FilledTo(form, pm, CopyItem(form, pm, Fragment(f), SectionOf(pm, c)), ps, recs, ids, c + 1)
  {
    hide RecordToBytes, Absorb, CountRecvd, RecvdBytes, Assembled;
    var record, id := RecordToBytes(recs[c]), ids[c];
    FirstPiece(f, record, id);
    SlotStarts(form, record, id, f.fragsize / 32);
    var s' := Absorb(form, pm.slots[c], f).value;
    RecvdRun(s'.markers, f.fragsize / 32, 0);
    CountedStep(pm, c, s');
    FilledStep(form, pm, ps, recs, ids, c, s');
  }

  lemma {:induction false} FilledRrids(form: Form, pm: Partial, ps: seq<PackedRR>, recs: seq<ResourceRecord>,
                                       ids: seq<u16>, c: nat)
    requires Cast(recs, ids) && Filled(form, pm, ps, recs, ids, c)
    ensures forall i :: 0 <= i < |recs| ==> pm.slots[i].rrid == ids[i]
  {
    forall i | 0 <= i < |recs| ensures pm.slots[i].rrid == ids[i] {
      if i < c {
        assert Fine(form, pm.slots[i], recs[i], ids[i], 0);
      }
    }
  }

  lemma {:induction false} FilledBefore(form: Form, pm: Partial, ps: seq<PackedRR>, recs: seq<ResourceRecord>,
                                        ids: seq<u16>, c: nat)
    requires Cast(recs, ids) && Filled(form, pm, ps, recs, ids, c)
    ensures forall i :: 0 <= i < c ==> pm.slots[i].complete || pm.slots[i].rrid != 0
  {
    forall i | 0 <= i < c ensures pm.slots[i].complete || pm.slots[i].rrid != 0 {
      assert Fine(form, pm.slots[i], recs[i], ids[i], 0);
    }
  }

  lemma {:induction false} FilledStep(form: Form, pm: Partial, ps: seq<PackedRR>, recs: seq<ResourceRecord>,
                                      ids: seq<u16>, c: nat, s': Slot)
    requires Cast(recs, ids) && pm.Shaped() && Filled(form, pm, ps, recs, ids, c) && c < |recs| == |ps|
    requires Fine(form, s', recs[c], ids[c], 0) && Starved(form, s') == EmptyFragment(form, ps[c])
    requires var pm' := pm.(slots := pm.slots[c := s']);
      Counted(if s'.complete then Count(pm', SectionOf(pm, c)) else pm')
    ensures var pm' := pm.(slots := pm.slots[c := s']);
      FilledTo(form, pm, Ok(if s'.complete then Count(pm', SectionOf(pm, c)) else pm'), ps, recs, ids, c + 1)
  {
    hide Fine, Counted, Starved, EmptyFragment;
  }

  /** Copying one section of the first reply, from position c on. */
  lemma {:induction false} FillSection(form: Form, pm: Partial, ps: seq<PackedRR>, recs: seq<ResourceRecord>,
                                       ids: seq<u16>, c: nat, section: nat)
    requires pm.Shaped() && Cast(recs, ids) && AllSized(ps) && section < 3
    requires Filled(form, pm, ps, recs, ids, c) && AllSentAs(ps, recs, ids)
    requires Start(pm, section) <= c <= Start(pm, section + 1) <= |ps|
    ensures AllSized(ps[c..Start(pm, section + 1)])
    ensures FilledTo(form, pm, CopySection(form, pm, ps[c..Start(pm, section + 1)], section), ps, recs, ids,
                     Start(pm, section + 1))
    decreases Start(pm, section + 1) - c, 1
  {
    if c < Start(pm, section + 1) {
      FillMore(form, pm, ps, recs, ids, c, section);
    } else {
      assert ps[c..c] == [];
      hide Filled, AllSentAs, AllSized;
    }
  }

  lemma {:induction false} FillMore(form: Form, pm: Partial, ps: seq<PackedRR>, recs: seq<ResourceRecord>,
                                    ids: seq<u16>, c: nat, section: nat)
    requires pm.Shaped() && Cast(recs, ids) && AllSized(ps) && section < 3
    requires Filled(form, pm, ps, recs, ids, c) && AllSentAs(ps, recs, ids)
    requires Start(pm, section) <= c < Start(pm, section + 1) <= |ps|
    ensures AllSized(ps[c..Start(pm, section + 1)])
    ensures FilledTo(form, pm, CopySection(form, pm, ps[c..Start(pm, section + 1)], section), ps, recs, ids,
                     Start(pm, section + 1))
    decreases Start(pm, section + 1) - c, 0
  {
    var hi := Start(pm, section + 1);
    assert SectionOf(pm, c) == section && SentAs(ps[c], recs[c], ids[c]);
    SectionHead(ps, c, hi);
    FillOne(form, pm, ps, recs, ids, c);
    CopyFirst(form, pm, ps[c..hi], section);
    hide CopyItem, CopySection, Filled, AllSentAs, AllSized, Cast, FilledTo, SentAs;
    var r1 := CopyItem(form, pm, ps[c], section);
    FilledToFacts(form, pm, r1, ps, recs, ids, c + 1);
    FillSection(form, r1.value, ps, recs, ids, c + 1, section);
    FilledToBoth(form, pm, r1, CopySection(form, r1.value, ps[c + 1..hi], section), ps, recs, ids, c + 1, hi);
  }

  lemma {:induction false} SectionHead(ps: seq<PackedRR>, c: nat, hi: nat)
    requires AllSized(ps) && c < hi <= |ps|
    ensures AllSized(ps[c..hi]) && ps[c..hi] != [] && ps[c..hi][0] == ps[c] && ps[c..hi][1..] == ps[c + 1..hi]
  {
  }

  lemma {:induction false} FilledToFacts(form: Form, pm: Partial, r: Result<Partial>, ps: seq<PackedRR>,
                                         recs: seq<ResourceRecord>, ids: seq<u16>, c: nat)
    requires Cast(recs, ids) && FilledTo(form, pm, r, ps, recs, ids, c)
    ensures r.Ok? && r.value.Shaped() && Filled(form, r.value, ps, recs, ids, c) && |ps| == |recs|
    ensures forall k :: 0 <= k <= 3 ==> Start(r.value, k) == Start(pm, k)
  {
  }

  lemma {:induction false} FilledToBoth(form: Form, pm: Partial, r1: Result<Partial>, r2: Result<Partial>,
                                        ps: seq<PackedRR>, recs: seq<ResourceRecord>, ids: seq<u16>, c1: nat, c2: nat)
    requires Cast(recs, ids) && FilledTo(form, pm, r1, ps, recs, ids, c1)
    requires FilledTo(form, r1.value, r2, ps, recs, ids, c2)
    ensures FilledTo(form, pm, r2, ps, recs, ids, c2)
  {
    hide Filled;
  }

  /** A new partial message, filled from the first reply. */
  lemma {:induction false} FillAll(form: Form, pm: Partial, m: Message, recs: seq<ResourceRecord>, ids: seq<u16>)
    requires Cast(recs, ids) && m.Sized() && AllSentAs(m.Records(), recs, ids)
    requires pm == Partial(true, m.identification, m.flags, m.questions, |m.answers|, |m.authoritative|, |m.additional|,
                           SlotsFor(m.Records()), [0, 0, 0])
    ensures FilledTo(form, pm, CopySections(form, pm, m), m.Records(), recs, ids, |recs|)
  {
    hide CopySection, AllSentAs, AllSized, Cast, Filled, FilledTo, SlotsFor;
    var ps := m.Records();
    NewSlotsFill(form, pm, ps, recs, ids);
    RecordSections(m, pm);
    FillSection(form, pm, ps, recs, ids, 0, 0);
    var r0 := CopySection(form, pm, m.answers, 0);
    FilledToFacts(form, pm, r0, ps, recs, ids, Start(pm, 1));
    FillSection(form, r0.value, ps, recs, ids, Start(pm, 1), 1);
    var r1 := CopySection(form, r0.value, m.authoritative, 1);
    FilledToFacts(form, r0.value, r1, ps, recs, ids, Start(pm, 2));
    FilledToBoth(form, pm, r0, r1, ps, recs, ids, Start(pm, 1), Start(pm, 2));
    FillSection(form, r1.value, ps, recs, ids, Start(pm, 2), 2);
    FilledToBoth(form, pm, r1, CopySection(form, r1.value, m.additional, 2), ps, recs, ids, Start(pm, 2), |recs|);
  }

  lemma {:induction false} RecordSections(m: Message, pm: Partial)
    requires m.Sized() && pm.Shaped()
    requires pm.ancount == |m.answers| && pm.nscount == |m.authoritative| && pm.arcount == |m.additional|
    ensures AllSized(m.Records()) && |m.Records()| == Start(pm, 3)
    ensures m.Records()[0..Start(pm, 1)] == m.answers
    ensures m.Records()[Start(pm, 1)..Start(pm, 2)] == m.authoritative
    ensures m.Records()[Start(pm, 2)..Start(pm, 3)] == m.additional
  {
  }

  lemma {:induction false} NewSlotsFill(form: Form, pm: Partial, ps: seq<PackedRR>, recs: seq<ResourceRecord>,
                                        ids: seq<u16>)
    requires Cast(recs, ids) && AllSentAs(ps, recs, ids)
    requires pm.Shaped() && pm.known && pm.slots == SlotsFor(ps) && pm.done == [0, 0, 0]
    ensures Filled(form, pm, ps, recs, ids, 0)
  {
    forall i | 0 <= i < |ps| ensures pm.slots[i] == NewSlot(ids[i]) {
      assert SentAs(ps[i], recs[i], ids[i]);
    }
    forall k | 0 <= k < 3 ensures CountComplete(pm.slots, Start(pm, k), Start(pm, k + 1)) == 0 {
      NoneComplete(pm.slots, Start(pm, k), Start(pm, k + 1));
    }
  }

  lemma {:induction false} NoneComplete(slots: seq<Slot>, lo: nat, hi: nat)
    requires lo <= hi <= |slots| && forall i :: lo <= i < hi ==> !slots[i].complete
    ensures CountComplete(slots, lo, hi) == 0
    decreases hi - lo
  {
    if lo < hi {
      NoneComplete(slots, lo + 1, hi);
    }
  }
}
