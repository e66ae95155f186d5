/**
 The follow-up request as a whole: which slots it covers, that it can be met,
 what it costs on the wire, and that an incomplete message always asks for
 something.
 */
module Asking {
  import opened Wire
  import opened Records
  import opened Messages
  import opened Reassembly
  import opened Requester
  import opened Progress
  import opened Delivery

  /** The fragments of a request carry no data. */
  function Bare(fs: seq<Frag>): (r: seq<Frag>)
    ensures |r| == |fs|
  {
    seq(|fs|, i requires 0 <= i < |fs| => fs[i].(data := None))
  }

  /** cur_message_size charges five bytes for each fragment on top of its data. */
  function Cost(fs: seq<Frag>): nat {
    if fs == [] then 0 else Cost(fs[..|fs| - 1]) + fs[|fs| - 1].fragsize + 5
  }

  /** Requests leave everything but the markers alone. */
  ghost predicate OnlyMarked(slots0: seq<Slot>, slots: seq<Slot>, idx: seq<nat>) {
    && |slots| == |slots0|
    && (forall j :: 0 <= j < |slots| ==> slots[j] == slots0[j].(markers := slots[j].markers))
    && (forall j :: 0 <= j < |slots| ==> |slots[j].markers| == |slots0[j].markers|)
    && (forall j :: 0 <= j < |slots| && j !in idx ==> slots[j] == slots0[j])
  }

  /** What has been packed so far: pieces `fs` of the slots `idx`. */
  ghost predicate PackedSoFar(form: Form, slots0: seq<Slot>, k: Packing, recs: seq<ResourceRecord>, ids: seq<u16>,
                              ws: seq<nat>, idx: seq<nat>, fs: seq<Frag>, maxUdp: nat)
    requires Cast(recs, ids)
  {
    && AllFine(form, k.slots, recs, ids, ws)
    && Plan(k.slots, recs, ids, ws, idx, fs)
    && OnlyMarked(slots0, k.slots, idx)
    && k.frags == Bare(fs)
    && k.size as int == 12 + Cost(fs) <= maxUdp + 5
  }

  ghost predicate Below(idx: seq<nat>, j: nat) {
    forall a :: 0 <= a < |idx| ==> idx[a] < j
  }

  lemma {:induction false} CostMore(fs: seq<Frag>, f: Frag)
    ensures Cost(fs + [f]) == Cost(fs) + f.fragsize + 5
    ensures Bare(fs + [f]) == Bare(fs) + [f.(data := None)]
  {
  }

  lemma {:induction false} PlanMore(slots: seq<Slot>, recs: seq<ResourceRecord>, ids: seq<u16>, ws: seq<nat>,
                                    idx: seq<nat>, fs: seq<Frag>, j: nat, s': Slot, w: nat)
    requires Cast(recs, ids) && Plan(slots, recs, ids, ws, idx, fs)
    requires j < |slots| && Below(idx, j) && w > 0 && ids[j] != 0
    requires s' == slots[j].(markers := s'.markers)
    requires PieceOk(slots[j := s'], recs, ws[j := w], j)
    ensures Plan(slots[j := s'], recs, ids, ws[j := w], idx + [j],
                 fs + [Awaited(slots[j := s'], recs, ids, ws[j := w], j)])
  {
    hide Piece;
    var slots', ws', idx' := slots[j := s'], ws[j := w], idx + [j];
    var fs' := fs + [Awaited(slots', recs, ids, ws', j)];
    forall i | 0 <= i < |ws'| ensures ws'[i] > 0 <==> i in idx' {
      if i in idx {
        var a :| 0 <= a < |idx| && idx[a] == i;
      }
      assert idx'[|idx|] == j;
    }
    forall a | 0 <= a < |idx'|
      ensures idx'[a] < |slots'| && ids[idx'[a]] != 0 && PieceOk(slots', recs, ws', idx'[a])
      ensures fs'[a] == Awaited(slots', recs, ids, ws', idx'[a])
    {
      if a < |idx| {
        assert PieceOk(slots, recs, ws, idx[a]) && fs'[a] == fs[a];
      }
    }
  }

  lemma {:induction false} MarkedMore(slots0: seq<Slot>, slots: seq<Slot>, idx: seq<nat>, j: nat, s': Slot)
    requires OnlyMarked(slots0, slots, idx) && j < |slots|
    requires s' == slots[j].(markers := s'.markers) && |s'.markers| == |slots[j].markers|
    ensures OnlyMarked(slots0, slots[j := s'], idx + [j])
  {
  }

  lemma {:induction false} FineMore(form: Form, slots: seq<Slot>, recs: seq<ResourceRecord>, ids: seq<u16>,
                                    ws: seq<nat>, j: nat, s': Slot, w: nat)
    requires Cast(recs, ids) && AllFine(form, slots, recs, ids, ws) && j < |ws|
    requires Fine(form, s', recs[j], ids[j], w)
    ensures AllFine(form, slots[j := s'], recs, ids, ws[j := w])
  {
    hide Fine;
  }

  /** One slot of the packing loop. */
  lemma {:induction false} PackOne(form: Form, slots0: seq<Slot>, k: Packing, recs: seq<ResourceRecord>, ids: seq<u16>,
                                   ws: seq<nat>, idx: seq<nat>, fs: seq<Frag>, j: nat, maxUdp: nat)
    returns (w: nat, f: Frag)
    requires Cast(recs, ids) && PackedSoFar(form, slots0, k, recs, ids, ws, idx, fs, maxUdp)
    requires j < |slots0| && Below(idx, j) && ids[j] != 0 && !slots0[j].complete
    requires k.size < maxUdp <= 65530
    ensures |k.slots| == |slots0| && |ws| == |slots0|
    ensures var a := AskFor(k.slots[j], k.size, maxUdp);
      && !a.Nothing?
      && (a.NoRoom? <==> maxUdp - k.size < 32)
      && (a.All? ==> w + slots0[j].blocksReceived == |slots0[j].markers|)
      && (!a.NoRoom? ==>
            PackedSoFar(form, slots0, Packing(k.slots[j := a.slot], k.frags + [a.frag], a.size),
                        recs, ids, ws[j := w], idx + [j], fs + [f], maxUdp))
      && (a.Part? ==> maxUdp - a.size < 32)
  {
    var s, record := k.slots[j], RecordToBytes(recs[j]);
    assert |recs| == |slots0|;
    assert s.blocksReceived == slots0[j].blocksReceived && |s.markers| == |slots0[j].markers|;
    assert j !in idx && ws[j] == 0 by { BelowIsNotIn(idx, j); }
    assert Fine(form, s, recs[j], ids[j], ws[j]);
    var r := s.blocksReceived;
    hide AskFor, SlotAt, RecordToBytes, Cost, AllFine, Plan, OnlyMarked;
    SlotSizes(form, s, record, ids[j], r);
    SlotAsks(form, s, record, ids[j], r, k.size, maxUdp);
    w := Room(s, r, k.size, maxUdp);
    f := Piece(record, ids[j], r, w);
    var a := AskFor(s, k.size, maxUdp);
    if w > 0 {
      PackedOne(form, slots0, k, recs, ids, ws, idx, fs, j, maxUdp, a, w);
    }
  }

  lemma {:induction false} BelowIsNotIn(idx: seq<nat>, j: nat)
    requires Below(idx, j)
    ensures j !in idx
  {
  }

  lemma {:induction false} SlotSizes(form: Form, s: Slot, record: seq<byte>, id: u16, r: nat)
    requires SlotAt(form, s, record, id, r, 0)
    ensures |s.markers| == Blocks(|record|) < 0x8000 && s.rrid == id && r <= |s.markers|
    ensures |record| < 0x10_0000
  {
  }

  lemma {:induction false} PackedOne(form: Form, slots0: seq<Slot>, k: Packing, recs: seq<ResourceRecord>,
                                     ids: seq<u16>, ws: seq<nat>, idx: seq<nat>, fs: seq<Frag>, j: nat, maxUdp: nat,
                                     a: Ask, w: nat)
    requires Cast(recs, ids) && PackedSoFar(form, slots0, k, recs, ids, ws, idx, fs, maxUdp)
    requires j < |slots0| == |k.slots| == |ws| == |recs| && Below(idx, j) && ids[j] != 0
    requires k.size < maxUdp <= 65530 && w > 0
    requires var record, r := RecordToBytes(recs[j]), k.slots[j].blocksReceived;
      && |record| < 0x10_0000 && r + w <= Blocks(|record|)
      && BytesUpTo(r + w, |record|) - BytesUpTo(r, |record|) <= maxUdp - k.size
      && Asked(a, k.slots[j], record, ids[j], r, w, k.size)
      && SlotAt(form, a.slot, record, ids[j], r, w)
    ensures PackedSoFar(form, slots0, Packing(k.slots[j := a.slot], k.frags + [a.frag], a.size), recs, ids,
                        ws[j := w], idx + [j],
                        fs + [Piece(RecordToBytes(recs[j]), ids[j], k.slots[j].blocksReceived, w)], maxUdp)
  {
    hide SlotAt, RecordToBytes, Cost, AllFine, Plan, OnlyMarked, Bare;
    PlanMore(k.slots, recs, ids, ws, idx, fs, j, a.slot, w);
    MarkedMore(slots0, k.slots, idx, j, a.slot);
    FineMore(form, k.slots, recs, ids, ws, j, a.slot, w);
    CostMore(fs, Piece(RecordToBytes(recs[j]), ids[j], k.slots[j].blocksReceived, w));
  }

  // ----- One section

  /** The incomplete slots from lo to hi. */
  ghost function Incomplete(slots: seq<Slot>, lo: nat, hi: nat): (pos: seq<nat>)
    requires lo <= hi <= |slots|
    decreases hi - lo
  {
    if lo == hi then []
    else (if slots[lo].complete then [] else [lo]) + Incomplete(slots, lo + 1, hi)
  }

  /** Every incomplete slot has an rrid to ask for. */
  ghost predicate Askable(slots: seq<Slot>, ids: seq<u16>) {
    && |slots| == |ids|
    && (forall j :: 0 <= j < |slots| ==> slots[j].rrid == ids[j] && (!slots[j].complete ==> ids[j] != 0))
  }

  lemma {:induction false} FindMarked(slots0: seq<Slot>, slots: seq<Slot>, ids: seq<u16>, idx: seq<nat>,
                                      lo: nat, j: nat, hi: nat)
    requires OnlyMarked(slots0, slots, idx) && Askable(slots0, ids)
    requires lo <= j < hi <= |slots0| && ids[j] != 0
    requires forall a, b :: 0 <= a < b < |ids| && ids[a] != 0 ==> ids[a] != ids[b]
    ensures |slots| == |slots0| && FindSlot(slots[..hi], ids[j], lo) == j
  {
    forall i | lo <= i < j ensures slots[..hi][i].rrid != slots[..hi][j].rrid {
      assert slots0[i].rrid == ids[i] && slots0[j].rrid == ids[j];
    }
    SlotIsAt(slots[..hi], j, lo);
  }

  /** The rest of a section's packing: still good, never crashes, and asks for
      something as soon as there is room for a block. */
  ghost predicate Extends(form: Form, slots0: seq<Slot>, k: Packing, r: Result<Packing>, recs: seq<ResourceRecord>,
                          ids: seq<u16>, ws': seq<nat>, idx': seq<nat>, fs': seq<Frag>, maxUdp: nat, hi: nat)
    requires Cast(recs, ids)
  {
    && r.Ok? && PackedSoFar(form, slots0, r.value, recs, ids, ws', idx', fs', maxUdp)
    && Below(idx', hi) && |fs'| >= |k.frags|
  }

  /** One turn of the packing loop. */
  lemma {:induction false} PackFromStep(k: Packing, lo: nat, hi: nat, want: seq<u16>, i: nat, maxUdp: nat, j: nat)
    requires lo <= hi <= |k.slots| && i < |want| && k.size < maxUdp && j < hi
    requires FindSlot(k.slots[..hi], want[i], lo) == j
    ensures var a := AskFor(k.slots[j], k.size, maxUdp);
      && (a.NoRoom? ==> PackFrom(k, lo, hi, want, |want|, i, maxUdp) == Ok(k))
      && (a.Part? ==> PackFrom(k, lo, hi, want, |want|, i, maxUdp)
                      == Ok(Packing(k.slots[j := a.slot], k.frags + [a.frag], a.size)))
      && (a.All? ==> PackFrom(k, lo, hi, want, |want|, i, maxUdp)
                     == PackFrom(Packing(k.slots[j := a.slot], k.frags + [a.frag], a.size), lo, hi, want, |want|, i + 1,
                                 maxUdp))
  {
    hide AskFor, FindSlot;
  }

  /** One turn of the loop: asks at slot j, or finds that no block fits. */
  lemma {:induction false} PackTurn(form: Form, slots0: seq<Slot>, k: Packing, recs: seq<ResourceRecord>, ids: seq<u16>,
                                    ws: seq<nat>, idx: seq<nat>, fs: seq<Frag>, lo: nat, hi: nat, want: seq<u16>,
                                    i: nat, j: nat, maxUdp: nat)
    returns (w: nat, f: Frag, a: Ask, k': Packing)
    requires Cast(recs, ids) && PackedSoFar(form, slots0, k, recs, ids, ws, idx, fs, maxUdp)
    requires Askable(slots0, ids) && lo <= j < hi <= |slots0| == |k.slots| && k.size < maxUdp <= 65530
    requires i < |want| && want[i] == ids[j] != 0 && !slots0[j].complete && Below(idx, j)
    ensures |k'.slots| == |slots0| == |ws| && |k.frags| == |fs|
    ensures a.NoRoom? <==> k.size + 32 > maxUdp
    ensures a.NoRoom? ==> PackFrom(k, lo, hi, want, |want|, i, maxUdp) == Ok(k)
    ensures a.All? ==> w + slots0[j].blocksReceived == |slots0[j].markers|
    ensures a.Part? ==> k'.size + 32 > maxUdp
    ensures !a.NoRoom? ==>
      PackedSoFar(form, slots0, k', recs, ids, ws[j := w], idx + [j], fs + [f], maxUdp) && |k'.frags| == |fs| + 1
    ensures a.All? ==> PackFrom(k, lo, hi, want, |want|, i, maxUdp) == PackFrom(k', lo, hi, want, |want|, i + 1, maxUdp)
    ensures a.Part? ==> PackFrom(k, lo, hi, want, |want|, i, maxUdp) == Ok(k')
    ensures a.All? || a.Part? || a.NoRoom?
  {
    BareLength(form, slots0, k, recs, ids, ws, idx, fs, maxUdp);
    assert OnlyMarked(slots0, k.slots, idx);
    FindMarked(slots0, k.slots, ids, idx, lo, j, hi);
    PackFromStep(k, lo, hi, want, i, maxUdp, j);
    hide PackedSoFar, OnlyMarked, FindSlot, PackFrom, AskFor, Askable, Below, Cast;
    w, f := PackOne(form, slots0, k, recs, ids, ws, idx, fs, j, maxUdp);
    a := AskFor(k.slots[j], k.size, maxUdp);
    k' := if a.NoRoom? then k else Packing(k.slots[j := a.slot], k.frags + [a.frag], a.size);
  }

  lemma {:induction false} PackFromStops(k: Packing, lo: nat, hi: nat, want: seq<u16>, i: nat, maxUdp: nat)
    requires lo <= hi <= |k.slots|
    ensures i >= |want| || k.size >= maxUdp ==> PackFrom(k, lo, hi, want, |want|, i, maxUdp) == Ok(k)
  {
  }

  /** `want` is what pack_section asks for by rrid, and `pos` where those slots are. */
  ghost predicate Positions(slots: seq<Slot>, ids: seq<u16>, lo: nat, hi: nat, pos: seq<nat>, want: seq<u16>) {
    && |slots| == |ids| && lo <= hi <= |slots| && |want| == |pos|
    && (forall t :: 0 <= t < |pos| ==> lo <= pos[t] < hi && !slots[pos[t]].complete)
    && (forall t, u :: 0 <= t < u < |pos| ==> pos[t] < pos[u])
    && (forall t :: 0 <= t < |pos| ==> want[t] == ids[pos[t]] != 0)
    && (forall p :: lo <= p < hi && !slots[p].complete ==> p in pos)
  }

  /** The requests are as large as the budget allows, first come first served: up to
      `hi` every incomplete slot is asked for all that it lacks, or else no further
      block would have fitted and no slot behind it is asked. */
  ghost predicate Greedy(slots0: seq<Slot>, size: nat, ws: seq<nat>, idx: seq<nat>, hi: nat, maxUdp: nat) {
    && |ws| == |slots0| && hi <= |slots0|
    && forall p :: 0 <= p < hi && !slots0[p].complete ==>
         || ws[p] + slots0[p].blocksReceived == |slots0[p].markers|
         || (size + 32 > maxUdp && Below(idx, p + 1))
  }

  /** One more slot is asked for all that it lacks. */
  lemma {:induction false} GreedyAll(slots0: seq<Slot>, ids: seq<u16>, size: nat, size': nat, ws: seq<nat>, w: nat,
                                     idx: seq<nat>, lo: nat, hi: nat, pos: seq<nat>, want: seq<u16>, i: nat,
                                     maxUdp: nat)
    requires Positions(slots0, ids, lo, hi, pos, want) && i < |pos|
    requires Greedy(slots0, size, ws, idx, pos[i], maxUdp) && size + 32 <= maxUdp
    requires pos[i] < |slots0| && w + slots0[pos[i]].blocksReceived == |slots0[pos[i]].markers|
    ensures Greedy(slots0, size', ws[pos[i] := w], idx + [pos[i]], Next(pos, i + 1, hi), maxUdp)
  {
    NoneBetween(slots0, ids, lo, hi, pos, want, i);
  }

  lemma {:induction false} NoneBetween(slots: seq<Slot>, ids: seq<u16>, lo: nat, hi: nat, pos: seq<nat>, want: seq<u16>,
                                       i: nat)
    requires Positions(slots, ids, lo, hi, pos, want) && i < |pos|
    ensures pos[i] < hi <= |slots| && Next(pos, i + 1, hi) <= hi
    ensures forall p :: pos[i] < p < Next(pos, i + 1, hi) ==> slots[p].complete
  {
  }

  /** Nothing more fits, and no slot from `at` on is asked. */
  lemma {:induction false} GreedyStops(slots0: seq<Slot>, size: nat, ws: seq<nat>, idx: seq<nat>, at: nat, hi: nat,
                                       maxUdp: nat)
    requires Greedy(slots0, size, ws, idx, at, maxUdp) && size + 32 > maxUdp && at <= hi <= |slots0|
    requires Below(idx, at + 1)
    ensures Greedy(slots0, size, ws, idx, hi, maxUdp)
  {
  }

  /** The slot is asked for what fits, and then nothing more does. */
  lemma {:induction false} GreedyPart(slots0: seq<Slot>, size: nat, size': nat, ws: seq<nat>, w: nat, idx: seq<nat>,
                                      j: nat, hi: nat, maxUdp: nat)
    requires Greedy(slots0, size, ws, idx, j, maxUdp) && size + 32 <= maxUdp && size' + 32 > maxUdp
    requires j < hi <= |slots0| && Below(idx, j)
    ensures Greedy(slots0, size', ws[j := w], idx + [j], hi, maxUdp)
  {
  }

  lemma {:induction false} IncompleteLists(slots: seq<Slot>, ids: seq<u16>, lo: nat, hi: nat)
    requires lo <= hi <= |slots| && Askable(slots, ids)
    ensures var pos, want := Incomplete(slots, lo, hi), IncompleteIds(slots, lo, hi);
      && NotComplete(slots, lo, hi) == |want| && Positions(slots, ids, lo, hi, pos, want)
    decreases hi - lo
  {
    if lo < hi {
      hide Positions;
      IncompleteLists(slots, ids, lo + 1, hi);
      assert [] + Incomplete(slots, lo + 1, hi) == Incomplete(slots, lo + 1, hi);
      assert [] + IncompleteIds(slots, lo + 1, hi) == IncompleteIds(slots, lo + 1, hi);
      PositionsMore(slots, ids, lo, hi, Incomplete(slots, lo + 1, hi), IncompleteIds(slots, lo + 1, hi));
    }
  }

  lemma {:induction false} PositionsMore(slots: seq<Slot>, ids: seq<u16>, lo: nat, hi: nat, pos: seq<nat>,
                                         want: seq<u16>)
    requires lo < hi <= |slots| && Askable(slots, ids) && Positions(slots, ids, lo + 1, hi, pos, want)
    ensures if slots[lo].complete then Positions(slots, ids, lo, hi, pos, want)
            else slots[lo].rrid == ids[lo] != 0 && Positions(slots, ids, lo, hi, [lo] + pos, [slots[lo].rrid] + want)
  {
    assert slots[lo].rrid == ids[lo];
    if !slots[lo].complete {
      var pos', want' := [lo] + pos, [slots[lo].rrid] + want;
      forall t | 0 <= t < |pos'|
        ensures lo <= pos'[t] < hi && !slots[pos'[t]].complete && want'[t] == ids[pos'[t]] != 0
      {
        if t > 0 {
          assert pos'[t] == pos[t - 1] && want'[t] == want[t - 1];
        }
      }
    }
  }

  function Next(pos: seq<nat>, i: nat, hi: nat): nat {
    if i < |pos| then pos[i] else hi
  }

  lemma {:induction false} PositionAt(slots: seq<Slot>, ids: seq<u16>, lo: nat, hi: nat, pos: seq<nat>, want: seq<u16>,
                                      idx: seq<nat>, i: nat)
    requires Positions(slots, ids, lo, hi, pos, want) && i <= |pos| && Below(idx, Next(pos, i, hi))
    ensures Below(idx, hi) && |want| == |pos|
    ensures i < |pos| ==>
      && lo <= pos[i] < hi && !slots[pos[i]].complete && want[i] == ids[pos[i]] != 0 && Below(idx, pos[i])
      && Below(idx + [pos[i]], Next(pos, i + 1, hi)) && Below(idx + [pos[i]], hi)
  {
  }

  lemma {:induction false} PackRest(form: Form, slots0: seq<Slot>, k: Packing, recs: seq<ResourceRecord>, ids: seq<u16>,
                                    ws: seq<nat>, idx: seq<nat>, fs: seq<Frag>, lo: nat, hi: nat,
                                    pos: seq<nat>, want: seq<u16>, i: nat, maxUdp: nat)
    returns (ws': seq<nat>, idx': seq<nat>, fs': seq<Frag>)
    requires Cast(recs, ids) && PackedSoFar(form, slots0, k, recs, ids, ws, idx, fs, maxUdp)
    requires Askable(slots0, ids) && lo <= hi <= |slots0| == |k.slots| && maxUdp <= 65530
    requires Positions(slots0, ids, lo, hi, pos, want) && i <= |pos| && Below(idx, Next(pos, i, hi))
    ensures Extends(form, slots0, k, PackFrom(k, lo, hi, want, |want|, i, maxUdp), recs, ids, ws', idx', fs', maxUdp,
                    hi)
    ensures i < |pos| && k.size + 32 <= maxUdp ==> |fs'| > |k.frags|
    requires Greedy(slots0, k.size, ws, idx, Next(pos, i, hi), maxUdp)
    ensures Greedy(slots0, PackFrom(k, lo, hi, want, |want|, i, maxUdp).value.size, ws', idx', hi, maxUdp)
    decreases |pos| - i, 1
  {
    if i < |pos| && k.size < maxUdp {
      ws', idx', fs' := PackMore(form, slots0, k, recs, ids, ws, idx, fs, lo, hi, pos, want, i, maxUdp);
    } else {
      ws', idx', fs' := ws, idx, fs;
      PositionAt(slots0, ids, lo, hi, pos, want, idx, i);
      BareLength(form, slots0, k, recs, ids, ws, idx, fs, maxUdp);
      hide PackedSoFar, PackFrom, Askable, Cast, Positions, Below, Next, Greedy;
      PackFromStops(k, lo, hi, want, i, maxUdp);
      GreedyEnds(slots0, k.size, ws, idx, pos, i, hi, maxUdp);
    }
  }

  lemma {:induction false} PackMore(form: Form, slots0: seq<Slot>, k: Packing, recs: seq<ResourceRecord>, ids: seq<u16>,
                                    ws: seq<nat>, idx: seq<nat>, fs: seq<Frag>, lo: nat, hi: nat,
                                    pos: seq<nat>, want: seq<u16>, i: nat, maxUdp: nat)
    returns (ws': seq<nat>, idx': seq<nat>, fs': seq<Frag>)
    requires Cast(recs, ids) && PackedSoFar(form, slots0, k, recs, ids, ws, idx, fs, maxUdp)
    requires Askable(slots0, ids) && lo <= hi <= |slots0| == |k.slots| && k.size < maxUdp <= 65530
    requires Positions(slots0, ids, lo, hi, pos, want) && i < |pos| && Below(idx, pos[i])
    ensures Extends(form, slots0, k, PackFrom(k, lo, hi, want, |want|, i, maxUdp), recs, ids, ws', idx', fs', maxUdp,
                    hi)
    ensures k.size + 32 <= maxUdp ==> |fs'| > |k.frags|
    requires Greedy(slots0, k.size, ws, idx, pos[i], maxUdp)
    ensures Greedy(slots0, PackFrom(k, lo, hi, want, |want|, i, maxUdp).value.size, ws', idx', hi, maxUdp)
    decreases |pos| - i, 0
  {
    PositionAt(slots0, ids, lo, hi, pos, want, idx, i);
    BareLength(form, slots0, k, recs, ids, ws, idx, fs, maxUdp);
    hide PackedSoFar, PackFrom, Askable, Cast, Positions, Below, Next, Greedy;
    var j := pos[i];
    BelowMore(idx, j);
    var w, f, a, k' := PackTurn(form, slots0, k, recs, ids, ws, idx, fs, lo, hi, want, i, j, maxUdp);
    if a.All? {
      GreedyAll(slots0, ids, k.size, k'.size, ws, w, idx, lo, hi, pos, want, i, maxUdp);
      ws', idx', fs' := PackRest(form, slots0, k', recs, ids, ws[j := w], idx + [j], fs + [f],
                                 lo, hi, pos, want, i + 1, maxUdp);
    } else if a.Part? {
      GreedyPart(slots0, k.size, k'.size, ws, w, idx, j, hi, maxUdp);
      ws', idx', fs' := ws[j := w], idx + [j], fs + [f];
    } else {
      GreedyStops(slots0, k.size, ws, idx, j, hi, maxUdp);
      ws', idx', fs' := ws, idx, fs;
    }
  }

  lemma {:induction false} BelowMore(idx: seq<nat>, j: nat)
    requires Below(idx, j)
    ensures Below(idx, j + 1)
  {
  }

  lemma {:induction false} GreedyEnds(slots0: seq<Slot>, size: nat, ws: seq<nat>, idx: seq<nat>, pos: seq<nat>, i: nat,
                                      hi: nat, maxUdp: nat)
    requires Greedy(slots0, size, ws, idx, Next(pos, i, hi), maxUdp) && hi <= |slots0| && Below(idx, Next(pos, i, hi))
    requires i >= |pos| || size >= maxUdp
    requires Next(pos, i, hi) <= hi
    ensures Greedy(slots0, size, ws, idx, hi, maxUdp)
  {
  }

  lemma {:induction false} BareLength(form: Form, slots0: seq<Slot>, k: Packing, recs: seq<ResourceRecord>,
                                      ids: seq<u16>, ws: seq<nat>, idx: seq<nat>, fs: seq<Frag>, maxUdp: nat)
    requires Cast(recs, ids) && PackedSoFar(form, slots0, k, recs, ids, ws, idx, fs, maxUdp)
    ensures |k.frags| == |fs|
  {
  }

  // ----- The three sections together

  lemma {:induction false} GoodIsAskable(form: Form, pm: Partial, recs: seq<ResourceRecord>, ids: seq<u16>,
                                         ws: seq<nat>)
    requires Cast(recs, ids) && Good(form, pm, recs, ids, ws)
    ensures Askable(pm.slots, ids)
  {
    forall j | 0 <= j < |pm.slots|
      ensures pm.slots[j].rrid == ids[j] && (!pm.slots[j].complete ==> ids[j] != 0)
    {
      assert Fine(form, pm.slots[j], recs[j], ids[j], ws[j]);
    }
  }

  lemma {:induction false} StartPacking(form: Form, pm: Partial, recs: seq<ResourceRecord>, ids: seq<u16>, maxUdp: nat)
    requires Cast(recs, ids) && Good(form, pm, recs, ids, Zeros(|recs|)) && 12 <= maxUdp
    ensures PackedSoFar(form, pm.slots, Packing(pm.slots, [], 12), recs, ids, Zeros(|recs|), [], [], maxUdp)
  {
  }

  /** The packing after the sections before `section`. */
  ghost predicate Stage(form: Form, pm: Partial, k: Packing, recs: seq<ResourceRecord>, ids: seq<u16>,
                        ws: seq<nat>, idx: seq<nat>, fs: seq<Frag>, section: nat, maxUdp: nat)
    requires Cast(recs, ids) && pm.Shaped() && section <= 3
  {
    && |k.slots| == |pm.slots| && PackedSoFar(form, pm.slots, k, recs, ids, ws, idx, fs, maxUdp)
    && Below(idx, Start(pm, section))
    && (44 <= maxUdp && fs == [] ==> forall i :: 0 <= i < Start(pm, section) ==> pm.slots[i].complete)
    && Greedy(pm.slots, k.size, ws, idx, Start(pm, section), maxUdp)
  }

  lemma {:induction false} AskSection(form: Form, pm: Partial, k: Packing, recs: seq<ResourceRecord>, ids: seq<u16>,
                                      ws: seq<nat>, idx: seq<nat>, fs: seq<Frag>, section: nat, maxUdp: nat)
    returns (r: Packing, ws': seq<nat>, idx': seq<nat>, fs': seq<Frag>)
    requires Cast(recs, ids) && pm.Shaped() && Askable(pm.slots, ids) && section < 3 && maxUdp <= 65530
    requires Stage(form, pm, k, recs, ids, ws, idx, fs, section, maxUdp)
    ensures |k.slots| == |pm.slots| && PackSection(k, pm, section, maxUdp) == Ok(r)
    ensures Stage(form, pm, r, recs, ids, ws', idx', fs', section + 1, maxUdp)
  {
    var lo, hi := Start(pm, section), Start(pm, section + 1);
    var pos, want := Incomplete(pm.slots, lo, hi), IncompleteIds(pm.slots, lo, hi);
    IncompleteLists(pm.slots, ids, lo, hi);
    BareLength(form, pm.slots, k, recs, ids, ws, idx, fs, maxUdp);
    BelowStart(pm.slots, ids, idx, pos, want, lo, hi, k.size, ws, maxUdp);
    hide PackedSoFar, PackFrom, Askable, Cast, Incomplete, IncompleteIds, NotComplete, Positions, Below, Greedy;
    ws', idx', fs' := PackRest(form, pm.slots, k, recs, ids, ws, idx, fs, lo, hi, pos, want, 0, maxUdp);
    r := PackFrom(k, lo, hi, want, |want|, 0, maxUdp).value;
    BareLength(form, pm.slots, r, recs, ids, ws', idx', fs', maxUdp);
    if 44 <= maxUdp && fs' == [] {
      forall i | lo <= i < hi ensures pm.slots[i].complete {
        if !pm.slots[i].complete {
          SomeIncomplete(pm.slots, i, lo, hi);
        }
      }
    }
  }

  lemma {:induction false} BelowStart(slots: seq<Slot>, ids: seq<u16>, idx: seq<nat>, pos: seq<nat>, want: seq<u16>,
                                      lo: nat, hi: nat, size: nat, ws: seq<nat>, maxUdp: nat)
    requires Below(idx, lo) && Positions(slots, ids, lo, hi, pos, want)
    requires Greedy(slots, size, ws, idx, lo, maxUdp)
    ensures Below(idx, Next(pos, 0, hi)) && |want| == |pos|
    ensures Greedy(slots, size, ws, idx, Next(pos, 0, hi), maxUdp)
  {
  }

  lemma {:induction false} SomeIncomplete(slots: seq<Slot>, i: nat, lo: nat, hi: nat)
    requires lo <= i < hi <= |slots| && !slots[i].complete
    ensures Incomplete(slots, lo, hi) != []
    decreases i - lo
  {
    if lo < i {
      SomeIncomplete(slots, i, lo + 1, hi);
    }
  }

  /**
   The request of a round. It never runs into an error; it asks each of its slots
   for exactly the blocks that become waiting; it costs 12 bytes and five more
   for each fragment than the data asked for, at most maxUdp + 5; it is not empty
   when something is missing and a block fits into maxUdp; and it is as large as the
   budget allows, first come first served.
   */
  lemma {:induction false} RequestPlan(form: Form, pm: Partial, recs: seq<ResourceRecord>, ids: seq<u16>, maxUdp: nat)
    returns (k: Packing, ws: seq<nat>, idx: seq<nat>, fs: seq<Frag>)
    requires Cast(recs, ids) && Good(form, pm, recs, ids, Zeros(|recs|)) && 12 <= maxUdp <= 65530
    ensures PackAll(pm, maxUdp) == Ok(k)
    ensures PackedSoFar(form, pm.slots, k, recs, ids, ws, idx, fs, maxUdp)
    ensures 44 <= maxUdp && (exists i :: 0 <= i < |pm.slots| && !pm.slots[i].complete) ==> fs != []
    ensures Greedy(pm.slots, k.size, ws, idx, |pm.slots|, maxUdp)
  {
    GoodIsAskable(form, pm, recs, ids, Zeros(|recs|));
    StartPacking(form, pm, recs, ids, maxUdp);
    assert pm.Shaped();
    hide PackedSoFar, Askable, PackSection, Good, Cast;
    var k0, k1;
    k0, ws, idx, fs := AskSection(form, pm, Packing(pm.slots, [], 12), recs, ids, Zeros(|recs|), [], [], 0, maxUdp);
    hide Stage;
    k1, ws, idx, fs := AskSection(form, pm, k0, recs, ids, ws, idx, fs, 1, maxUdp);
    k, ws, idx, fs := AskSection(form, pm, k1, recs, ids, ws, idx, fs, 2, maxUdp);
    LastStage(form, pm, k, recs, ids, ws, idx, fs, maxUdp);
  }

  lemma {:induction false} LastStage(form: Form, pm: Partial, k: Packing, recs: seq<ResourceRecord>, ids: seq<u16>,
                                     ws: seq<nat>, idx: seq<nat>, fs: seq<Frag>, maxUdp: nat)
    requires Cast(recs, ids) && pm.Shaped() && Stage(form, pm, k, recs, ids, ws, idx, fs, 3, maxUdp)
    ensures PackedSoFar(form, pm.slots, k, recs, ids, ws, idx, fs, maxUdp)
    ensures 44 <= maxUdp && (exists i :: 0 <= i < |pm.slots| && !pm.slots[i].complete) ==> fs != []
    ensures Greedy(pm.slots, k.size, ws, idx, |pm.slots|, maxUdp)
  {
    hide PackedSoFar, Cast, Greedy;
  }

  /** Marking changes neither the counters nor what is missing. */
  lemma {:induction false} MarkingIsNeutral(pm: Partial, slots: seq<Slot>, idx: seq<nat>)
    requires pm.Shaped() && Counted(pm) && OnlyMarked(pm.slots, slots, idx)
    ensures Missing(slots) == Missing(pm.slots) && Counted(pm.(slots := slots))
  {
    SameMissing(pm.slots, slots);
    var pm' := pm.(slots := slots);
    forall k | 0 <= k < 3 ensures pm'.done[k] == CountComplete(slots, Start(pm', k), Start(pm', k + 1)) {
      SameComplete(pm.slots, slots, Start(pm, k), Start(pm, k + 1));
    }
  }

  lemma {:induction false} SameMissing(slots0: seq<Slot>, slots: seq<Slot>)
    requires |slots| == |slots0|
    requires forall j :: 0 <= j < |slots| ==>
      slots[j].blocksReceived == slots0[j].blocksReceived && |slots[j].markers| == |slots0[j].markers|
    ensures Missing(slots) == Missing(slots0)
  {
    if slots != [] {
      var k := |slots| - 1;
      assert slots[k].blocksReceived == slots0[k].blocksReceived;
      SameMissing(slots0[..k], slots[..k]);
    }
  }

  lemma {:induction false} SameComplete(slots0: seq<Slot>, slots: seq<Slot>, lo: nat, hi: nat)
    requires |slots| == |slots0| && lo <= hi <= |slots|
    requires forall j :: 0 <= j < |slots| ==> slots[j].complete == slots0[j].complete
    ensures CountComplete(slots, lo, hi) == CountComplete(slots0, lo, hi)
    decreases hi - lo
  {
    if lo < hi {
      SameComplete(slots0, slots, lo + 1, hi);
    }
  }

  lemma {:induction false} GoodAfterAsking(form: Form, pm: Partial, k: Packing, recs: seq<ResourceRecord>,
                                           ids: seq<u16>, ws: seq<nat>, idx: seq<nat>, fs: seq<Frag>, maxUdp: nat)
    requires Cast(recs, ids) && Good(form, pm, recs, ids, Zeros(|recs|))
    requires PackedSoFar(form, pm.slots, k, recs, ids, ws, idx, fs, maxUdp)
    ensures var pm' := pm.(slots := k.slots);
      && pm'.Shaped() && Good(form, pm', recs, ids, ws) && Plan(pm'.slots, recs, ids, ws, idx, fs)
      && Missing(pm'.slots) == Missing(pm.slots)
      && SameStarved(form, pm.slots, pm'.slots)
  {
    hide AllFine, Plan, Counted, Missing;
    MarkingIsNeutral(pm, k.slots, idx);
  }

  /** message_complete looks only at the three counters, and is right. */
  lemma {:induction false} CountersDecide(pm: Partial)
    requires pm.Shaped() && pm.known && Counted(pm)
    ensures MessageComplete(pm) <==> forall i :: 0 <= i < |pm.slots| ==> pm.slots[i].complete
  {
    CountAllComplete(pm.slots, 0, pm.ancount);
    CountAllComplete(pm.slots, pm.ancount, pm.ancount + pm.nscount);
    CountAllComplete(pm.slots, pm.ancount + pm.nscount, |pm.slots|);
    assert pm.done[0] == CountComplete(pm.slots, Start(pm, 0), Start(pm, 1));
    assert pm.done[1] == CountComplete(pm.slots, Start(pm, 1), Start(pm, 2));
    assert pm.done[2] == CountComplete(pm.slots, Start(pm, 2), Start(pm, 3));
  }

  lemma {:induction false} CountAllComplete(slots: seq<Slot>, lo: nat, hi: nat)
    requires lo <= hi <= |slots|
    ensures CountComplete(slots, lo, hi) <= hi - lo
    ensures CountComplete(slots, lo, hi) == hi - lo <==> forall i :: lo <= i < hi ==> slots[i].complete
    decreases hi - lo
  {
    if lo < hi {
      CountAllComplete(slots, lo + 1, hi);
    }
  }
}
