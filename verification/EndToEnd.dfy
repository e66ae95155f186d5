/**
 Whole runs: what the requester rebuilds is what the upstream server sent, and
 exactly when it gets there.
 */
module EndToEnd {
  import opened Wire
  import opened Names
  import opened Records
  import opened Messages
  import opened Reassembly
  import opened Requester
  import opened Responder
  import opened Progress
  import opened Delivery
  import opened Asking
  import opened Session

  // ----- Runs

  /** What a run may change, and what it may not. */
  ghost predicate RunOn(form: Form, pm: Partial, pm': Partial, recs: seq<ResourceRecord>, ids: seq<u16>)
    requires Cast(recs, ids)
  {
    && pm'.Shaped() && Good(form, pm', recs, ids, Zeros(|recs|))
    && pm' == pm.(slots := pm'.slots, done := pm'.done)
    && SameStarved(form, pm.slots, pm'.slots)
    && Missing(pm'.slots) <= Missing(pm.slots)
  }

  /** Every state that a run reaches keeps the invariant: counters, markers,
      positions and data agree with the responder's records. */
  lemma {:induction false} RunKeeps(form: Form, cache: Cache, pm: Partial, recs: seq<ResourceRecord>, ids: seq<u16>,
                                    identification: u16, maxUdp: nat, rounds: nat)
    requires Cast(recs, ids) && pm.Shaped() && Good(form, pm, recs, ids, Zeros(|recs|)) && Serves(cache, recs, ids)
    requires 12 <= maxUdp <= 65530
    ensures var r := Run(form, cache, pm, identification, maxUdp, rounds);
      r.Ok? ==> RunOn(form, pm, r.value, recs, ids)
    decreases rounds
  {
    hide Good, Cast, Missing, MessageComplete, Round, Serves, Starved;
    if rounds > 0 && !MessageComplete(pm) {
      RoundStep(form, cache, pm, recs, ids, identification, maxUdp);
      var r := Round(form, cache, pm, identification, maxUdp);
      if r.Ok? {
        RunKeeps(form, cache, r.value, recs, ids, identification, maxUdp, rounds - 1);
      }
    }
  }

  lemma {:induction false} RunCompletes(form: Form, cache: Cache, pm: Partial, recs: seq<ResourceRecord>, ids: seq<u16>,
                                        identification: u16, maxUdp: nat, rounds: nat)
    requires Cast(recs, ids) && pm.Shaped() && Good(form, pm, recs, ids, Zeros(|recs|)) && Serves(cache, recs, ids)
    requires 44 <= maxUdp <= 65530 && rounds >= Missing(pm.slots)
    requires MessageComplete(pm) || (pm.ancount > 0 && Fed(form, pm.slots))
    ensures var r := Run(form, cache, pm, identification, maxUdp, rounds);
      r.Ok? && MessageComplete(r.value)
    decreases rounds
  {
    hide Good, Cast, Missing, MessageComplete, Round, Serves, Starved;
    if !MessageComplete(pm) {
      RoundStep(form, cache, pm, recs, ids, identification, maxUdp);
      var pm' := Round(form, cache, pm, identification, maxUdp).value;
      RunCompletes(form, cache, pm', recs, ids, identification, maxUdp, rounds - 1);
    }
  }

  /** A starved slot is not complete. */
  lemma {:induction false} StarvedIsIncomplete(form: Form, pm: Partial, recs: seq<ResourceRecord>, ids: seq<u16>)
    requires Cast(recs, ids) && Good(form, pm, recs, ids, Zeros(|recs|)) && !Fed(form, pm.slots)
    ensures !MessageComplete(pm)
  {
    CountersDecide(pm);
    var i :| 0 <= i < |pm.slots| && Starved(form, pm.slots[i]);
    assert Fine(form, pm.slots[i], recs[i], ids[i], 0);
    assert |RecordToBytes(recs[i])| >= 10;
    assert !pm.slots[i].complete;
  }

  lemma {:induction false} RunStalls(form: Form, cache: Cache, pm: Partial, recs: seq<ResourceRecord>, ids: seq<u16>,
                                     identification: u16, maxUdp: nat, rounds: nat)
    requires Cast(recs, ids) && pm.Shaped() && Good(form, pm, recs, ids, Zeros(|recs|)) && Serves(cache, recs, ids)
    requires 44 <= maxUdp <= 65530
    requires !MessageComplete(pm) && (pm.ancount == 0 || !Fed(form, pm.slots))
    ensures var r := Run(form, cache, pm, identification, maxUdp, rounds);
      !(r.Ok? && MessageComplete(r.value))
  {
    RunKeeps(form, cache, pm, recs, ids, identification, maxUdp, rounds);
    var r := Run(form, cache, pm, identification, maxUdp, rounds);
    if pm.ancount == 0 {
      if rounds > 0 {
        RoundStep(form, cache, pm, recs, ids, identification, maxUdp);
        hide Good, Round, Missing;
      }
    } else if r.Ok? {
      hide Good, Run, Missing;
      var i :| 0 <= i < |pm.slots| && Starved(form, pm.slots[i]);
      assert Starved(form, r.value.slots[i]);
      StarvedIsIncomplete(form, r.value, recs, ids);
    }
  }

  // ----- No byte is requested twice

  /** All fragments requested in a run, in order. */
  function Requested(form: Form, cache: Cache, pm: Partial, identification: u16, maxUdp: nat, rounds: nat): seq<Frag>
    requires pm.Shaped()
    decreases rounds
  {
    if rounds == 0 || MessageComplete(pm) then []
    else
      match PackAll(pm, maxUdp)
      case Err(_) => []
      case Ok(k) =>
        match Round(form, cache, pm, identification, maxUdp)
        case Err(_) => k.frags
        case Ok(pm') => k.frags + Requested(form, cache, pm', identification, maxUdp, rounds - 1)
  }

  /** `f` asks for whole blocks of record i, in range, behind what has arrived. */
  ghost predicate Behind(f: Frag, slots: seq<Slot>, recs: seq<ResourceRecord>, ids: seq<u16>, i: nat)
    requires Cast(recs, ids) && |slots| == |recs|
  {
    && i < |recs| && f.rrid == ids[i] != 0 && f.data.None?
    && f.rrsize == |RecordToBytes(recs[i])| && f.fragsize > 0 && f.curidx % 32 == 0
    && BytesUpTo(slots[i].blocksReceived, f.rrsize) <= f.curidx && f.curidx + f.fragsize <= f.rrsize
  }

  ghost predicate SomewhereBehind(f: Frag, slots: seq<Slot>, recs: seq<ResourceRecord>, ids: seq<u16>)
    requires Cast(recs, ids) && |slots| == |recs|
  {
    exists i: nat :: Behind(f, slots, recs, ids, i)
  }

  ghost predicate AllBehind(fs: seq<Frag>, slots: seq<Slot>, recs: seq<ResourceRecord>, ids: seq<u16>)
    requires Cast(recs, ids) && |slots| == |recs|
  {
    forall a :: 0 <= a < |fs| ==> SomewhereBehind(fs[a], slots, recs, ids)
  }

  /** Later requests for a record lie behind the earlier ones. */
  ghost predicate NeverTwice(fs: seq<Frag>) {
    forall a, b :: 0 <= a < b < |fs| && fs[a].rrid == fs[b].rrid ==> fs[a].curidx + fs[a].fragsize <= fs[b].curidx
  }

  /** The bytes that `fs` asks for under this rrid. */
  function BytesAsked(fs: seq<Frag>, id: u16): nat {
    if fs == [] then 0
    else BytesAsked(fs[..|fs| - 1], id) + if fs[|fs| - 1].rrid == id then fs[|fs| - 1].fragsize else 0
  }

  lemma {:induction false} BytesAskedMore(fs: seq<Frag>, gs: seq<Frag>, id: u16)
    ensures BytesAsked(fs + gs, id) == BytesAsked(fs, id) + BytesAsked(gs, id)
  {
    if gs == [] {
      assert fs + gs == fs;
    } else {
      var n := |gs| - 1;
      BytesAskedMore(fs, gs[..n], id);
      assert (fs + gs)[..|fs| + n] == fs + gs[..n];
    }
  }

  lemma {:induction false} PlanAlike(slots: seq<Slot>, slots': seq<Slot>, recs: seq<ResourceRecord>, ids: seq<u16>,
                                     ws: seq<nat>, idx: seq<nat>, fs: seq<Frag>)
    requires Cast(recs, ids) && Plan(slots, recs, ids, ws, idx, fs) && |slots'| == |slots|
    requires forall i :: 0 <= i < |slots| ==> slots'[i].blocksReceived == slots[i].blocksReceived
    ensures Plan(slots', recs, ids, ws, idx, fs)
  {
    hide Piece, RecordToBytes;
    forall a | 0 <= a < |idx|
      ensures PieceOk(slots', recs, ws, idx[a]) && fs[a] == Awaited(slots', recs, ids, ws, idx[a])
    {
      assert PieceOk(slots, recs, ws, idx[a]);
    }
  }

  /** A round asks for pieces behind what has arrived, and then exactly they
      arrive. */
  lemma {:induction false} RoundRequests(form: Form, cache: Cache, pm: Partial, recs: seq<ResourceRecord>,
                                         ids: seq<u16>, identification: u16, maxUdp: nat)
    returns (k: Packing, ws: seq<nat>, idx: seq<nat>, fs: seq<Frag>)
    requires Cast(recs, ids) && pm.Shaped() && Good(form, pm, recs, ids, Zeros(|recs|)) && Serves(cache, recs, ids)
    requires 12 <= maxUdp <= 65530
    ensures PackAll(pm, maxUdp) == Ok(k) && k.frags == Bare(fs)
    ensures Plan(pm.slots, recs, ids, ws, idx, fs)
    ensures var r := Round(form, cache, pm, identification, maxUdp);
      r.Ok? ==> Kept(pm.slots, ws, r.value.slots, Zeros(|recs|))
  {
    hide PackedSoFar, Good, MessageComplete, SendRequest, PackAll, Missing, SameStarved, Plan, Serves, Cast, Round;
    k, ws, idx, fs := RoundPlan(form, pm, recs, ids, maxUdp);
    PlanAlike(k.slots, pm.slots, recs, ids, ws, idx, fs);
    PackedIsBare(pm, maxUdp);
    RequestArrives(identification, k.frags);
    var pm' := pm.(slots := k.slots);
    var request := SendRequest(identification, k.frags).value;
    GoodLengths(form, pm', recs, ids, ws);
    if fs == [] {
      IdleKeeps(form, cache, pm, identification, maxUdp, k);
    } else {
      BusyRound(form, cache, pm', recs, ids, ws, idx, fs, request);
      RoundIsReply(form, cache, pm, identification, maxUdp, k, request);
      if pm.ancount > 0 {
        ReplyKeeps(form, pm, pm', ReplyTo(form, cache, pm', request), recs, ids, ws, |fs|);
      }
    }
  }

  lemma {:induction false} GoodLengths(form: Form, pm: Partial, recs: seq<ResourceRecord>, ids: seq<u16>, ws: seq<nat>)
    requires Cast(recs, ids) && Good(form, pm, recs, ids, ws)
    ensures |pm.slots| == |recs| == |ids| == |ws|
  {
  }

  lemma {:induction false} IdleKeeps(form: Form, cache: Cache, pm: Partial, identification: u16, maxUdp: nat,
                                     k: Packing)
    requires pm.Shaped() && PackAll(pm, maxUdp) == Ok(k) && k.frags == [] && |k.slots| == |pm.slots|
    requires SendRequest(identification, [])
             == Ok(RequestMessage(identification, []).(questions := [Question([DOT], RRFRAG, 1)]))
    ensures Round(form, cache, pm, identification, maxUdp) == Ok(pm.(slots := k.slots))
  {
    hide SendRequest, PackAll;
  }

  lemma {:induction false} ReplyKeeps(form: Form, pm: Partial, pm': Partial, r: Result<Partial>,
                                      recs: seq<ResourceRecord>, ids: seq<u16>, ws: seq<nat>, n: nat)
    requires Cast(recs, ids) && |pm.slots| == |pm'.slots| && Took(form, pm', ws, r, recs, ids, Zeros(|recs|), n)
    requires forall i :: 0 <= i < |pm.slots| ==> pm'.slots[i].blocksReceived == pm.slots[i].blocksReceived
    ensures r.Ok? ==> Kept(pm.slots, ws, r.value.slots, Zeros(|recs|))
  {
    hide Good, Missing, Starved, Cast;
  }

  /** The requests of one round, as a run sees them. */
  lemma {:induction false} PlanIsBehind(slots: seq<Slot>, recs: seq<ResourceRecord>, ids: seq<u16>, ws: seq<nat>,
                                        idx: seq<nat>, fs: seq<Frag>, a: nat)
    requires Cast(recs, ids) && Plan(slots, recs, ids, ws, idx, fs) && a < |fs|
    ensures |slots| == |recs| == |ids| == |ws|
    ensures Behind(Bare(fs)[a], slots, recs, ids, idx[a])
    ensures Bare(fs)[a].curidx + Bare(fs)[a].fragsize
            == BytesUpTo(slots[idx[a]].blocksReceived + ws[idx[a]], |RecordToBytes(recs[idx[a]])|)
    ensures Bare(fs)[a].curidx == BytesUpTo(slots[idx[a]].blocksReceived, |RecordToBytes(recs[idx[a]])|)
    ensures Bare(fs)[a].rrid == ids[idx[a]] && idx[a] < |recs|
  {
    hide RecordToBytes;
    var i := idx[a];
    assert i in idx && PieceOk(slots, recs, ws, i) && fs[a] == Awaited(slots, recs, ids, ws, i);
    PieceFits(RecordToBytes(recs[i]), ids[i], slots[i].blocksReceived, ws[i]);
  }

  lemma {:induction false} PlanIsNeverTwice(slots: seq<Slot>, recs: seq<ResourceRecord>, ids: seq<u16>, ws: seq<nat>,
                                            idx: seq<nat>, fs: seq<Frag>)
    requires Cast(recs, ids) && Plan(slots, recs, ids, ws, idx, fs)
    ensures |slots| == |recs|
    ensures NeverTwice(Bare(fs)) && AllBehind(Bare(fs), slots, recs, ids)
  {
    hide RecordToBytes, Plan;
    PlanIncreases(slots, recs, ids, ws, idx, fs);
    forall a | 0 <= a < |fs| ensures SomewhereBehind(Bare(fs)[a], slots, recs, ids) {
      PlanIsBehind(slots, recs, ids, ws, idx, fs, a);
      assert Behind(Bare(fs)[a], slots, recs, ids, idx[a]);
    }
    forall a, b | 0 <= a < b < |fs| ensures Bare(fs)[a].rrid != Bare(fs)[b].rrid {
      PlanIsBehind(slots, recs, ids, ws, idx, fs, a);
      PlanIsBehind(slots, recs, ids, ws, idx, fs, b);
      assert idx[a] < idx[b];
    }
  }

  /** What one round asks for under the id of record i. */
  lemma {:induction false} PlanBytes(slots: seq<Slot>, recs: seq<ResourceRecord>, ids: seq<u16>, ws: seq<nat>,
                                     idx: seq<nat>, fs: seq<Frag>, i: nat, n: nat)
    requires Cast(recs, ids) && Plan(slots, recs, ids, ws, idx, fs) && i < |recs| && ids[i] != 0 && n <= |fs|
    ensures |slots| == |recs| == |ws|
    ensures var record := RecordToBytes(recs[i]);
      BytesAsked(Bare(fs)[..n], ids[i])
      == if i in idx[..n]
         then BytesUpTo(slots[i].blocksReceived + ws[i], |record|) - BytesUpTo(slots[i].blocksReceived, |record|) else 0
  {
    hide RecordToBytes, Plan;
    PlanIncreases(slots, recs, ids, ws, idx, fs);
    if n > 0 {
      PlanBytes(slots, recs, ids, ws, idx, fs, i, n - 1);
      var j, f := idx[n - 1], Bare(fs)[n - 1];
      PlanIsBehind(slots, recs, ids, ws, idx, fs, n - 1);
      SameId(recs, ids, i, j);
      hide Cast, Behind, BytesUpTo;
      assert Bare(fs)[..n][..n - 1] == Bare(fs)[..n - 1] && Bare(fs)[..n][n - 1] == f;
      assert idx[..n] == idx[..n - 1] + [j] && j !in idx[..n - 1];
    }
  }

  lemma {:induction false} SameId(recs: seq<ResourceRecord>, ids: seq<u16>, i: nat, j: nat)
    requires Cast(recs, ids) && i < |ids| && j < |ids| && ids[i] != 0
    ensures ids[i] == ids[j] <==> i == j
  {
  }

  lemma {:induction false} PlanIncreases(slots: seq<Slot>, recs: seq<ResourceRecord>, ids: seq<u16>, ws: seq<nat>,
                                         idx: seq<nat>, fs: seq<Frag>)
    requires Cast(recs, ids) && Plan(slots, recs, ids, ws, idx, fs)
    ensures |slots| == |recs| == |ws| && |idx| == |fs|
    ensures forall a, b :: 0 <= a < b < |idx| ==> idx[a] < idx[b]
    ensures forall i :: 0 <= i < |ws| ==> (ws[i] > 0 <==> i in idx)
  {
  }

  lemma {:induction false} PlanAsks(slots: seq<Slot>, slots': seq<Slot>, recs: seq<ResourceRecord>, ids: seq<u16>,
                                    ws: seq<nat>, idx: seq<nat>, fs: seq<Frag>, i: nat)
    requires Cast(recs, ids) && Plan(slots, recs, ids, ws, idx, fs) && i < |recs| && ids[i] != 0
    requires Kept(slots, ws, slots', Zeros(|recs|))
    ensures |slots| == |recs| == |slots'|
    ensures var n := |RecordToBytes(recs[i])|;
      BytesUpTo(slots[i].blocksReceived, n) + BytesAsked(Bare(fs), ids[i]) == BytesUpTo(slots'[i].blocksReceived, n)
  {
    hide RecordToBytes, Plan;
    PlanBytes(slots, recs, ids, ws, idx, fs, i, |fs|);
    PlanIncreases(slots, recs, ids, ws, idx, fs);
    assert Bare(fs)[..|fs|] == Bare(fs) && idx[..|fs|] == idx;
  }

  lemma {:induction false} FirstThenRest(form: Form, cache: Cache, pm: Partial, identification: u16, maxUdp: nat,
                                         rounds: nat)
    requires pm.Shaped() && rounds > 0 && !MessageComplete(pm) && PackAll(pm, maxUdp).Ok?
    ensures var fs, r := PackAll(pm, maxUdp).value.frags, Round(form, cache, pm, identification, maxUdp);
      && Requested(form, cache, pm, identification, maxUdp, rounds)
         == (if r.Err? then fs else fs + Requested(form, cache, r.value, identification, maxUdp, rounds - 1))
      && Run(form, cache, pm, identification, maxUdp, rounds)
         == (if r.Err? then r else Run(form, cache, r.value, identification, maxUdp, rounds - 1))
  {
    hide PackAll, Round, MessageComplete;
  }

  /** The first round of a run and the rest of it. */
  lemma {:induction false} RunTurn(form: Form, cache: Cache, pm: Partial, recs: seq<ResourceRecord>, ids: seq<u16>,
                                   identification: u16, maxUdp: nat, rounds: nat)
    returns (ws: seq<nat>, idx: seq<nat>, fs: seq<Frag>, r: Result<Partial>)
    requires Cast(recs, ids) && pm.Shaped() && Good(form, pm, recs, ids, Zeros(|recs|)) && Serves(cache, recs, ids)
    requires 12 <= maxUdp <= 65530 && rounds > 0 && !MessageComplete(pm)
    ensures |pm.slots| == |recs| == |ids| && Plan(pm.slots, recs, ids, ws, idx, fs)
    ensures r.Ok? ==>
      && r.value.Shaped() && Good(form, r.value, recs, ids, Zeros(|recs|)) && |r.value.slots| == |recs|
      && Kept(pm.slots, ws, r.value.slots, Zeros(|recs|))
    ensures Requested(form, cache, pm, identification, maxUdp, rounds)
            == if r.Err? then Bare(fs)
               else Bare(fs) + Requested(form, cache, r.value, identification, maxUdp, rounds - 1)
    ensures Run(form, cache, pm, identification, maxUdp, rounds)
            == if r.Err? then r else Run(form, cache, r.value, identification, maxUdp, rounds - 1)
  {
    hide Good, Cast, Missing, MessageComplete, Round, Serves, Starved, Plan, PackAll, Requested, Run;
    GoodLengths(form, pm, recs, ids, Zeros(|recs|));
    RoundStep(form, cache, pm, recs, ids, identification, maxUdp);
    var k;
    k, ws, idx, fs := RoundRequests(form, cache, pm, recs, ids, identification, maxUdp);
    FirstThenRest(form, cache, pm, identification, maxUdp, rounds);
    r := Round(form, cache, pm, identification, maxUdp);
  }

  /**
   In a whole run every request is for whole blocks within the record, and no
   byte of a record is requested twice.
   */
  lemma {:induction false} RequestsAreDisjoint(form: Form, cache: Cache, pm: Partial, recs: seq<ResourceRecord>,
                                               ids: seq<u16>, identification: u16, maxUdp: nat, rounds: nat)
    requires Cast(recs, ids) && pm.Shaped() && Good(form, pm, recs, ids, Zeros(|recs|)) && Serves(cache, recs, ids)
    requires 12 <= maxUdp <= 65530
    ensures |pm.slots| == |recs|
    ensures var fs := Requested(form, cache, pm, identification, maxUdp, rounds);
      NeverTwice(fs) && AllBehind(fs, pm.slots, recs, ids)
    decreases rounds
  {
    hide Good, Cast, MessageComplete, Serves, Plan, Requested, Run, Kept, AllBehind, NeverTwice;
    if rounds > 0 && !MessageComplete(pm) {
      var ws, idx, fs, r := RunTurn(form, cache, pm, recs, ids, identification, maxUdp, rounds);
      PlanIsNeverTwice(pm.slots, recs, ids, ws, idx, fs);
      if r.Ok? {
        RequestsAreDisjoint(form, cache, r.value, recs, ids, identification, maxUdp, rounds - 1);
        RoundThenRest(pm.slots, r.value.slots, recs, ids, ws, idx, fs,
                      Requested(form, cache, r.value, identification, maxUdp, rounds - 1));
      }
    } else {
      GoodLengths(form, pm, recs, ids, Zeros(|recs|));
      RunOver(form, cache, pm, identification, maxUdp, rounds);
      NothingRequested(pm.slots, recs, ids);
    }
  }

  lemma {:induction false} RunOver(form: Form, cache: Cache, pm: Partial, identification: u16, maxUdp: nat, rounds: nat)
    requires pm.Shaped() && (rounds == 0 || MessageComplete(pm))
    ensures Run(form, cache, pm, identification, maxUdp, rounds) == Ok(pm)
    ensures Requested(form, cache, pm, identification, maxUdp, rounds) == []
  {
  }

  lemma {:induction false} NothingRequested(slots: seq<Slot>, recs: seq<ResourceRecord>, ids: seq<u16>)
    requires Cast(recs, ids) && |slots| == |recs|
    ensures NeverTwice([]) && AllBehind([], slots, recs, ids)
  {
  }

  lemma {:induction false} BehindMoves(f: Frag, slots: seq<Slot>, slots': seq<Slot>, recs: seq<ResourceRecord>,
                                       ids: seq<u16>, ws: seq<nat>, i: nat)
    requires Cast(recs, ids) && |slots'| == |recs| && Behind(f, slots', recs, ids, i)
    requires Kept(slots, ws, slots', Zeros(|recs|))
    ensures |slots| == |recs| && Behind(f, slots, recs, ids, i)
  {
  }

  lemma {:induction false} BehindJoin(fs: seq<Frag>, gs: seq<Frag>, slots: seq<Slot>, recs: seq<ResourceRecord>,
                                      ids: seq<u16>)
    requires Cast(recs, ids) && |slots| == |recs|
    requires AllBehind(fs, slots, recs, ids) && AllBehind(gs, slots, recs, ids)
    ensures AllBehind(fs + gs, slots, recs, ids)
  {
  }

  lemma {:induction false} RoundThenRest(slots: seq<Slot>, slots': seq<Slot>, recs: seq<ResourceRecord>, ids: seq<u16>,
                                         ws: seq<nat>, idx: seq<nat>, fs: seq<Frag>, rest: seq<Frag>)
    requires Cast(recs, ids) && Plan(slots, recs, ids, ws, idx, fs) && Kept(slots, ws, slots', Zeros(|recs|))
    requires |slots| == |recs| == |slots'|
    requires NeverTwice(Bare(fs)) && AllBehind(Bare(fs), slots, recs, ids)
    requires NeverTwice(rest) && AllBehind(rest, slots', recs, ids)
    ensures NeverTwice(Bare(fs) + rest) && AllBehind(Bare(fs) + rest, slots, recs, ids)
  {
    hide RecordToBytes, Plan, Behind, Kept;
    PlanIncreases(slots, recs, ids, ws, idx, fs);
    forall b | 0 <= b < |rest| ensures SomewhereBehind(rest[b], slots, recs, ids) {
      assert SomewhereBehind(rest[b], slots', recs, ids);
      var i: nat :| Behind(rest[b], slots', recs, ids, i);
      BehindMoves(rest[b], slots, slots', recs, ids, ws, i);
    }
    BehindJoin(Bare(fs), rest, slots, recs, ids);
    forall a, b | 0 <= a < |fs| && 0 <= b < |rest| && Bare(fs)[a].rrid == rest[b].rrid
      ensures Bare(fs)[a].curidx + Bare(fs)[a].fragsize <= rest[b].curidx
    {
      assert SomewhereBehind(rest[b], slots', recs, ids);
      var i: nat :| Behind(rest[b], slots', recs, ids, i);
      PlanIsBehind(slots, recs, ids, ws, idx, fs, a);
      EarlierEndsBefore(Bare(fs)[a], rest[b], slots, slots', recs, ids, ws, idx[a], i);
    }
  }

  lemma {:induction false} EarlierEndsBefore(f: Frag, g: Frag, slots: seq<Slot>, slots': seq<Slot>,
                                             recs: seq<ResourceRecord>, ids: seq<u16>, ws: seq<nat>, i: nat, j: nat)
    requires Cast(recs, ids) && |slots| == |slots'| == |recs| == |ws| && f.rrid == g.rrid
    requires Behind(f, slots, recs, ids, i) && Behind(g, slots', recs, ids, j)
    requires Kept(slots, ws, slots', Zeros(|recs|))
    requires f.curidx + f.fragsize == BytesUpTo(slots[i].blocksReceived + ws[i], |RecordToBytes(recs[i])|)
    ensures f.curidx + f.fragsize <= g.curidx
  {
    hide RecordToBytes;
    assert i == j;
  }

  /** Together with what was there before, a run asks for exactly what it receives. */
  lemma {:induction false} RequestsAddUp(form: Form, cache: Cache, pm: Partial, recs: seq<ResourceRecord>,
                                         ids: seq<u16>, identification: u16, maxUdp: nat, rounds: nat, i: nat)
    requires Cast(recs, ids) && pm.Shaped() && Good(form, pm, recs, ids, Zeros(|recs|)) && Serves(cache, recs, ids)
    requires 12 <= maxUdp <= 65530 && i < |recs| && ids[i] != 0
    ensures |pm.slots| == |recs|
    ensures var r, n := Run(form, cache, pm, identification, maxUdp, rounds), |RecordToBytes(recs[i])|;
      r.Ok? ==>
        && |r.value.slots| == |recs|
        && BytesUpTo(pm.slots[i].blocksReceived, n)
           + BytesAsked(Requested(form, cache, pm, identification, maxUdp, rounds), ids[i])
           == BytesUpTo(r.value.slots[i].blocksReceived, n)
    decreases rounds
  {
    hide Good, Cast, MessageComplete, Serves, Plan, Requested, Run, Kept, RecordToBytes, BytesUpTo, BytesAsked;
    if rounds > 0 && !MessageComplete(pm) {
      var ws, idx, fs, r := RunTurn(form, cache, pm, recs, ids, identification, maxUdp, rounds);
      if r.Ok? {
        RequestsAddUp(form, cache, r.value, recs, ids, identification, maxUdp, rounds - 1, i);
        PlanAsks(pm.slots, r.value.slots, recs, ids, ws, idx, fs, i);
        BytesAskedMore(Bare(fs), Requested(form, cache, r.value, identification, maxUdp, rounds - 1), ids[i]);
      }
    } else {
      GoodLengths(form, pm, recs, ids, Zeros(|recs|));
      RunOver(form, cache, pm, identification, maxUdp, rounds);
      NoBytes(ids[i]);
    }
  }

  lemma {:induction false} NoBytes(id: u16)
    ensures BytesAsked([], id) == 0
  {
  }

  // ----- The first reply

  /** The upstream server's message, with the records `recs`. */
  ghost predicate Original(m: Message, recs: seq<ResourceRecord>) {
    && m.Sized() && |m.Records()| == |recs| && m.flags / 0x8000 == 1
    && (forall k :: 0 <= k < |m.questions| ==> CanonicalQuestion(m.questions[k]) && m.questions[k].qtype != RRFRAG)
    && (forall i :: 0 <= i < |recs| ==> m.Records()[i] == Whole(recs[i]) && WireSafe(recs[i]))
  }

  /** `first` is `m` with records replaced by fragments that advertise them. */
  ghost predicate Replaced(m: Message, recs: seq<ResourceRecord>, ids: seq<u16>, first: Message)
    requires Cast(recs, ids)
  {
    && first.Sized() && |first.Records()| == |recs|
    && first == m.(answers := first.answers, authoritative := first.authoritative, additional := first.additional)
    && |first.answers| == |m.answers| && |first.authoritative| == |m.authoritative|
    && |first.additional| == |m.additional|
    && forall i :: 0 <= i < |recs| ==> Advertises(first.Records()[i], recs[i], ids[i])
  }

  /** What is sent for the record arrives as SentAs describes it. */
  ghost predicate Advertises(p: PackedRR, rr: ResourceRecord, id: u16)
    requires rr.Sized()
  {
    p.Sized() && PackedFits(p, false) && SentAs(ReceivedPacked(p, false), rr, id)
  }

  lemma {:induction false} SectionsFit(m: Message)
    requires m.Sized() && forall i :: 0 <= i < |m.Records()| ==> PackedFits(m.Records()[i], false)
    ensures SectionFits(m.answers, false) && SectionFits(m.authoritative, false) && SectionFits(m.additional, false)
  {
    hide PackedFits;
    var an, ns := |m.answers|, |m.authoritative|;
    forall k | 0 <= k < an ensures PackedFits(m.answers[k], false) {
      assert m.Records()[k] == m.answers[k];
    }
    forall k | 0 <= k < ns ensures PackedFits(m.authoritative[k], false) {
      assert m.Records()[an + k] == m.authoritative[k];
    }
    forall k | 0 <= k < |m.additional| ensures PackedFits(m.additional[k], false) {
      assert m.Records()[an + ns + k] == m.additional[k];
    }
  }

  lemma {:induction false} ReceivedRecords(m: Message)
    requires m.Sized() && !m.IsQuery()
    ensures var r := ReceivedMessage(m);
      && |r.Records()| == |m.Records()|
      && forall i :: 0 <= i < |m.Records()| ==>
           m.Records()[i].Sized() && r.Records()[i] == ReceivedPacked(m.Records()[i], false)
  {
    hide ReceivedPacked;
  }

  lemma {:induction false} FirstArrives(m: Message, recs: seq<ResourceRecord>, ids: seq<u16>, first: Message)
    requires Cast(recs, ids) && Original(m, recs) && Replaced(m, recs, ids, first)
    ensures var got := ReceivedMessage(first);
      && Transmit(first) == Ok(got) && got.Sized()
      && got == m.(answers := got.answers, authoritative := got.authoritative, additional := got.additional)
      && |got.answers| == |m.answers| && |got.authoritative| == |m.authoritative| && |got.additional| == |m.additional|
      && AllSentAs(got.Records(), recs, ids)
  {
    hide SentAs, PackedFits, ReceivedPacked, MessageToBytes, MessageFromBytes, CanonicalQuestion, WireSafe;
    forall i | 0 <= i < |first.Records()| ensures PackedFits(first.Records()[i], false) {
      assert Advertises(first.Records()[i], recs[i], ids[i]);
    }
    SectionsFit(first);
    MessageRoundTrip(first);
    ReceivedRecords(first);
    var got := ReceivedMessage(first);
    forall i | 0 <= i < |recs| ensures SentAs(got.Records()[i], recs[i], ids[i]) {
      assert Advertises(first.Records()[i], recs[i], ids[i]);
    }
    assert Transmit(first) == Ok(got);
  }

  /** A new partial message, with its first reply. */
  function Begun(form: Form, got: Message): (pm: Result<Partial>)
    requires got.Sized()
    ensures pm.Ok? ==> pm.value.Shaped()
  {
    CopyMessage(form, NOTHING_YET, got)
  }

  /** `r` is what the first reply `got` makes of a new partial message. */
  ghost predicate FilledFrom(form: Form, r: Result<Partial>, got: Message, recs: seq<ResourceRecord>, ids: seq<u16>)
    requires Cast(recs, ids)
  {
    && r.Ok? && Good(form, r.value, recs, ids, Zeros(|recs|)) && HeadOf(r.value, got)
    && |r.value.slots| == |recs| == |got.Records()|
    && forall i :: 0 <= i < |recs| ==> Starved(form, r.value.slots[i]) == EmptyFragment(form, got.Records()[i])
  }

  lemma {:induction false} FirstFills(form: Form, got: Message, recs: seq<ResourceRecord>, ids: seq<u16>)
    requires Cast(recs, ids) && got.Sized() && AllSentAs(got.Records(), recs, ids)
    requires forall k :: 0 <= k < |got.questions| ==> got.questions[k].qtype != RRFRAG
    ensures FilledFrom(form, Begun(form, got), got, recs, ids)
  {
    hide Begun, AllSentAs, Cast, FilledTo, FilledFrom;
    FirstCopied(form, got, recs, ids);
    FilledToIsFrom(form, Begun(form, got), got, recs, ids);
  }

  lemma {:induction false} FilledToIsFrom(form: Form, r: Result<Partial>, got: Message, recs: seq<ResourceRecord>,
                                          ids: seq<u16>)
    requires Cast(recs, ids) && FilledTo(form, FirstPartial(got), r, got.Records(), recs, ids, |recs|)
    ensures FilledFrom(form, r, got, recs, ids)
  {
    hide Cast, Filled, Good, Starved, EmptyFragment, FilledTo, SlotsFor;
    FilledToIsFilled(form, FirstPartial(got), r, got.Records(), recs, ids, |recs|);
    FilledIsGood(form, r.value, got.Records(), recs, ids);
  }

  lemma {:induction false} FirstCopied(form: Form, got: Message, recs: seq<ResourceRecord>, ids: seq<u16>)
    requires Cast(recs, ids) && got.Sized() && AllSentAs(got.Records(), recs, ids)
    requires forall k :: 0 <= k < |got.questions| ==> got.questions[k].qtype != RRFRAG
    ensures FilledTo(form, FirstPartial(got), Begun(form, got), got.Records(), recs, ids, |recs|)
  {
    hide CopySections, AllSentAs, Cast, FilledTo, Begun;
    BegunIs(form, got);
    FillAll(form, FirstPartial(got), got, recs, ids);
  }

  ghost function FirstPartial(got: Message): Partial {
    Partial(true, got.identification, got.flags, got.questions, |got.answers|, |got.authoritative|,
            |got.additional|, SlotsFor(got.Records()), [0, 0, 0])
  }

  /** The first reply is copied into new slots. */
  lemma {:induction false} BegunIs(form: Form, got: Message)
    requires got.Sized()
    ensures FirstPartial(got).Shaped()
    ensures Begun(form, got).Ok? ==> forall k :: 0 <= k < |got.questions| ==> got.questions[k].qtype != RRFRAG
    ensures (forall k :: 0 <= k < |got.questions| ==> got.questions[k].qtype != RRFRAG) ==>
      Begun(form, got) == CopySections(form, FirstPartial(got), got)
  {
    hide CopySections, SlotsFor;
  }

  lemma {:induction false} FilledToIsFilled(form: Form, pm: Partial, r: Result<Partial>, ps: seq<PackedRR>,
                                            recs: seq<ResourceRecord>, ids: seq<u16>, c: nat)
    requires Cast(recs, ids) && FilledTo(form, pm, r, ps, recs, ids, c)
    ensures r.Ok? && Filled(form, r.value, ps, recs, ids, c)
    ensures r.value == pm.(slots := r.value.slots, done := r.value.done)
  {
  }

  lemma {:induction false} FilledIsGood(form: Form, pm: Partial, ps: seq<PackedRR>, recs: seq<ResourceRecord>,
                                        ids: seq<u16>)
    requires Cast(recs, ids) && Filled(form, pm, ps, recs, ids, |recs|)
    ensures Good(form, pm, recs, ids, Zeros(|recs|)) && |pm.slots| == |recs| == |ps|
    ensures forall i :: 0 <= i < |recs| ==> Starved(form, pm.slots[i]) == EmptyFragment(form, ps[i])
  {
  }

  // ----- The rebuilt message

  lemma {:induction false} CellsDefined(cells: seq<Cell>, bytes: seq<byte>)
    requires cells == Cells(bytes)
    ensures DefinedBytes(cells) == Some(bytes)
  {
    var r := DefinedBytes(cells).value;
    assert |r| == |bytes| by {
      assert |Cells(r)| == |cells|;
    }
    forall k | 0 <= k < |bytes| ensures r[k] == bytes[k] {
      assert Cells(r)[k] == cells[k];
    }
    assert r == bytes;
  }

  /** A complete slot holds the record's bytes, in place. */
  lemma {:induction false} CompleteHolds(form: Form, s: Slot, rr: ResourceRecord, id: u16)
    requires rr.Sized() && Fine(form, s, rr, id, 0) && s.complete
    ensures s.rrsize == |RecordToBytes(rr)| <= |s.bytes|
    ensures s.bytes[..s.rrsize] == Cells(RecordToBytes(rr))
  {
    if id != 0 {
      hide CountRecvd, RecvdBytes, RecordToBytes;
      var record := RecordToBytes(rr);
      assert s.blocksReceived == |s.markers| == Blocks(|record|);
      BlocksCover(|record|);
      assert Assembled(form, s, |record|) == s.bytes[..s.rrsize];
    }
  }

  lemma {:induction false} BlocksCover(n: nat)
    ensures BytesUpTo(Blocks(n), n) == n
  {
  }

  /** The record at the front of the slot's bytes is read, whatever is behind it. */
  lemma {:induction false} SlotReads(s: Slot, rr: ResourceRecord, rest: seq<byte>)
    requires WireSafe(rr) && s.rrsize <= |s.bytes| && s.bytes[..s.rrsize] == Cells(RecordToBytes(rr) + rest)
    ensures SlotToRecord(s) == Ok(Whole(rr))
  {
    hide RecordToBytes, RecordFromBytes, DefinedBytes;
    CellsDefined(s.bytes[..s.rrsize], RecordToBytes(rr) + rest);
    RecordRoundTrip(rr, rest);
  }

  lemma {:induction false} SlotIsRecord(form: Form, s: Slot, rr: ResourceRecord, id: u16)
    requires WireSafe(rr) && Fine(form, s, rr, id, 0) && s.complete
    ensures SlotToRecord(s) == Ok(Whole(rr))
  {
    hide Fine, RecordToBytes, SlotToRecord;
    CompleteHolds(form, s, rr, id);
    assert RecordToBytes(rr) + [] == RecordToBytes(rr);
    SlotReads(s, rr, []);
  }

  lemma {:induction false} SlotsAreRecords(slots: seq<Slot>, rs: seq<PackedRR>)
    requires |slots| == |rs| && forall i :: 0 <= i < |rs| ==> SlotToRecord(slots[i]) == Ok(rs[i])
    ensures SlotsToRecords(slots) == Ok(rs)
  {
    hide SlotToRecord;
    if slots != [] {
      SlotsAreRecords(slots[1..], rs[1..]);
      assert rs == [rs[0]] + rs[1..];
    }
  }

  /** The header of `pm` is that of `m`. */
  ghost predicate HeadOf(pm: Partial, m: Message) {
    && pm.identification == m.identification && pm.flags == m.flags && pm.questions == m.questions
    && pm.ancount == |m.answers| && pm.nscount == |m.authoritative| && pm.arcount == |m.additional|
  }

  /** Whenever message_complete holds, partial_to_dnsmessage returns the original
      message: every record, in its section and in order. */
  lemma {:induction false} CompleteIsOriginal(form: Form, pm: Partial, m: Message, recs: seq<ResourceRecord>,
                                              ids: seq<u16>)
    requires Cast(recs, ids) && Original(m, recs) && HeadOf(pm, m)
    requires Good(form, pm, recs, ids, Zeros(|recs|)) && MessageComplete(pm)
    ensures PartialToMessage(pm) == Ok(m)
  {
    CountersDecide(pm);
    AllRecords(form, pm, m, recs, ids);
    SlotsAreRecords(pm.slots, m.Records());
    RecordsSplit(m);
    hide Good, MessageComplete, SlotsToRecords, Cast, CanonicalQuestion, WireSafe;
  }

  /** Whatever has been put together, what is forwarded has the header of the first reply,
      with the QR bit set and every other flag as it was, and whole records only, each
      section as long as the first reply's. */
  lemma {:induction false} RebuiltHeader(pm: Partial)
    requires pm.Shaped() && PartialToMessage(pm).Ok?
    ensures MessageComplete(pm)
    ensures var m := PartialToMessage(pm).value;
      && m.identification == pm.identification && m.questions == pm.questions
      && m.flags / 0x8000 == 1 && m.flags % 0x8000 == pm.flags % 0x8000
      && |m.answers| == pm.ancount && |m.authoritative| == pm.nscount && |m.additional| == pm.arcount
      && forall i :: 0 <= i < |pm.slots| ==> m.Records()[i].Whole? && SlotToRecord(pm.slots[i]) == Ok(m.Records()[i])
  {
    hide SlotToRecord, MessageComplete, MarkResponse, SlotsToRecords;
    SlotsGive(pm.slots);
    var rs, an, ns := SlotsToRecords(pm.slots).value, pm.ancount, pm.ancount + pm.nscount;
    assert rs[..an] + rs[an..ns] + rs[ns..] == rs;
  }

  lemma {:induction false} SlotsGive(slots: seq<Slot>)
    requires SlotsToRecords(slots).Ok?
    ensures forall i :: 0 <= i < |slots| ==>
      SlotsToRecords(slots).value[i].Whole? && SlotToRecord(slots[i]) == Ok(SlotsToRecords(slots).value[i])
  {
    if slots != [] {
      IsWhole(slots[0]);
      SlotsGive(slots[1..]);
      hide SlotToRecord;
    }
  }

  lemma {:induction false} IsWhole(s: Slot)
    requires SlotToRecord(s).Ok?
    ensures SlotToRecord(s).value.Whole?
  {
    hide DefinedBytes, RecordFromBytes;
  }

  lemma {:induction false} RecordsSplit(m: Message)
    ensures var rs, an, ns := m.Records(), |m.answers|, |m.authoritative|;
      rs[..an] == m.answers && rs[an..an + ns] == m.authoritative && rs[an + ns..] == m.additional
  {
  }

  lemma {:induction false} AllRecords(form: Form, pm: Partial, m: Message, recs: seq<ResourceRecord>, ids: seq<u16>)
    requires Cast(recs, ids) && Original(m, recs) && Good(form, pm, recs, ids, Zeros(|recs|))
    requires forall i :: 0 <= i < |pm.slots| ==> pm.slots[i].complete
    ensures |pm.slots| == |m.Records()|
    ensures forall i :: 0 <= i < |pm.slots| ==> SlotToRecord(pm.slots[i]) == Ok(m.Records()[i])
  {
    hide SlotToRecord, Fine, Counted, CanonicalQuestion;
    forall i | 0 <= i < |pm.slots| ensures SlotToRecord(pm.slots[i]) == Ok(m.Records()[i]) {
      assert Fine(form, pm.slots[i], recs[i], ids[i], 0);
      SlotIsRecord(form, pm.slots[i], recs[i], ids[i]);
    }
  }

  // ----- The theorem

  /** The requester after the first reply. */
  function AfterFirst(form: Form, first: Message): (r: Result<Partial>)
    requires first.Sized()
    ensures r.Ok? ==> r.value.Shaped()
  {
    var got :- Transmit(first);
    Begun(form, got)
  }

  /** The first reply can be completed: there is nothing to add, or follow-ups
      have an answer section to go to and no record starts with an empty fragment
      that the dynamic form could not grow from. */
  predicate CanComplete(form: Form, first: Message, pm: Partial)
    requires pm.Shaped()
  {
    || MessageComplete(pm)
    || (first.answers != [] && forall i :: 0 <= i < |first.Records()| ==> !EmptyFragment(form, first.Records()[i]))
  }

  ghost predicate Setup(form: Form, cache: Cache, m: Message, recs: seq<ResourceRecord>, ids: seq<u16>, first: Message)
  {
    Cast(recs, ids) && Original(m, recs) && Replaced(m, recs, ids, first) && Serves(cache, recs, ids)
  }

  /** The first reply always goes in, and starves the slots of its empty fragments. */
  lemma {:induction false} FirstReply(form: Form, cache: Cache, m: Message, recs: seq<ResourceRecord>, ids: seq<u16>,
                                      first: Message)
    requires Setup(form, cache, m, recs, ids, first)
    ensures var r := AfterFirst(form, first);
      && r.Ok? && Good(form, r.value, recs, ids, Zeros(|recs|)) && HeadOf(r.value, m)
      && (CanComplete(form, first, r.value) <==>
            MessageComplete(r.value) || (r.value.ancount > 0 && Fed(form, r.value.slots)))
  {
    hide Good, MessageComplete, Starved, AllSentAs, Begun, Cast, Transmit, Original, Replaced, Serves, EmptyFragment;
    FirstIsSized(m, recs, ids, first);
    var got := ReceivedMessage(first);
    NoFragQuestions(m, recs);
    FirstArrives(m, recs, ids, first);
    FirstFills(form, got, recs, ids);
    SameEmpty(form, m, recs, ids, first);
    var pm := AfterFirst(form, first).value;
    assert forall i :: 0 <= i < |recs| ==> Starved(form, pm.slots[i]) == EmptyFragment(form, first.Records()[i]);
  }

  lemma {:induction false} FirstIsSized(m: Message, recs: seq<ResourceRecord>, ids: seq<u16>, first: Message)
    requires Cast(recs, ids) && Replaced(m, recs, ids, first)
    ensures first.Sized() && |first.Records()| == |recs| == |ids|
  {
  }

  lemma {:induction false} NoFragQuestions(m: Message, recs: seq<ResourceRecord>)
    requires Original(m, recs)
    ensures forall k :: 0 <= k < |m.questions| ==> m.questions[k].qtype != RRFRAG
  {
  }

  lemma {:induction false} SameEmpty(form: Form, m: Message, recs: seq<ResourceRecord>, ids: seq<u16>, first: Message)
    requires Cast(recs, ids) && Original(m, recs) && Replaced(m, recs, ids, first)
    ensures var got := ReceivedMessage(first);
      && |got.Records()| == |first.Records()| == |recs| && (got.answers == [] <==> first.answers == [])
      && forall i :: 0 <= i < |recs| ==>
           EmptyFragment(form, got.Records()[i]) == EmptyFragment(form, first.Records()[i])
  {
    hide Advertises, CanonicalQuestion, WireSafe, Cast;
    ReceivedRecords(first);
  }

  /** What follow-ups of this budget can do for the first reply: below 44 bytes no
      block fits into a request, and so it must be complete by itself. */
  predicate WithinBudget(form: Form, first: Message, pm: Partial, maxUdp: nat)
    requires pm.Shaped()
  {
    if 44 <= maxUdp then CanComplete(form, first, pm) else MessageComplete(pm)
  }

  /**
   What a run of this many rounds after the first reply `first` makes of the
   message `m`. If it completes, it returns exactly m. It completes within as many
   rounds as blocks are missing if follow-ups of this budget can complete the first
   reply, and in no number of rounds otherwise.
   */
  ghost predicate Rebuilds(form: Form, cache: Cache, m: Message, first: Message, identification: u16, maxUdp: nat,
                           rounds: nat)
    requires first.Sized()
  {
    && AfterFirst(form, first).Ok?
    && var pm := AfterFirst(form, first).value;
       var r := Run(form, cache, pm, identification, maxUdp, rounds);
    && (r.Ok? && MessageComplete(r.value) ==> PartialToMessage(r.value) == Ok(m))
    && (WithinBudget(form, first, pm, maxUdp) && rounds >= Missing(pm.slots) ==> r.Ok? && MessageComplete(r.value))
    && (!WithinBudget(form, first, pm, maxUdp) ==> !(r.Ok? && MessageComplete(r.value)))
  }

  // ----- Budgets of less than a block

  lemma {:induction false} NothingFits(k: Packing, lo: nat, hi: nat, ids: seq<u16>, notComplete: nat, i: nat,
                                       maxUdp: nat)
    requires lo <= hi <= |k.slots| && k.size >= 12 && maxUdp < 44
    ensures var r := PackFrom(k, lo, hi, ids, notComplete, i, maxUdp);
      r.Ok? ==> r.value == k
    decreases notComplete - i
  {
    if i < notComplete && k.size < maxUdp && i < |ids| {
      var j := FindSlot(k.slots[..hi], ids[i], lo);
      if j < hi {
        NothingIsAsked(k.slots[j], k.size, maxUdp);
        hide AskFor, FindSlot;
        if AskFor(k.slots[j], k.size, maxUdp).Nothing? {
          NothingFits(k, lo, hi, ids, notComplete, i + 1, maxUdp);
        }
      }
    }
  }

  lemma {:induction false} NothingIsAsked(s: Slot, cursize: u16, maxUdp: nat)
    requires 12 <= cursize < maxUdp < 44
    ensures var a := AskFor(s, cursize, maxUdp);
      a.Nothing? || a.NoRoom?
  {
    SomeFree(s.markers, 0);
  }

  lemma {:induction false} SomeFree(ms: seq<Marker>, j: nat)
    requires j <= |ms|
    ensures FirstFree(ms, j) < |ms| ==> FreeBlocks(ms, j) > 0
    decreases |ms| - j
  {
    if j < |ms| && ms[j] != FREE {
      SomeFree(ms, j + 1);
    }
  }

  /** Below 44 bytes a round changes nothing. */
  lemma {:induction false} TinyRoundIsIdle(form: Form, cache: Cache, pm: Partial, identification: u16, maxUdp: nat)
    requires pm.Shaped() && maxUdp < 44 && Round(form, cache, pm, identification, maxUdp).Ok?
    ensures Round(form, cache, pm, identification, maxUdp) == Ok(pm)
  {
    hide PackFrom, IncompleteIds, NotComplete, SendRequest;
    var k := Packing(pm.slots, [], 12);
    forall section: nat | section < 3
      ensures PackSection(k, pm, section, maxUdp).Ok? ==> PackSection(k, pm, section, maxUdp).value == k
    {
      var lo, hi := Start(pm, section), Start(pm, section + 1);
      NothingFits(k, lo, hi, IncompleteIds(pm.slots, lo, hi), NotComplete(pm.slots, lo, hi), 0, maxUdp);
    }
    hide PackSection;
    RequestArrives(identification, []);
    IdleKeeps(form, cache, pm, identification, maxUdp, k);
  }

  /** A run with a budget below 44 bytes ends where it started. */
  lemma {:induction false} TinyBudgetStalls(form: Form, cache: Cache, pm: Partial, identification: u16, maxUdp: nat,
                                            rounds: nat)
    requires pm.Shaped() && maxUdp < 44
    ensures var r := Run(form, cache, pm, identification, maxUdp, rounds);
      && (r.Ok? ==> r.value == pm)
      && (MessageComplete(pm) ==> r == Ok(pm))
    decreases rounds
  {
    hide Round, MessageComplete;
    if rounds > 0 && !MessageComplete(pm) && Round(form, cache, pm, identification, maxUdp).Ok? {
      TinyRoundIsIdle(form, cache, pm, identification, maxUdp);
      TinyBudgetStalls(form, cache, pm, identification, maxUdp, rounds - 1);
    }
  }

  /** End to end, for the dynamic and the static form, over every run. */
  lemma {:induction false} RunRebuilds(form: Form, cache: Cache, m: Message, recs: seq<ResourceRecord>, ids: seq<u16>,
                                       first: Message, identification: u16, maxUdp: nat, rounds: nat)
    requires Setup(form, cache, m, recs, ids, first) && maxUdp <= 65530
    ensures Rebuilds(form, cache, m, first, identification, maxUdp, rounds)
  {
    FirstReply(form, cache, m, recs, ids, first);
    var pm := AfterFirst(form, first).value;
    var r := Run(form, cache, pm, identification, maxUdp, rounds);
    hide Good, Original, Replaced, Serves, Cast, MessageComplete, Missing, Run, CanComplete, AfterFirst, Fed,
         PartialToMessage;
    if maxUdp < 44 {
      TinyBudgetStalls(form, cache, pm, identification, maxUdp, rounds);
    } else {
      RunKeeps(form, cache, pm, recs, ids, identification, maxUdp, rounds);
      if !CanComplete(form, first, pm) {
        RunStalls(form, cache, pm, recs, ids, identification, maxUdp, rounds);
      } else if rounds >= Missing(pm.slots) {
        RunCompletes(form, cache, pm, recs, ids, identification, maxUdp, rounds);
      }
    }
    if r.Ok? && MessageComplete(r.value) {
      CompleteIsOriginal(form, r.value, m, recs, ids);
    }
  }
}
