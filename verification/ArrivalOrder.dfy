/**
 Whole records out of fragments in any order: the dynamic reassembler against
 the static one, and both against the fragments themselves.
 */
module ArrivalOrder {
  import opened Wire
  import opened Records
  import opened Reassembly

  /** One slot fed with a list of fragments. */
  function AbsorbAll(form: Form, s: Slot, fs: seq<Frag>): Result<Slot>
    requires forall i :: 0 <= i < |fs| ==> fs[i].Sized()
  {
    if fs == [] then Ok(s)
    else
      var before :- AbsorbAll(form, s, fs[..|fs| - 1]);
      Absorb(form, before, fs[|fs| - 1])
  }

  predicate AllOf(fs: seq<Frag>, n: nat) {
    forall i {:trigger fs[i]} :: 0 <= i < |fs| ==> FragOf(fs[i], n)
  }

  predicate Disjoint(f: Frag, g: Frag) {
    EndBlock(f) <= FirstBlock(g) || EndBlock(g) <= FirstBlock(f)
  }

  /** Nonempty, block-aligned, pairwise disjoint pieces of one n-byte record,
      small enough for the 16-bit header count. */
  predicate Conforming(fs: seq<Frag>, n: nat) {
    && Blocks(n) <= 0x8000
    && AllOf(fs, n)
    && (forall i :: 0 <= i < |fs| ==> fs[i].fragsize > 0)
    && (forall i, j {:trigger fs[i], fs[j]} :: 0 <= i < j < |fs| ==> Disjoint(fs[i], fs[j]))
  }

  predicate Covers(f: Frag, block: nat) {
    FirstBlock(f) <= block < EndBlock(f)
  }

  ghost predicate Covered(fs: seq<Frag>, block: nat) {
    exists i :: 0 <= i < |fs| && Covers(fs[i], block)
  }

  /** The fragments fill the record. */
  ghost predicate Tiled(fs: seq<Frag>, n: nat) {
    forall block :: 0 <= block < Blocks(n) ==> Covered(fs, block)
  }

  ghost function Concat(fs: seq<Frag>): seq<Cell>
  {
    if fs == [] then [] else Concat(fs[..|fs| - 1]) + FragCells(fs[|fs| - 1])
  }

  ghost predicate Placed(cells: seq<Cell>, f: Frag) {
    forall k :: 0 <= k < |FragCells(f)| ==>
      f.curidx + k < |cells| && cells[f.curidx + k] == FragCells(f)[k]
  }

  /** Every fragment of `fs` is in its place. */
  ghost predicate InPlace(cells: seq<Cell>, fs: seq<Frag>) {
    forall i :: 0 <= i < |fs| ==> Placed(cells, fs[i])
  }

  /** What a slot looks like after a nonempty list of fragments. */
  ghost predicate After(form: Form, s: Slot, fs: seq<Frag>, n: nat)
    requires AllOf(fs, n)
  {
    && Sound(form, s) && s.rrsize == n
    && (forall j :: 0 <= j < |s.markers| ==> s.markers[j] == if Covered(fs, j) then RECVD else FREE)
    && InPlace(Assembled(form, s, n), fs)
    && |s.headers| <= s.blocksReceived
    && (form == Dynamic ==> |s.bytes| > 0)
    && (form == Dynamic && !s.complete ==> Staged(s) == Concat(fs))
  }

  lemma {:induction false} CoveredMore(fs: seq<Frag>, f: Frag, j: nat)
    ensures Covered(fs + [f], j) <==> Covered(fs, j) || Covers(f, j)
  {
    var gs := fs + [f];
    if Covered(fs, j) {
      var i :| 0 <= i < |fs| && Covers(fs[i], j);
      assert Covers(gs[i], j);
    }
    if Covers(f, j) {
      assert Covers(gs[|fs|], j);
    }
  }

  lemma {:induction false} UncoveredIsFree(form: Form, s: Slot, fs: seq<Frag>, f: Frag, n: nat)
    requires AllOf(fs, n) && After(form, s, fs, n) && FragOf(f, n) && f.fragsize > 0
    requires forall i :: 0 <= i < |fs| ==> Disjoint(fs[i], f)
    ensures NoneRecvd(s.markers, FirstBlock(f), EndBlock(f)) && !s.complete
    ensures s.blocksReceived < |s.markers|
  {
    SpanArithmetic(f);
    forall j: nat | FirstBlock(f) <= j < EndBlock(f) ensures !Covered(fs, j) {
      assert forall i :: 0 <= i < |fs| ==> Disjoint(fs[i], f);
    }
    assert s.markers[FirstBlock(f)] != RECVD;
    CountAll(s.markers, n);
  }

  lemma {:induction false} PlaceOne(cells: seq<Cell>, fs: seq<Frag>, f: Frag, n: nat)
    requires AllOf(fs, n) && FragOf(f, n) && |cells| == n
    requires forall i :: 0 <= i < |fs| ==> Disjoint(fs[i], f)
    requires InPlace(cells, fs)
    ensures InPlace(Splice(cells, f.curidx, FragCells(f)), fs + [f])
  {
    hide Placed, Disjoint;
    var gs, r := fs + [f], Splice(cells, f.curidx, FragCells(f));
    forall i | 0 <= i < |gs| ensures Placed(r, gs[i]) {
      if i < |fs| {
        assert gs[i] == fs[i];
        StillPlaced(cells, fs[i], f, n);
      } else {
        JustPlaced(cells, f);
      }
    }
  }

  lemma {:induction false} JustPlaced(cells: seq<Cell>, f: Frag)
    requires f.curidx + |FragCells(f)| <= |cells|
    ensures Placed(Splice(cells, f.curidx, FragCells(f)), f)
  {
  }

  lemma {:induction false} StillPlaced(cells: seq<Cell>, g: Frag, f: Frag, n: nat)
    requires FragOf(g, n) && FragOf(f, n) && Disjoint(g, f) && |cells| == n
    requires Placed(cells, g)
    ensures Placed(Splice(cells, f.curidx, FragCells(f)), g)
  {
    Apart(g, f, n);
    var r := Splice(cells, f.curidx, FragCells(f));
    assert |r| == n && g.curidx + |FragCells(g)| <= n;
    forall k | 0 <= k < |FragCells(g)|
      ensures g.curidx + k < |r| && r[g.curidx + k] == FragCells(g)[k]
    {
      assert cells[g.curidx + k] == FragCells(g)[k];
    }
  }

  lemma {:induction false} Apart(f: Frag, g: Frag, n: nat)
    requires FragOf(f, n) && FragOf(g, n) && Disjoint(f, g)
    ensures f.curidx + f.fragsize <= g.curidx || g.curidx + g.fragsize <= f.curidx
            || f.fragsize == 0 || g.fragsize == 0
  {
  }

  lemma {:induction false} MarkersMore(ms: seq<Marker>, fs: seq<Frag>, f: Frag)
    requires forall j :: 0 <= j < |ms| ==> ms[j] == if Covered(fs, j) then RECVD else FREE
    ensures var ms' := Mark(ms, FirstBlock(f), EndBlock(f), RECVD);
      forall j :: 0 <= j < |ms'| ==> ms'[j] == if Covered(fs + [f], j) then RECVD else FREE
  {
    hide Covered;
    forall j: nat | j < |ms| ensures Covered(fs + [f], j) <==> Covered(fs, j) || Covers(f, j) {
      CoveredMore(fs, f, j);
    }
  }

  lemma {:induction false} Step(form: Form, s: Slot, f: Frag)
    requires Welcome(form, s, f) && !Stuck(form, s, f)
    ensures Absorb(form, s, f).Ok? && Delivered(form, s, f, Absorb(form, s, f).value)
  {
    match form
    case Static => StaticStep(s, f);
    case Dynamic => DynamicStep(s, f);
  }

  lemma {:induction false} HeadersVersusBlocks(form: Form, s: Slot, f: Frag, s': Slot)
    requires Welcome(form, s, f) && f.fragsize > 0
    requires Delivered(form, s, f, s')
    requires |s.headers| <= s.blocksReceived
    ensures |s'.headers| <= s'.blocksReceived
  {
    SpanArithmetic(f);
    var ms := MarkersOf(s, f.rrsize);
    CountMark(ms, FirstBlock(f), EndBlock(f), f.rrsize);
    if !s.started {
      CountFree(ms, f.rrsize);
    }
  }

  /** One more fragment, on a slot that has taken `fs` (none at all, for a new slot). */
  lemma {:induction false} AfterOneMore(form: Form, s: Slot, s': Slot, fs: seq<Frag>, f: Frag, n: nat)
    requires AllOf(fs, n) && FragOf(f, n) && f.fragsize > 0
    requires forall i :: 0 <= i < |fs| ==> Disjoint(fs[i], f)
    requires Welcome(form, s, f) && Delivered(form, s, f, s')
    requires forall j :: 0 <= j < Blocks(n) ==> MarkersOf(s, n)[j] == if Covered(fs, j) then RECVD else FREE
    requires InPlace(Assembled(form, s, n), fs)
    requires |s.headers| <= s.blocksReceived
    requires form == Dynamic ==> Staged(s) == Concat(fs)
    ensures AllOf(fs + [f], n) && After(form, s', fs + [f], n)
  {
    hide CountRecvd, RecvdBytes, Scatter, Total, Assembled, Covered, InPlace;
    HeadersVersusBlocks(form, s, f, s');
    MarkersMore(MarkersOf(s, n), fs, f);
    PlaceOne(Assembled(form, s, n), fs, f, n);
    assert (fs + [f])[..|fs|] == fs;
  }

  lemma {:induction false} AfterFirst(form: Form, rrid: u16, f: Frag, n: nat)
    requires FragOf(f, n) && f.fragsize > 0
    ensures Absorb(form, NewSlot(rrid), f).Ok?
    ensures AllOf([f], n) && After(form, Absorb(form, NewSlot(rrid), f).value, [f], n)
  {
    hide Absorb, Delivered;
    var s := NewSlot(rrid);
    Step(form, s, f);
    var none: seq<Frag> := [];
    assert none + [f] == [f];
    AfterOneMore(form, s, Absorb(form, s, f).value, none, f, n);
  }

  lemma {:induction false} AfterNext(form: Form, s: Slot, fs: seq<Frag>, f: Frag, n: nat)
    requires AllOf(fs, n) && After(form, s, fs, n) && Blocks(n) <= 0x8000
    requires FragOf(f, n) && f.fragsize > 0
    requires forall i :: 0 <= i < |fs| ==> Disjoint(fs[i], f)
    ensures Absorb(form, s, f).Ok?
    ensures AllOf(fs + [f], n) && After(form, Absorb(form, s, f).value, fs + [f], n)
  {
    hide Absorb, Delivered, Covered, InPlace;
    UncoveredIsFree(form, s, fs, f, n);
    Step(form, s, f);
    AfterOneMore(form, s, Absorb(form, s, f).value, fs, f, n);
  }

  lemma {:induction false} AfterAll(form: Form, rrid: u16, fs: seq<Frag>, n: nat)
    requires Conforming(fs, n) && fs != []
    ensures AbsorbAll(form, NewSlot(rrid), fs).Ok?
    ensures After(form, AbsorbAll(form, NewSlot(rrid), fs).value, fs, n)
  {
    hide Absorb, After;
    var k := |fs| - 1;
    var f, before := fs[k], fs[..k];
    assert before + [f] == fs;
    if before == [] {
      assert fs == [f];
      assert AbsorbAll(form, NewSlot(rrid), before) == Ok(NewSlot(rrid));
      AfterFirst(form, rrid, f, n);
    } else {
      AfterAll(form, rrid, before, n);
      AfterNext(form, AbsorbAll(form, NewSlot(rrid), before).value, before, f, n);
    }
  }

  lemma {:induction false} CompleteIsTiled(form: Form, s: Slot, fs: seq<Frag>, n: nat)
    requires AllOf(fs, n)
    requires After(form, s, fs, n)
    ensures s.complete <==> Tiled(fs, n)
  {
    CountAll(s.markers, n);
    hide Covered, InPlace;
  }

  /** The byte at `p` comes from the fragment that covers it. */
  lemma {:induction false} ByteFromFragment(cells: seq<Cell>, fs: seq<Frag>, n: nat, p: nat, i: nat)
    requires AllOf(fs, n) && InPlace(cells, fs) && |cells| == n
    requires p < n && i < |fs| && Covers(fs[i], p / 32)
    ensures fs[i].curidx <= p < fs[i].curidx + fs[i].fragsize
    ensures cells[p] == FragCells(fs[i])[p - fs[i].curidx]
  {
  }

  lemma {:induction false} SameBytes(cells: seq<Cell>, fs: seq<Frag>, cells': seq<Cell>, gs: seq<Frag>, n: nat)
    requires AllOf(fs, n) && AllOf(gs, n) && |cells| == |cells'| == n
    requires forall f :: f in fs <==> f in gs
    requires InPlace(cells, fs) && InPlace(cells', gs) && Tiled(fs, n)
    ensures cells == cells'
  {
    hide InPlace, FragOf, FragCells, Covers;
    forall p | 0 <= p < n ensures cells[p] == cells'[p] {
      assert Covered(fs, p / 32);
      var i :| 0 <= i < |fs| && Covers(fs[i], p / 32);
      assert fs[i] in gs;
      var j :| 0 <= j < |gs| && gs[j] == fs[i];
      ByteFromFragment(cells, fs, n, p, i);
      ByteFromFragment(cells', gs, n, p, j);
    }
  }

  /**
   The dynamic form refines the static one. Whatever the order of arrival, both
   accept the fragments; they agree on markers and counters all along; each is
   complete exactly when the fragments fill the record; the dynamic buffer is
   the fragments' data back to back until then, and afterwards its first n bytes
   are those of the static buffer, every one of them written.
   */
  lemma {:induction false} DynamicRefinesStatic(rrid: u16, fs: seq<Frag>, n: nat)
    requires Conforming(fs, n) && fs != []
    ensures var rd, rs := AbsorbAll(Dynamic, NewSlot(rrid), fs), AbsorbAll(Static, NewSlot(rrid), fs);
      && rd.Ok? && rs.Ok?
      && var d, s := rd.value, rs.value;
      && (d.complete <==> Tiled(fs, n)) && (s.complete <==> Tiled(fs, n))
      && d.markers == s.markers
      && d.blocksReceived == s.blocksReceived && d.bytesReceived == s.bytesReceived
      && (!d.complete ==> Staged(d) == Concat(fs))
      && |s.bytes| == n
      && (d.complete ==> |d.bytes| >= n && d.bytes[..n] == s.bytes)
      && (d.complete ==> forall i, k :: 0 <= i < |fs| && 0 <= k < fs[i].fragsize ==>
            s.bytes[fs[i].curidx + k] == FragCells(fs[i])[k])
  {
    hide Absorb, AbsorbAll;
    AfterAll(Dynamic, rrid, fs, n);
    AfterAll(Static, rrid, fs, n);
    var d, s := AbsorbAll(Dynamic, NewSlot(rrid), fs).value, AbsorbAll(Static, NewSlot(rrid), fs).value;
    CompleteIsTiled(Dynamic, d, fs, n);
    CompleteIsTiled(Static, s, fs, n);
    assert d.markers == s.markers by { hide Sound, InPlace, Covered; }
    if d.complete {
      SameBytes(Assembled(Dynamic, d, n), fs, Assembled(Static, s, n), fs, n);
    }
  }

  /**
   The order of arrival does not matter: two orders of the same fragments, each
   in either form, complete or fail to complete together, and once complete they
   hold the same record.
   */
  lemma {:induction false} OrderDoesNotMatter(form: Form, form': Form, rrid: u16, fs: seq<Frag>, gs: seq<Frag>, n: nat)
    requires Conforming(fs, n) && Conforming(gs, n) && fs != [] && gs != []
    requires forall f :: f in fs <==> f in gs
    ensures var r, r' := AbsorbAll(form, NewSlot(rrid), fs), AbsorbAll(form', NewSlot(rrid), gs);
      && r.Ok? && r'.Ok?
      && r.value.complete == r'.value.complete
      && |r.value.bytes| >= (if r.value.complete then n else 0)
      && (r.value.complete ==> |r'.value.bytes| >= n && r.value.bytes[..n] == r'.value.bytes[..n])
  {
    hide Absorb, AbsorbAll;
    AfterAll(form, rrid, fs, n);
    AfterAll(form', rrid, gs, n);
    var s, s' := AbsorbAll(form, NewSlot(rrid), fs).value, AbsorbAll(form', NewSlot(rrid), gs).value;
    CompleteIsTiled(form, s, fs, n);
    CompleteIsTiled(form', s', gs, n);
    SameTiling(fs, gs, n);
    SameTiling(gs, fs, n);
    if s.complete {
      SameBytes(Assembled(form, s, n), fs, Assembled(form', s', n), gs, n);
    }
  }

  lemma {:induction false} SameTiling(fs: seq<Frag>, gs: seq<Frag>, n: nat)
    requires forall f :: f in fs ==> f in gs
    ensures Tiled(fs, n) ==> Tiled(gs, n)
  {
    if Tiled(fs, n) {
      forall block | 0 <= block < Blocks(n) ensures Covered(gs, block) {
        assert Covered(fs, block);
        var i :| 0 <= i < |fs| && Covers(fs[i], block);
        assert fs[i] in gs;
        var j :| 0 <= j < |gs| && gs[j] == fs[i];
      }
    }
  }

  /**
   The one thing that separates the two forms. A first fragment that carries
   nothing leaves the dynamic form with an empty buffer to double: whatever
   nonempty fragment comes next, it never gets past it, while the static form
   carries on as if the empty fragment had not been there.
   */
  lemma {:induction false} EmptyFirstFragment(rrid: u16, e: Frag, f: Frag, n: nat)
    requires FragOf(e, n) && e.fragsize == 0 && e.curidx == 0
    requires FragOf(f, n) && f.fragsize > 0 && Blocks(n) <= 0x8000
    ensures AbsorbAll(Dynamic, NewSlot(rrid), [e, f]) == Err(NeverTerminates)
    ensures AbsorbAll(Static, NewSlot(rrid), [e, f]) == AbsorbAll(Static, NewSlot(rrid), [f])
    ensures AbsorbAll(Static, NewSlot(rrid), [f]).Ok?
  {
    hide Absorb;
    var s := NewSlot(rrid);
    TwoFragments(Dynamic, s, e, f);
    TwoFragments(Static, s, e, f);
    SpanArithmetic(f);
    Step(Dynamic, s, e);
    Step(Static, s, e);
    Step(Static, s, f);
    EmptyLeavesFree(Dynamic, s, e, f);
    EmptyLeavesFree(Static, s, e, f);
    StuckStep(Absorb(Dynamic, s, e).value, f);
    EmptyStatic(rrid, e, f, n);
  }

  lemma {:induction false} TwoFragments(form: Form, s: Slot, e: Frag, f: Frag)
    requires e.Sized() && f.Sized()
    ensures AbsorbAll(form, s, [f]) == Absorb(form, s, f)
    ensures AbsorbAll(form, s, [e]) == Absorb(form, s, e)
    ensures AbsorbAll(form, s, [e, f])
            == if Absorb(form, s, e).Err? then Absorb(form, s, e) else Absorb(form, Absorb(form, s, e).value, f)
  {
    hide Absorb;
    assert [e, f][..1] == [e] && [e][..0] == [] && [f][..0] == [];
    assert AbsorbAll(form, s, []) == Ok(s);
    assert AbsorbAll(form, s, [e]) == Absorb(form, s, e);
  }

  lemma {:induction false} EmptyLeavesFree(form: Form, s: Slot, e: Frag, f: Frag)
    requires Welcome(form, s, e) && s == NewSlot(s.rrid) && e.fragsize == 0
    requires FragOf(f, e.rrsize) && f.fragsize > 0
    requires Absorb(form, s, e).Ok? && Delivered(form, s, e, Absorb(form, s, e).value)
    ensures Welcome(form, Absorb(form, s, e).value, f)
  {
    hide Absorb;
    SpanArithmetic(f);
    var s' := Absorb(form, s, e).value;
    assert s'.markers[FirstBlock(f)] == FREE;
    CountAll(s'.markers, e.rrsize);
  }

  lemma {:induction false} EmptyStatic(rrid: u16, e: Frag, f: Frag, n: nat)
    requires FragOf(e, n) && e.fragsize == 0 && e.curidx == 0
    requires FragOf(f, n) && f.fragsize > 0
    ensures Absorb(Static, NewSlot(rrid), e).Ok?
    ensures Absorb(Static, Absorb(Static, NewSlot(rrid), e).value, f) == Absorb(Static, NewSlot(rrid), f)
  {
    hide Settle, Finish;
    var s := NewSlot(rrid);
    var b := Begin(Static, s, e);
    assert Splice(b.bytes, 0, []) == b.bytes;
    assert FragCells(e) == [];
    assert Take(Static, b, e) == Ok(b);
    assert Mark(b.markers, 0, 0, RECVD) == b.markers;
    SettleNothing(b, e);
    assert Begin(Static, b, f) == b == Begin(Static, s, f);
  }

  lemma {:induction false} SettleNothing(b: Slot, e: Frag)
    requires |b.markers| > b.blocksReceived && e.fragsize == 0
    ensures Settle(Static, b, e) == Ok(b)
  {
    assert Mark(b.markers, FirstBlock(e), EndBlock(e), RECVD) == b.markers;
  }
}
