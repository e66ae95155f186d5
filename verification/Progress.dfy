/**
 One slot in the lock-step exchange: its markers are always a run of received
 blocks, then a run of blocks on their way, then free blocks.
 */
module Progress {
  import opened Wire
  import opened Records
  import opened Reassembly
  import opened Requester
  import opened ArrivalOrder

  /** `r` received blocks, then `w` waiting ones, then free ones. */
  ghost predicate Runs(ms: seq<Marker>, r: nat, w: nat) {
    && r + w <= |ms|
    && forall j :: 0 <= j < |ms| ==> ms[j] == if j < r then RECVD else if j < r + w then WAITING else FREE
  }

  /** The first m bytes of the record are in place. */
  ghost predicate Holds(cells: seq<Cell>, record: seq<byte>, m: nat) {
    m <= |record| == |cells| && forall p :: 0 <= p < m ==> cells[p] == Def(record[p])
  }

  /** The slot is being filled with `record` under the name `id`. */
  ghost predicate SlotAt(form: Form, s: Slot, record: seq<byte>, id: u16, r: nat, w: nat) {
    && Sound(form, s) && s.rrid == id != 0
    && s.rrsize == |record| && Blocks(|record|) < 0x8000
    && Runs(s.markers, r, w)
    && Holds(Assembled(form, s, |record|), record, BytesUpTo(r, |record|))
    && |s.headers| <= r + 1
  }

  /** The piece of the record from block r to block r + w. */
  function Piece(record: seq<byte>, id: u16, r: nat, w: nat): Frag
    requires |record| < 0x10_0000 && r + w <= Blocks(|record|)
    requires BytesUpTo(r + w, |record|) - BytesUpTo(r, |record|) < 0x1_0000
  {
    var from, to := BytesUpTo(r, |record|), BytesUpTo(r + w, |record|);
    Frag(to - from, from, |record|, id, Some(record[from..to]))
  }

  lemma {:induction false} RecvdRun(ms: seq<Marker>, r: nat, w: nat)
    requires Runs(ms, r, w)
    ensures CountRecvd(ms) == r
  {
    if ms != [] {
      var k := |ms| - 1;
      if r == |ms| {
        RecvdRun(ms[..k], k, 0);
      } else if r + w == |ms| {
        RecvdRun(ms[..k], r, w - 1);
      } else {
        RecvdRun(ms[..k], r, w);
      }
    }
  }

  lemma {:induction false} PieceFits(record: seq<byte>, id: u16, r: nat, w: nat)
    requires |record| < 0x10_0000 && r + w <= Blocks(|record|) && (w > 0 || r == 0)
    requires BytesUpTo(r + w, |record|) - BytesUpTo(r, |record|) < 0x1_0000
    ensures var f := Piece(record, id, r, w);
      && FragOf(f, |record|) && FirstBlock(f) == r && EndBlock(f) == r + w
      && (w > 0 ==> f.fragsize > 0)
  {
  }

  /** Receiving the piece that the slot waits for moves it on by w blocks. */
  lemma {:induction false} SlotReceives(form: Form, s: Slot, record: seq<byte>, id: u16, r: nat, w: nat)
    requires SlotAt(form, s, record, id, r, w) && w > 0
    requires BytesUpTo(r + w, |record|) - BytesUpTo(r, |record|) < 0x1_0000
    ensures var f := Piece(record, id, r, w);
      && Stuck(form, s, f) == (form == Dynamic && |s.bytes| == 0)
      && (Stuck(form, s, f) ==> Absorb(form, s, f) == Err(NeverTerminates))
      && (!Stuck(form, s, f) ==>
            && Absorb(form, s, f).Ok?
            && SlotAt(form, Absorb(form, s, f).value, record, id, r + w, 0)
            && (form == Dynamic ==> |Absorb(form, s, f).value.bytes| > 0))
  {
    hide Absorb, CountRecvd, RecvdBytes;
    var f := Piece(record, id, r, w);
    RecvdRun(s.markers, r, w);
    PieceFits(record, id, r, w);
    WaitingIsWelcome(form, s, record, id, r, w);
    if Stuck(form, s, f) {
      StuckStep(s, f);
    } else {
      Step(form, s, f);
      DeliveredPiece(form, s, Absorb(form, s, f).value, record, id, r, w);
    }
  }

  lemma {:induction false} DeliveredPiece(form: Form, s: Slot, s': Slot, record: seq<byte>, id: u16, r: nat, w: nat)
    requires SlotAt(form, s, record, id, r, w) && w > 0
    requires BytesUpTo(r + w, |record|) - BytesUpTo(r, |record|) < 0x1_0000
    requires FragOf(Piece(record, id, r, w), |record|)
    requires Delivered(form, s, Piece(record, id, r, w), s')
    ensures SlotAt(form, s', record, id, r + w, 0)
  {
    hide CountRecvd, RecvdBytes, Assembled, FragOf;
    PieceFits(record, id, r, w);
    RunsOn(s.markers, r, w);
    HoldsMore(Assembled(form, s, |record|), record, id, r, w);
  }

  lemma {:induction false} RunsOn(ms: seq<Marker>, r: nat, w: nat)
    requires Runs(ms, r, w)
    ensures Runs(Mark(ms, r, r + w, RECVD), r + w, 0)
  {
  }

  lemma {:induction false} WaitingIsWelcome(form: Form, s: Slot, record: seq<byte>, id: u16, r: nat, w: nat)
    requires SlotAt(form, s, record, id, r, w) && w > 0 && CountRecvd(s.markers) == r
    requires BytesUpTo(r + w, |record|) - BytesUpTo(r, |record|) < 0x1_0000
    ensures Welcome(form, s, Piece(record, id, r, w))
  {
    hide CountRecvd, RecvdBytes, Assembled;
    PieceFits(record, id, r, w);
  }

  lemma {:induction false} HoldsMore(cells: seq<Cell>, record: seq<byte>, id: u16, r: nat, w: nat)
    requires |record| < 0x10_0000 && r + w <= Blocks(|record|)
    requires BytesUpTo(r + w, |record|) - BytesUpTo(r, |record|) < 0x1_0000
    requires Holds(cells, record, BytesUpTo(r, |record|))
    ensures var f := Piece(record, id, r, w);
      Holds(Splice(cells, f.curidx, FragCells(f)), record, BytesUpTo(r + w, |record|))
  {
    UpToOrder(r, r + w, |record|);
    hide BytesUpTo, Blocks;
    var f, from, to := Piece(record, id, r, w), BytesUpTo(r, |record|), BytesUpTo(r + w, |record|);
    var spliced := Splice(cells, from, FragCells(f));
    forall p | 0 <= p < to ensures spliced[p] == Def(record[p]) {
      if p >= from {
        assert FragCells(f)[p - from] == Def(record[from..to][p - from]);
      }
    }
  }

  lemma {:induction false} UpToOrder(a: nat, b: nat, n: nat)
    requires a <= b
    ensures BytesUpTo(a, n) <= BytesUpTo(b, n) <= n
  {
  }

  /** A first fragment of r blocks starts a new slot. */
  lemma {:induction false} SlotStarts(form: Form, record: seq<byte>, id: u16, r: nat)
    requires id != 0 && Blocks(|record|) < 0x8000 && r <= Blocks(|record|)
    requires BytesUpTo(r, |record|) < 0x1_0000
    ensures var f := Piece(record, id, 0, r);
      && Absorb(form, NewSlot(id), f).Ok?
      && SlotAt(form, Absorb(form, NewSlot(id), f).value, record, id, r, 0)
      && (form == Dynamic ==> (|Absorb(form, NewSlot(id), f).value.bytes| > 0 <==> f.fragsize > 0))
  {
    hide Absorb, CountRecvd, RecvdBytes, Sound, Assembled;
    var f, s := Piece(record, id, 0, r), NewSlot(id);
    PieceFits(record, id, 0, r);
    SpanArithmetic(f);
    Step(form, s, f);
    HoldsMore(JunkCells(|record|), record, id, 0, r);
    JunkAssembled(form, s, |record|);
  }

  lemma {:induction false} JunkAssembled(form: Form, s: Slot, n: nat)
    requires s == NewSlot(s.rrid)
    ensures Assembled(form, s, n) == JunkCells(n)
  {
  }

  // ----- Asking

  lemma {:induction false} FreeRun(ms: seq<Marker>, r: nat, w: nat, j: nat)
    requires Runs(ms, r, w) && j <= |ms|
    ensures FirstFree(ms, j) == if j <= r + w then r + w else j
    ensures FreeBlocks(ms, j) == |ms| - if j <= r + w then r + w else j
    decreases |ms| - j
  {
    if j < |ms| {
      FreeRun(ms, r, w, j + 1);
    }
  }

  /** The blocks that fit into the request at this size, and are still free. */
  function Room(s: Slot, r: nat, cursize: nat, maxUdp: nat): nat
    requires cursize <= maxUdp && r <= |s.markers|
  {
    var fits := (maxUdp - cursize) / 32;
    if fits < |s.markers| - r then fits else |s.markers| - r
  }

  /**
   At the start of a round the free blocks are a suffix of the block table, and
   that makes the plain count of free blocks a contiguous run: what is asked for
   is exactly the piece of the record behind what has been received, in range,
   and its blocks are exactly those newly marked.
   */
  lemma {:induction false} SlotAsks(form: Form, s: Slot, record: seq<byte>, id: u16, r: nat, cursize: u16, maxUdp: nat)
    requires SlotAt(form, s, record, id, r, 0) && !s.complete
    requires cursize < maxUdp <= 65530
    ensures r < |s.markers|
    ensures var w, a := Room(s, r, cursize, maxUdp), AskFor(s, cursize, maxUdp);
      && r + w <= Blocks(|record|)
      && BytesUpTo(r + w, |record|) - BytesUpTo(r, |record|) <= maxUdp - cursize
      && (w == 0 ==> a == NoRoom)
      && (w > 0 ==> Asked(a, s, record, id, r, w, cursize) && SlotAt(form, a.slot, record, id, r, w))
      && (a.Part? ==> maxUdp - a.size < 32)
      && (a.All? ==> r + w == |s.markers|)
      && (w > 0 <==> cursize + 32 <= maxUdp)
  {
    hide SlotAt, CountRecvd, RecvdBytes, FirstFree, FreeBlocks, AskFor, Mark, Runs, Room, BytesUpTo;
    IncompleteHasFree(form, s, record, id, r);
    var w := Room(s, r, cursize, maxUdp);
    RoomInRange(s, r, cursize, maxUdp);
    AskArithmetic(s, record, r, cursize, maxUdp);
    SameCounts(s.markers, Mark(s.markers, r, r + w, WAITING), r, w, |record|);
    MarkedSlotAt(form, s, record, id, r, w);
  }

  lemma {:induction false} RoomInRange(s: Slot, r: nat, cursize: nat, maxUdp: nat)
    requires cursize <= maxUdp && r <= |s.markers|
    ensures r + Room(s, r, cursize, maxUdp) <= |s.markers|
  {
  }

  lemma {:induction false} IncompleteHasFree(form: Form, s: Slot, record: seq<byte>, id: u16, r: nat)
    requires SlotAt(form, s, record, id, r, 0) && !s.complete
    ensures r < |s.markers| == Blocks(|record|) < 0x8000 && s.rrsize == |record| && s.rrid == id
    ensures Runs(s.markers, r, 0)
    ensures FirstFree(s.markers) == r && FreeBlocks(s.markers) == |s.markers| - r
  {
    hide CountRecvd, RecvdBytes, Assembled, FirstFree, FreeBlocks;
    RecvdRun(s.markers, r, 0);
    FreeRun(s.markers, r, 0, 0);
  }

  lemma {:induction false} AskArithmetic(s: Slot, record: seq<byte>, r: nat, cursize: u16, maxUdp: nat)
    requires s.rrsize == |record| && |s.markers| == Blocks(|record|) < 0x8000 && r < |s.markers|
    requires FirstFree(s.markers) == r && FreeBlocks(s.markers) == |s.markers| - r
    requires cursize < maxUdp <= 65530
    ensures var w, a := Room(s, r, cursize, maxUdp), AskFor(s, cursize, maxUdp);
      && BytesUpTo(r + w, |record|) - BytesUpTo(r, |record|) <= maxUdp - cursize
      && (w == 0 ==> a == NoRoom)
      && (w > 0 ==> Asked(a, s, record, s.rrid, r, w, cursize))
      && (a.Part? ==> maxUdp - a.size < 32)
      && (a.All? ==> r + w == |s.markers|)
      && (w > 0 <==> cursize + 32 <= maxUdp)
  {
    hide FirstFree, FreeBlocks, Mark, AskFor, Asked;
    var w, fits := Room(s, r, cursize, maxUdp), (maxUdp - cursize) / 32;
    RoomBytes(|record|, r, w, fits);
    if fits >= |s.markers| - r {
      AskAll(s, record, r, cursize, maxUdp);
    } else {
      AskPart(s, record, r, fits, cursize, maxUdp);
    }
  }

  /** The 16-bit arithmetic of a request for all that is missing. */
  lemma {:induction false} AllFits(n: nat, r: nat, blocks: nat, cursize: u16, maxUdp: nat)
    requires blocks == Blocks(n) < 0x8000 && r < blocks && cursize < maxUdp <= 65530
    requires (maxUdp - cursize) / 32 >= blocks - r
    ensures var all, left, last := ((blocks - r) * 32) % 0x1_0000, n - r * 32, if n % 32 == 0 then 32 else n % 32;
      && 0 < left <= maxUdp - cursize && (if 0 <= left < all then left else all) == left
      && (r * 32) % 0x1_0000_0000 == r * 32 && n % 0x1_0000_0000 == n
      && (cursize + (blocks - r - 1) * 32 + last - 10 + 15) % 0x1_0000 == cursize + left + 5
  {
  }

  lemma {:induction false} AskAll(s: Slot, record: seq<byte>, r: nat, cursize: u16, maxUdp: nat)
    requires s.rrsize == |record| && |s.markers| == Blocks(|record|) < 0x8000 && r < |s.markers|
    requires FirstFree(s.markers) == r && FreeBlocks(s.markers) == |s.markers| - r
    requires cursize < maxUdp <= 65530 && (maxUdp - cursize) / 32 >= |s.markers| - r
    ensures BytesUpTo(|s.markers|, |record|) - BytesUpTo(r, |record|) <= maxUdp - cursize
    ensures var a := AskFor(s, cursize, maxUdp);
      a.All? && Asked(a, s, record, s.rrid, r, |s.markers| - r, cursize)
  {
    hide FirstFree, FreeBlocks, Mark, Blocks;
    RoomBytes(|record|, r, |s.markers| - r, (maxUdp - cursize) / 32);
    AllFits(|record|, r, |s.markers|, cursize, maxUdp);
  }

  lemma {:induction false} AskPart(s: Slot, record: seq<byte>, r: nat, w: nat, cursize: u16, maxUdp: nat)
    requires s.rrsize == |record| && |s.markers| == Blocks(|record|) < 0x8000 && r < |s.markers|
    requires FirstFree(s.markers) == r && FreeBlocks(s.markers) == |s.markers| - r
    requires cursize < maxUdp <= 65530 && w == (maxUdp - cursize) / 32 < |s.markers| - r
    ensures BytesUpTo(r + w, |record|) - BytesUpTo(r, |record|) <= maxUdp - cursize
    ensures var a := AskFor(s, cursize, maxUdp);
      && (w == 0 ==> a == NoRoom)
      && (w > 0 ==> a.Part? && Asked(a, s, record, s.rrid, r, w, cursize) && maxUdp - a.size < 32)
  {
    hide FirstFree, FreeBlocks, Mark;
    RoomBytes(|record|, r, w, w);
  }

  /** The request is for blocks r to r + w, and costs 5 bytes more than they have. */
  ghost predicate Asked(a: Ask, s: Slot, record: seq<byte>, id: u16, r: nat, w: nat, cursize: u16)
    requires |record| < 0x10_0000 && r + w <= Blocks(|record|)
    requires BytesUpTo(r + w, |record|) - BytesUpTo(r, |record|) < 0x1_0000
  {
    && (a.All? || a.Part?)
    && a.frag == Piece(record, id, r, w).(data := None)
    && a.slot == s.(markers := Mark(s.markers, r, r + w, WAITING))
    && a.size as int == cursize + a.frag.fragsize + 5
  }

  lemma {:induction false} RoomBytes(n: nat, r: nat, w: nat, fits: nat)
    requires r < Blocks(n) && w <= fits && r + w <= Blocks(n)
    ensures 32 * r < n && BytesUpTo(r, n) == 32 * r
    ensures BytesUpTo(r + w, n) - 32 * r <= 32 * w
    ensures r + w < Blocks(n) ==> BytesUpTo(r + w, n) == 32 * (r + w)
    ensures r + w == Blocks(n) ==>
      BytesUpTo(r + w, n) == n == 32 * (r + w - 1) + (if n % 32 == 0 then 32 else n % 32)
  {
  }

  lemma {:induction false} SameCounts(ms: seq<Marker>, ms': seq<Marker>, r: nat, w: nat, n: nat)
    requires Runs(ms, r, 0) && r + w <= |ms| && ms' == Mark(ms, r, r + w, WAITING)
    ensures Runs(ms', r, w)
    ensures CountRecvd(ms') == CountRecvd(ms) && RecvdBytes(ms', n) == RecvdBytes(ms, n)
  {
    SameRecvd(ms, ms', n);
  }

  lemma {:induction false} SameRecvd(ms: seq<Marker>, ms': seq<Marker>, n: nat)
    requires |ms| == |ms'| && forall j :: 0 <= j < |ms| ==> (ms[j] == RECVD <==> ms'[j] == RECVD)
    ensures CountRecvd(ms') == CountRecvd(ms) && RecvdBytes(ms', n) == RecvdBytes(ms, n)
  {
    if ms != [] {
      SameRecvd(ms[..|ms| - 1], ms'[..|ms| - 1], n);
    }
  }

  lemma {:induction false} MarkedSlotAt(form: Form, s: Slot, record: seq<byte>, id: u16, r: nat, w: nat)
    requires SlotAt(form, s, record, id, r, 0) && r + w <= |s.markers|
    requires var ms' := Mark(s.markers, r, r + w, WAITING);
      Runs(ms', r, w) && CountRecvd(ms') == CountRecvd(s.markers)
      && RecvdBytes(ms', s.rrsize) == RecvdBytes(s.markers, s.rrsize)
    ensures SlotAt(form, s.(markers := Mark(s.markers, r, r + w, WAITING)), record, id, r, w)
  {
    hide CountRecvd, RecvdBytes;
  }
}
