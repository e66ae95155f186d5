/**
 One record being put together from fragments: the PartialRR of copy_section.

 There are two forms of it. `Dynamic` (daemon.c, test/sandbox.c) appends the
 data of each fragment in the order of arrival, remembers where it belongs, and
 moves everything to its place when the last block is in. `Static`
 (test/original.c) allocates the whole record and writes each fragment straight
 to its place.
 */
module Reassembly {
  import opened Wire
  import opened Records

  const BLOCKSIZE := 32

  datatype Form = Dynamic | Static

  datatype Marker = FREE | WAITING | RECVD

  /** A byte of allocated memory; `Junk` until somebody writes it. */
  datatype Cell = Junk | Def(b: byte)

  datatype FragHeader = FragHeader(fragStart: nat, fragSize: nat)

  /** `started` says that block_markers and bytes have been allocated by a
      fragment; the length of `bytes` is bytes_capacity. */
  datatype Slot = Slot(
    rrid: u16, started: bool, complete: bool, rrsize: nat,
    bytes: seq<Cell>, bytesReceived: nat,
    headers: seq<FragHeader>, headersCapacity: nat,
    markers: seq<Marker>, blocksReceived: nat)

  function NewSlot(rrid: u16): Slot {
    Slot(rrid, false, false, 0, [], 0, [], 0, [], 0)
  }

  /** ceil(n / 32.0) */
  function Blocks(n: nat): nat { (n + 31) / 32 }

  function JunkCells(n: nat): (s: seq<Cell>)
    ensures |s| == n
    ensures forall k :: 0 <= k < n ==> s[k] == Junk
  {
    seq(n, i => Junk)
  }

  function Cells(data: seq<byte>): (s: seq<Cell>)
    ensures |s| == |data|
    ensures forall k :: 0 <= k < |data| ==> s[k] == Def(data[k])
  {
    seq(|data|, i requires 0 <= i < |data| => Def(data[i]))
  }

  /** memcpy(buf + at, data, |data|) */
  function Splice(buf: seq<Cell>, at: nat, data: seq<Cell>): (r: seq<Cell>)
    requires at + |data| <= |buf|
    ensures |r| == |buf|
    ensures forall k :: 0 <= k < |buf| ==> r[k] == if at <= k < at + |data| then data[k - at] else buf[k]
  {
    buf[..at] + data + buf[at + |data|..]
  }

  function Mark(ms: seq<Marker>, from: nat, to: nat, m: Marker): (r: seq<Marker>)
    ensures |r| == |ms|
    ensures forall j :: 0 <= j < |ms| ==> r[j] == if from <= j < to then m else ms[j]
  {
    seq(|ms|, j requires 0 <= j < |ms| => if from <= j < to then m else ms[j])
  }

  // ----- Growing by doubling

  function Grow(capacity: nat, need: nat): (r: Option<nat>)
    ensures r.Some? ==> r.value >= need && r.value >= capacity
    decreases need - capacity
  {
    if need <= capacity then Some(capacity)
    else if capacity == 0 then None  // 0 * 2 == 0, for ever
    else Grow(2 * capacity, need)
  }

  /** headers_capacity is a 16-bit number that starts at 1. */
  function GrowHeaders(capacity: nat, need: nat): (r: Option<nat>)
    ensures r.Some? ==> r.value >= need
    decreases need - capacity
  {
    if need <= capacity then Some(capacity)
    else if capacity == 0 || capacity >= 0x8000 then None  // wraps to 0, for ever
    else GrowHeaders(2 * capacity, need)
  }

  ghost function Doubled(capacity: nat, turns: nat): nat
    decreases turns
  {
    if turns == 0 then capacity else Doubled(2 * capacity, turns - 1)
  }

  /** The doubling loop leaves with a result exactly when some number of turns
      makes the buffer large enough, that is, unless it starts from nothing. */
  lemma {:induction false} GrowTerminates(capacity: nat, need: nat)
    ensures Grow(capacity, need).Some? <==> exists turns: nat :: Doubled(capacity, turns) >= need
    ensures Grow(capacity, need).Some? <==> capacity > 0 || need == 0
    decreases need - capacity
  {
    if need <= capacity {
      assert Doubled(capacity, 0) >= need;
    } else if capacity == 0 {
      forall turns: nat ensures Doubled(0, turns) == 0 {
        DoubledZero(turns);
      }
    } else {
      GrowTerminates(2 * capacity, need);
      var turns: nat :| Doubled(2 * capacity, turns) >= need;
      assert Doubled(capacity, turns + 1) >= need;
    }
  }

  /** The buffer is the first in the row of doublings that is large enough. */
  lemma {:induction false} GrowDoubles(capacity: nat, need: nat) returns (turns: nat)
    requires Grow(capacity, need).Some?
    ensures Grow(capacity, need) == Some(Doubled(capacity, turns)) && Doubled(capacity, turns) >= need
    ensures turns > 0 ==> Doubled(capacity, turns - 1) < need
    decreases need - capacity
  {
    turns := 0;
    if need > capacity {
      var more := GrowDoubles(2 * capacity, need);
      turns := more + 1;
    }
  }

  /** A 16-bit number that comes from doubling one. */
  predicate HeaderSize(capacity: nat) {
    capacity in {1, 2, 4, 8, 0x10, 0x20, 0x40, 0x80, 0x100, 0x200, 0x400, 0x800, 0x1000, 0x2000, 0x4000, 0x8000}
  }

  /** The table of headers grows as the buffer does, up to 32768 of them; for more the
      16-bit capacity wraps to 0 and the loop never ends. */
  lemma {:induction false} HeadersDouble(capacity: nat, need: nat)
    requires HeaderSize(capacity)
    ensures GrowHeaders(capacity, need) == if need <= 0x8000 then Grow(capacity, need) else None
    decreases 0x8000 - capacity
  {
    if capacity < need && capacity < 0x8000 {
      HeadersDouble(2 * capacity, need);
    }
  }

  lemma {:induction false} DoubledZero(turns: nat)
    ensures Doubled(0, turns) == 0
  {
    if turns > 0 {
      DoubledZero(turns - 1);
    }
  }

  // ----- Moving appended data to its place

  function Total(hs: seq<FragHeader>): nat {
    if hs == [] then 0 else Total(hs[..|hs| - 1]) + hs[|hs| - 1].fragSize
  }

  predicate HeadersFit(hs: seq<FragHeader>, capacity: nat) {
    forall i :: 0 <= i < |hs| ==> hs[i].fragStart + hs[i].fragSize <= capacity
  }

  /** The relocation loop: the appended data, cut up by the headers. */
  function Scatter(buf: seq<Cell>, hs: seq<FragHeader>, appended: seq<Cell>): (r: seq<Cell>)
    requires HeadersFit(hs, |buf|) && Total(hs) == |appended|
    ensures |r| == |buf|
  {
    if hs == [] then buf
    else
      var h := hs[|hs| - 1];
      var cut := |appended| - h.fragSize;
      Splice(Scatter(buf, hs[..|hs| - 1], appended[..cut]), h.fragStart, appended[cut..])
  }

  // ----- One fragment

  /** The first thing that the loop over the fragment's blocks trips over. */
  function CheckFree(ms: seq<Marker>, from: nat, to: nat): Option<Error>
    decreases to - from
  {
    if from >= to then None
    else if from >= |ms| then Some(OutOfBounds)
    else if ms[from] == RECVD then Some(AssertionFailed)
    else CheckFree(ms, from + 1, to)
  }

  /** Allocation on the first fragment. */
  function Begin(form: Form, s: Slot, f: Frag): Slot {
    if s.started then s
    else s.(started := true, rrsize := f.rrsize,
            markers := seq(Blocks(f.rrsize), i => FREE),
            bytes := JunkCells(if form == Dynamic then f.fragsize else f.rrsize),
            headers := [], headersCapacity := 1)
  }

  /** Where the fragment's data goes, before the blocks are marked. */
  function Take(form: Form, s: Slot, f: Frag): Result<Slot>
    requires f.Sized()
  {
    var data := if f.data.Some? then Cells(f.data.value) else [];
    match form
    case Static =>
      if Blocks(f.fragsize) + f.curidx / 32 > |s.markers| then Err(OutOfBounds)
      else if |data| < f.fragsize then Err(NullPointer)
      else if f.curidx + f.fragsize > |s.bytes| then Err(OutOfBounds)
      else Ok(s.(bytes := Splice(s.bytes, f.curidx, data)))
    case Dynamic =>
      var refused := CheckFree(s.markers, f.curidx / 32, f.curidx / 32 + Blocks(f.fragsize));
      if refused.Some? then Err(refused.value) else
      var capacity := Grow(|s.bytes|, s.bytesReceived + f.fragsize);
      if capacity.None? then Err(NeverTerminates) else
      var headersCapacity := GrowHeaders(s.headersCapacity, |s.headers| + 1);
      if headersCapacity.None? then Err(NeverTerminates)
      else if s.complete || |data| < f.fragsize then Err(NullPointer)
      else
        var grown := s.bytes + JunkCells(capacity.value - |s.bytes|);
        Ok(s.(bytes := Splice(grown, s.bytesReceived, data),
              headers := s.headers + [FragHeader(f.curidx, f.fragsize)],
              headersCapacity := headersCapacity.value))
  }

  /** When the last block is in. */
  function Finish(form: Form, s: Slot): Result<Slot> {
    if exists j :: 0 <= j < |s.markers| && s.markers[j] != RECVD then Err(AssertionFailed)
    else match form
      case Static => Ok(s.(complete := true))
      case Dynamic =>
        if !HeadersFit(s.headers, |s.bytes|) || Total(s.headers) > |s.bytes| then Err(OutOfBounds)
        else Ok(s.(complete := true, headers := [],
                   bytes := Scatter(JunkCells(|s.bytes|), s.headers, s.bytes[..Total(s.headers)])))
  }

  function Settle(form: Form, s: Slot, f: Frag): Result<Slot> {
    var blockidx, span := f.curidx / 32, Blocks(f.fragsize);
    var s' := s.(bytesReceived := s.bytesReceived + f.fragsize,
                 markers := Mark(s.markers, blockidx, blockidx + span, RECVD),
                 blocksReceived := s.blocksReceived + span);
    if s'.blocksReceived == |s'.markers| then Finish(form, s') else Ok(s')
  }

  /** The body of copy_section's loop for one fragment and the slot it belongs to. */
  function Absorb(form: Form, s: Slot, f: Frag): (r: Result<Slot>)
    requires f.Sized()
  {
    if f.curidx / 32 + Blocks(f.fragsize) > 0xffff || Blocks(f.rrsize) > 0xffff then
      Err(OutOfBounds)  // does not fit the 16-bit block numbers
    else if s.complete && !s.started then Err(Uninitialised)  // a slot that holds a whole record
    else
      var taken :- Take(form, Begin(form, s, f), f);
      Settle(form, taken, f)
  }


  // ----- Bookkeeping

  function CountRecvd(ms: seq<Marker>): nat {
    if ms == [] then 0
    else CountRecvd(ms[..|ms| - 1]) + if ms[|ms| - 1] == RECVD then 1 else 0
  }

  /** The first `blocks` blocks of an n-byte record hold this many bytes. */
  function BytesUpTo(blocks: nat, n: nat): nat {
    if 32 * blocks <= n then 32 * blocks else n
  }

  function RecvdBytes(ms: seq<Marker>, n: nat): nat {
    if ms == [] then 0
    else RecvdBytes(ms[..|ms| - 1], n) +
         if ms[|ms| - 1] == RECVD then BytesUpTo(|ms|, n) - BytesUpTo(|ms| - 1, n) else 0
  }

  predicate NoneRecvd(ms: seq<Marker>, from: nat, to: nat) {
    to <= |ms| && forall j :: from <= j < to ==> ms[j] != RECVD
  }

  lemma {:induction false} CountMark(ms: seq<Marker>, from: nat, to: nat, n: nat)
    requires from <= to && NoneRecvd(ms, from, to)
    ensures CountRecvd(Mark(ms, from, to, RECVD)) == CountRecvd(ms) + to - from
    ensures RecvdBytes(Mark(ms, from, to, RECVD), n) == RecvdBytes(ms, n) + BytesUpTo(to, n) - BytesUpTo(from, n)
  {
    hide BytesUpTo;
    var r := Mark(ms, from, to, RECVD);
    if ms != [] {
      var k := |ms| - 1;
      if to == |ms| && from < to {
        CountMark(ms[..k], from, k, n);
        assert r[..k] == Mark(ms[..k], from, k, RECVD);
      } else if from == to {
        assert r == ms;
      } else {
        CountMark(ms[..k], from, to, n);
        assert r[..k] == Mark(ms[..k], from, to, RECVD);
      }
    } else {
      assert r == ms;
    }
  }

  lemma {:induction false} CountAll(ms: seq<Marker>, n: nat)
    ensures CountRecvd(ms) <= |ms|
    ensures CountRecvd(ms) == |ms| <==> forall j :: 0 <= j < |ms| ==> ms[j] == RECVD
    ensures CountRecvd(ms) == |ms| ==> RecvdBytes(ms, n) == BytesUpTo(|ms|, n)
    ensures RecvdBytes(ms, n) <= BytesUpTo(|ms|, n)
  {
    if ms != [] {
      CountAll(ms[..|ms| - 1], n);
      assert forall j :: 0 <= j < |ms| - 1 ==> ms[j] == ms[..|ms| - 1][j];
    }
  }

  lemma {:induction false} CountFree(ms: seq<Marker>, n: nat)
    requires forall j :: 0 <= j < |ms| ==> ms[j] != RECVD
    ensures CountRecvd(ms) == 0 && RecvdBytes(ms, n) == 0
  {
    if ms != [] {
      CountFree(ms[..|ms| - 1], n);
    }
  }

  lemma {:induction false} CheckFreePasses(ms: seq<Marker>, from: nat, to: nat)
    requires from <= to && NoneRecvd(ms, from, to)
    ensures CheckFree(ms, from, to) == None
    decreases (to as int) - (from as int)
  {
    if from < to {
      CheckFreePasses(ms, from + 1, to);
    }
  }

  /** The counters of a slot agree with its markers and its headers. */
  ghost predicate Sound(form: Form, s: Slot) {
    && s.started
    && |s.markers| == Blocks(s.rrsize) <= 0xffff
    && s.blocksReceived == CountRecvd(s.markers)
    && s.bytesReceived == RecvdBytes(s.markers, s.rrsize)
    && (s.complete <==> s.blocksReceived == |s.markers|)
    && match form
       case Static => |s.bytes| == s.rrsize
       case Dynamic =>
         if s.complete then |s.bytes| >= s.rrsize
         else Total(s.headers) == s.bytesReceived <= |s.bytes|
              && HeadersFit(s.headers, s.rrsize) && s.headersCapacity > 0
  }

  /** A slot that no fragment has reached, or one in good order. */
  ghost predicate Ready(form: Form, s: Slot) {
    s == NewSlot(s.rrid) || Sound(form, s)
  }

  /** The record as far as it is known: what the static form has in memory, and
      what the dynamic form would have after relocating what it has. */
  ghost function Assembled(form: Form, s: Slot, n: nat): (r: seq<Cell>)
    requires Ready(form, s) && (s.started ==> s.rrsize == n)
    ensures |r| == n
  {
    if !s.started then JunkCells(n)
    else if form == Static then s.bytes
    else if s.complete then s.bytes[..n]
    else Scatter(JunkCells(n), s.headers, s.bytes[..s.bytesReceived])
  }

  /** A fragment of an n-byte record, cut at block boundaries. */
  predicate FragOf(f: Frag, n: nat) {
    && f.Sized() && (f.data.Some? || f.fragsize == 0)
    && f.rrsize == n && Blocks(n) <= 0xffff
    && f.curidx % 32 == 0 && f.curidx + f.fragsize <= n
    && (f.fragsize % 32 == 0 || f.curidx + f.fragsize == n)
  }

  function FragCells(f: Frag): (r: seq<Cell>)
    ensures f.Sized() && (f.data.Some? || f.fragsize == 0) ==> |r| == f.fragsize
  {
    if f.data.Some? then Cells(f.data.value) else []
  }

  function FirstBlock(f: Frag): nat { f.curidx / 32 }
  function EndBlock(f: Frag): nat { f.curidx / 32 + Blocks(f.fragsize) }

  /** `f` may arrive at `s`: same record, and none of its blocks is in yet. */
  ghost predicate Welcome(form: Form, s: Slot, f: Frag) {
    && Ready(form, s) && !s.complete
    && FragOf(f, f.rrsize)
    && (s.started ==> s.rrsize == f.rrsize && NoneRecvd(s.markers, FirstBlock(f), EndBlock(f)))
    && |s.headers| < 0x8000
  }

  /** The dynamic form started from an empty fragment and has no buffer to double. */
  predicate Stuck(form: Form, s: Slot, f: Frag) {
    form == Dynamic && s.started && |s.bytes| == 0 && f.fragsize > 0
  }

  lemma {:induction false} SpanArithmetic(f: Frag)
    requires FragOf(f, f.rrsize)
    ensures EndBlock(f) <= Blocks(f.rrsize)
    ensures FirstBlock(f) <= EndBlock(f)
    ensures BytesUpTo(EndBlock(f), f.rrsize) - BytesUpTo(FirstBlock(f), f.rrsize) == f.fragsize
    ensures BytesUpTo(Blocks(f.rrsize), f.rrsize) == f.rrsize
  {
  }

  // ----- One step, in either form

  ghost function MarkersOf(s: Slot, n: nat): seq<Marker> {
    if s.started then s.markers else seq(Blocks(n), i => FREE)
  }

  /** A slot under way: as `Sound`, without a say about completion. */
  ghost predicate Open(form: Form, s: Slot) {
    && s.started && !s.complete
    && |s.markers| == Blocks(s.rrsize) <= 0xffff
    && s.blocksReceived == CountRecvd(s.markers)
    && s.bytesReceived == RecvdBytes(s.markers, s.rrsize)
    && match form
       case Static => |s.bytes| == s.rrsize
       case Dynamic =>
         Total(s.headers) == s.bytesReceived <= |s.bytes|
         && HeadersFit(s.headers, s.rrsize) && s.headersCapacity > 0
  }

  ghost function Picture(form: Form, s: Slot): (r: seq<Cell>)
    requires Open(form, s)
  {
    match form
    case Static => s.bytes
    case Dynamic => Scatter(JunkCells(s.rrsize), s.headers, s.bytes[..s.bytesReceived])
  }

  lemma {:induction false} BeginOpens(form: Form, s: Slot, f: Frag)
    requires Welcome(form, s, f)
    ensures var b := Begin(form, s, f);
      && Open(form, b) && b.rrid == s.rrid && b.rrsize == f.rrsize
      && b.markers == MarkersOf(s, f.rrsize)
      && NoneRecvd(b.markers, FirstBlock(f), EndBlock(f))
      && Picture(form, b) == Assembled(form, s, f.rrsize)
      && b.headers == s.headers && (form == Dynamic ==> Staged(b) == Staged(s))
      && (form == Dynamic ==> |b.bytes| == if s.started then |s.bytes| else f.fragsize)
  {
    SpanArithmetic(f);
    if !s.started {
      CountFree(Begin(form, s, f).markers, f.rrsize);
    }
  }

  lemma {:induction false} HeadersGrow(capacity: nat, need: nat)
    requires 0 < capacity && need <= 0x8000
    ensures GrowHeaders(capacity, need).Some? && GrowHeaders(capacity, need).value > 0
    decreases need - capacity
  {
    if need > capacity {
      HeadersGrow(2 * capacity, need);
    }
  }

  lemma {:induction false} TakeStatic(b: Slot, f: Frag)
    requires Open(Static, b) && FragOf(f, b.rrsize)
    requires NoneRecvd(b.markers, FirstBlock(f), EndBlock(f))
    ensures Take(Static, b, f) == Ok(b.(bytes := Splice(b.bytes, f.curidx, FragCells(f))))
  {
    SpanArithmetic(f);
  }

  /** The appended data and its header extend what relocation will produce by
      one write at the fragment's own place. */
  lemma {:induction false} TakeDynamic(b: Slot, f: Frag)
    requires Open(Dynamic, b) && FragOf(f, b.rrsize) && |b.headers| < 0x8000
    requires NoneRecvd(b.markers, FirstBlock(f), EndBlock(f))
    requires |b.bytes| > 0 || f.fragsize == 0
    ensures var r := Take(Dynamic, b, f);
      && r.Ok?
      && var t := r.value;
      && t == b.(bytes := t.bytes, headers := b.headers + [FragHeader(f.curidx, f.fragsize)],
                 headersCapacity := t.headersCapacity)
      && t.headersCapacity > 0
      && |t.bytes| >= b.bytesReceived + f.fragsize && |t.bytes| >= |b.bytes|
      && (|b.bytes| == 0 ==> |t.bytes| == 0)
      && t.bytes[..b.bytesReceived + f.fragsize] == b.bytes[..b.bytesReceived] + FragCells(f)
  {
    SpanArithmetic(f);
    CheckFreePasses(b.markers, FirstBlock(f), EndBlock(f));
    GrowTerminates(|b.bytes|, b.bytesReceived + f.fragsize);
    HeadersGrow(b.headersCapacity, |b.headers| + 1);
  }

  lemma {:induction false} ScatterAppend(buf: seq<Cell>, hs: seq<FragHeader>, appended: seq<Cell>, h: FragHeader,
                                         data: seq<Cell>)
    requires HeadersFit(hs, |buf|) && Total(hs) == |appended|
    requires h.fragStart + h.fragSize <= |buf| && |data| == h.fragSize
    ensures Total(hs + [h]) == |appended + data| && HeadersFit(hs + [h], |buf|)
    ensures Scatter(buf, hs + [h], appended + data) == Splice(Scatter(buf, hs, appended), h.fragStart, data)
  {
  }

  /** Relocating into a larger buffer gives the same first n bytes. */
  lemma {:induction false} ScatterPrefix(n: nat, capacity: nat, hs: seq<FragHeader>, appended: seq<Cell>)
    requires n <= capacity && HeadersFit(hs, n) && Total(hs) == |appended|
    ensures HeadersFit(hs, capacity)
    ensures Scatter(JunkCells(capacity), hs, appended)[..n] == Scatter(JunkCells(n), hs, appended)
  {
    if hs != [] {
      var k := |hs| - 1;
      ScatterPrefix(n, capacity, hs[..k], appended[..|appended| - hs[k].fragSize]);
    }
  }

  /** What one fragment does to a slot that welcomes it. */
  ghost predicate Delivered(form: Form, s: Slot, f: Frag, s': Slot)
    requires Ready(form, s) && FragOf(f, f.rrsize) && (s.started ==> s.rrsize == f.rrsize)
  {
    && Sound(form, s')
    && s'.rrid == s.rrid && s'.rrsize == f.rrsize
    && s'.markers == Mark(MarkersOf(s, f.rrsize), FirstBlock(f), EndBlock(f), RECVD)
    && Assembled(form, s', f.rrsize) == Splice(Assembled(form, s, f.rrsize), f.curidx, FragCells(f))
    && |s'.headers| <= |s.headers| + 1
    && (form == Dynamic ==> (|s'.bytes| > 0 <==> (s.started && |s.bytes| > 0) || f.fragsize > 0))
    && (form == Dynamic && !s'.complete ==> Staged(s') == Staged(s) + FragCells(f))
  }

  /** What the appending form has collected so far. */
  function Staged(s: Slot): seq<Cell> {
    if s.bytesReceived <= |s.bytes| then s.bytes[..s.bytesReceived] else s.bytes
  }

  lemma {:induction false} SettleCounts(form: Form, t: Slot, f: Frag)
    requires FragOf(f, t.rrsize) && |t.markers| == Blocks(t.rrsize)
    requires t.blocksReceived == CountRecvd(t.markers) && t.bytesReceived == RecvdBytes(t.markers, t.rrsize)
    requires NoneRecvd(t.markers, FirstBlock(f), EndBlock(f))
    ensures var ms := Mark(t.markers, FirstBlock(f), EndBlock(f), RECVD);
      && t.blocksReceived + Blocks(f.fragsize) == CountRecvd(ms)
      && t.bytesReceived + f.fragsize == RecvdBytes(ms, t.rrsize)
      && (CountRecvd(ms) == |ms| ==> RecvdBytes(ms, t.rrsize) == t.rrsize)
      && (CountRecvd(ms) == |ms| <==> forall j :: 0 <= j < |ms| ==> ms[j] == RECVD)
  {
    SpanArithmetic(f);
    CountMark(t.markers, FirstBlock(f), EndBlock(f), t.rrsize);
    CountAll(Mark(t.markers, FirstBlock(f), EndBlock(f), RECVD), t.rrsize);
  }

  lemma {:induction false} StaticStep(s: Slot, f: Frag)
    requires Welcome(Static, s, f)
    ensures Absorb(Static, s, f).Ok? && Delivered(Static, s, f, Absorb(Static, s, f).value)
  {
    hide Take, Begin, CountRecvd, RecvdBytes, Scatter;
    SpanArithmetic(f);
    BeginOpens(Static, s, f);
    var b := Begin(Static, s, f);
    TakeStatic(b, f);
    SettleCounts(Static, Take(Static, b, f).value, f);
  }

  lemma {:induction false} DynamicStep(s: Slot, f: Frag)
    requires Welcome(Dynamic, s, f) && !Stuck(Dynamic, s, f)
    ensures Absorb(Dynamic, s, f).Ok? && Delivered(Dynamic, s, f, Absorb(Dynamic, s, f).value)
  {
    hide Take, Begin, CountRecvd, RecvdBytes, Scatter, Total, Settle;
    SpanArithmetic(f);
    BeginOpens(Dynamic, s, f);
    var b := Begin(Dynamic, s, f);
    TakeDynamic(b, f);
    SettleDynamic(b, Take(Dynamic, b, f).value, f);
  }

  /** `t` is `b` with the data of `f` appended. */
  ghost predicate Appended(b: Slot, f: Frag, t: Slot) {
    && Open(Dynamic, b) && FragOf(f, b.rrsize)
    && NoneRecvd(b.markers, FirstBlock(f), EndBlock(f))
    && t == b.(bytes := t.bytes, headers := b.headers + [FragHeader(f.curidx, f.fragsize)],
               headersCapacity := t.headersCapacity)
    && t.headersCapacity > 0 && |t.bytes| >= b.bytesReceived + f.fragsize
    && t.bytes[..b.bytesReceived + f.fragsize] == b.bytes[..b.bytesReceived] + FragCells(f)
  }

  lemma {:induction false} AppendedPicture(b: Slot, f: Frag, t: Slot)
    requires Appended(b, f, t)
    ensures var n, rec := b.rrsize, b.bytesReceived + f.fragsize;
      && Total(t.headers) == rec && HeadersFit(t.headers, n)
      && Scatter(JunkCells(n), t.headers, t.bytes[..rec]) == Splice(Picture(Dynamic, b), f.curidx, FragCells(f))
  {
    ScatterAppend(JunkCells(b.rrsize), b.headers, b.bytes[..b.bytesReceived],
                  FragHeader(f.curidx, f.fragsize), FragCells(f));
  }

  lemma {:induction false} FinishDynamic(s: Slot, n: nat)
    requires s.bytesReceived == n == s.rrsize <= |s.bytes|
    requires Total(s.headers) == n && HeadersFit(s.headers, n)
    requires forall j :: 0 <= j < |s.markers| ==> s.markers[j] == RECVD
    ensures var r := Finish(Dynamic, s);
      && r.Ok? && r.value == s.(complete := true, headers := [], bytes := r.value.bytes)
      && |r.value.bytes| == |s.bytes|
      && r.value.bytes[..n] == Scatter(JunkCells(n), s.headers, s.bytes[..n])
  {
    ScatterPrefix(n, |s.bytes|, s.headers, s.bytes[..n]);
  }

  lemma {:induction false} SettleDynamic(b: Slot, t: Slot, f: Frag)
    requires Appended(b, f, t)
    ensures var r := Settle(Dynamic, t, f);
      && r.Ok? && Sound(Dynamic, r.value)
      && r.value.rrid == b.rrid && r.value.rrsize == b.rrsize && |r.value.bytes| == |t.bytes|
      && r.value.markers == Mark(b.markers, FirstBlock(f), EndBlock(f), RECVD)
      && |r.value.headers| <= |b.headers| + 1
      && (!r.value.complete ==> Staged(r.value) == Staged(b) + FragCells(f))
      && Assembled(Dynamic, r.value, b.rrsize) == Splice(Picture(Dynamic, b), f.curidx, FragCells(f))
  {
    hide CountRecvd, RecvdBytes, Scatter, Total, Finish;
    AppendedPicture(b, f, t);
    SettleCounts(Dynamic, t, f);
    var s' := t.(bytesReceived := t.bytesReceived + f.fragsize,
                 markers := Mark(t.markers, FirstBlock(f), EndBlock(f), RECVD),
                 blocksReceived := t.blocksReceived + Blocks(f.fragsize));
    if s'.blocksReceived == |s'.markers| {
      FinishDynamic(s', b.rrsize);
    }
  }

  lemma {:induction false} StuckStep(s: Slot, f: Frag)
    requires Welcome(Dynamic, s, f) && Stuck(Dynamic, s, f)
    ensures Absorb(Dynamic, s, f) == Err(NeverTerminates)
  {
    SpanArithmetic(f);
    CheckFreePasses(s.markers, FirstBlock(f), EndBlock(f));
  }
}
