/** PartialRR as the object that copy_section changes, in its two forms, each
    proved against `Reassembly`. */
module PartialRecords {
  import opened Wire
  import opened Records
  import opened Reassembly

  class PartialRR {
    var rrid: u16
    var started: bool
    var complete: bool
    var rrsize: nat
    var bytes: seq<Cell>
    var bytesReceived: nat
    var headers: seq<FragHeader>
    var headersCapacity: nat
    var markers: seq<Marker>
    var blocksReceived: nat

    function View(): Slot
      reads this
    {
      Slot(rrid, started, complete, rrsize, bytes, bytesReceived, headers, headersCapacity, markers, blocksReceived)
    }

    /** init_partialrr */
    constructor (rrid: u16)
      ensures View() == NewSlot(rrid)
    {
      this.rrid := rrid;
      started, complete, rrsize, bytesReceived, headersCapacity, blocksReceived := false, false, 0, 0, 0, 0;
      bytes, headers, markers := [], [], [];
    }

    /** What the first fragment allocates; `capacity` differs between the forms. */
    method Allocate(form: Form, f: Frag)
      modifies this
      ensures View() == Begin(form, old(View()), f)
    {
      if !started {
        var totalblocks := Blocks(f.rrsize);
        var free: seq<Marker> := [];
        for j := 0 to totalblocks
          invariant free == seq(j, i => FREE)
        {
          free := free + [FREE];
        }
        markers := free;
        bytes := JunkCells(if form == Dynamic then f.fragsize else f.rrsize);
        headers, headersCapacity, rrsize, started := [], 1, f.rrsize, true;
      }
    }

    /** The loop that looks for blocks already received. */
    method CheckBlocks(from: nat, to: nat) returns (error: Option<Error>)
      ensures error == CheckFree(markers, from, to)
    {
      var j := from;
      while j < to
        invariant from <= j && CheckFree(markers, from, to) == CheckFree(markers, j, to)
      {
        if j >= |markers| {
          return Some(OutOfBounds);
        }
        if markers[j] == RECVD {
          return Some(AssertionFailed);
        }
        j := j + 1;
      }
      return None;
    }

    /** Doubling bytes_capacity; the new part of the buffer is not written. */
    method GrowBytes(need: nat) returns (ok: bool)
      modifies `bytes
      ensures ok == Grow(|old(bytes)|, need).Some?
      ensures ok ==> bytes == old(bytes) + JunkCells(Grow(|old(bytes)|, need).value - |old(bytes)|)
    {
      while need > |bytes|
        invariant |bytes| >= |old(bytes)| && bytes == old(bytes) + JunkCells(|bytes| - |old(bytes)|)
        invariant Grow(|old(bytes)|, need) == Grow(|bytes|, need)
        decreases need - |bytes|
      {
        if |bytes| == 0 {
          return false;
        }
        bytes := bytes + JunkCells(|bytes|);
      }
      return true;
    }

    /** Doubling headers_capacity, a 16-bit number. */
    method GrowHeaderCapacity(need: nat) returns (ok: bool)
      modifies `headersCapacity
      ensures ok == GrowHeaders(old(headersCapacity), need).Some?
      ensures ok ==> headersCapacity == GrowHeaders(old(headersCapacity), need).value
    {
      while need > headersCapacity
        invariant GrowHeaders(old(headersCapacity), need) == GrowHeaders(headersCapacity, need)
        decreases need - headersCapacity
      {
        if headersCapacity == 0 || headersCapacity >= 0x8000 {
          return false;
        }
        headersCapacity := 2 * headersCapacity;
      }
      return true;
    }

    /** The loop that marks the fragment's blocks. */
    method MarkReceived(from: nat, to: nat)
      requires from < to ==> to <= |markers|
      modifies `markers
      ensures markers == Mark(old(markers), from, to, RECVD)
    {
      var j := from;
      while j < to
        invariant |markers| == |old(markers)| && if from <= to then from <= j <= to else j == from
        invariant markers == Mark(old(markers), from, j, RECVD)
      {
        markers := markers[j := RECVD];
        j := j + 1;
      }
      assert forall i :: 0 <= i < |markers| ==> markers[i] == Mark(old(markers), from, to, RECVD)[i];
    }

    /** The loop that asserts that every block is in. */
    method AllReceived() returns (ok: bool)
      ensures ok <==> forall j :: 0 <= j < |markers| ==> markers[j] == RECVD
    {
      for j := 0 to |markers|
        invariant forall i :: 0 <= i < j ==> markers[i] == RECVD
      {
        if markers[j] != RECVD {
          return false;
        }
      }
      return true;
    }

    /** The relocation loop: into a new buffer, fragment by fragment. */
    method Relocate() returns (ok: bool)
      modifies `bytes
      ensures ok <==> HeadersFit(headers, |old(bytes)|) && Total(headers) <= |old(bytes)|
      ensures ok ==> bytes == Scatter(JunkCells(|old(bytes)|), headers, old(bytes)[..Total(headers)])
    {
      var unsorted := bytes;
      var sorted := JunkCells(|bytes|);
      var byteidx := 0;
      var i := 0;
      while i < |headers|
        invariant 0 <= i <= |headers| && |sorted| == |unsorted| == |bytes| && bytes == old(bytes)
        invariant HeadersFit(headers[..i], |bytes|) && byteidx == Total(headers[..i]) <= |bytes|
        invariant sorted == Scatter(JunkCells(|bytes|), headers[..i], unsorted[..byteidx])
      {
        var h := headers[i];
        TotalGrows(headers, i + 1);
        PrefixOfPrefix(headers, i);
        if h.fragStart + h.fragSize > |sorted| || byteidx + h.fragSize > |unsorted| {
          return false;
        }
        ScatterMore(JunkCells(|bytes|), headers, unsorted, i);
        sorted := Splice(sorted, h.fragStart, unsorted[byteidx..byteidx + h.fragSize]);
        byteidx := byteidx + h.fragSize;
        i := i + 1;
      }
      assert headers[..i] == headers;
      bytes := sorted;
      return true;
    }

    /** When all blocks are counted: the dynamic form. */
    method FinishDynamic() returns (error: Option<Error>)
      modifies this
      ensures match Finish(Dynamic, old(View()))
        case Ok(s) => error == None && View() == s
        case Err(e) => error == Some(e)
    {
      complete := true;
      var all := AllReceived();
      if !all {
        return Some(AssertionFailed);
      }
      var ok := Relocate();
      if !ok {
        return Some(OutOfBounds);
      }
      headers := [];
      return None;
    }

    /** Everything from the check of the blocks to the header. */
    method Append(f: Frag) returns (error: Option<Error>)
      requires f.Sized()
      modifies this
      ensures match Take(Dynamic, old(View()), f)
        case Ok(s) => error == None && View() == s
        case Err(e) => error == Some(e)
    {
      hide CheckFree, Grow, GrowHeaders, Splice, JunkCells, Cells, Blocks;
      var blockidx := f.curidx / 32;
      error := CheckBlocks(blockidx, blockidx + Blocks(f.fragsize));
      if error.Some? {
        return;
      }
      var ok := GrowBytes(bytesReceived + f.fragsize);
      if !ok {
        return Some(NeverTerminates);
      }
      ok := GrowHeaderCapacity(|headers| + 1);
      if !ok {
        return Some(NeverTerminates);
      }
      var data := if f.data.Some? then Cells(f.data.value) else [];
      if complete || |data| < f.fragsize {
        return Some(NullPointer);
      }
      bytes := Splice(bytes, bytesReceived, data);
      headers := headers + [FragHeader(f.curidx, f.fragsize)];
    }

    /** The counters, the markers, and relocation when the last block is in. */
    method SettleDynamic(f: Frag) returns (error: Option<Error>)
      requires f.fragsize > 0 ==> f.curidx / 32 + Blocks(f.fragsize) <= |markers|
      modifies this
      ensures match Settle(Dynamic, old(View()), f)
        case Ok(s) => error == None && View() == s
        case Err(e) => error == Some(e)
    {
      hide Finish, Mark;
      bytesReceived := bytesReceived + f.fragsize;
      MarkReceived(f.curidx / 32, f.curidx / 32 + Blocks(f.fragsize));
      blocksReceived := blocksReceived + Blocks(f.fragsize);
      error := None;
      if |markers| == blocksReceived {
        error := FinishDynamic();
      }
    }

    /** The dynamic copy_section for one fragment (daemon.c, test/sandbox.c):
        append the data, remember its place, relocate at the end. */
    method AppendFragment(f: Frag) returns (error: Option<Error>)
      requires f.Sized()
      modifies this
      ensures match Absorb(Dynamic, old(View()), f)
        case Ok(s) => error == None && View() == s
        case Err(e) => error == Some(e)
    {
      hide Take, Begin, Settle;
      if f.curidx / 32 + Blocks(f.fragsize) > 0xffff || Blocks(f.rrsize) > 0xffff {
        return Some(OutOfBounds);
      }
      if complete && !started {
        return Some(Uninitialised);
      }
      Allocate(Dynamic, f);
      ghost var begun := View();
      error := Append(f);
      if error.None? {
        TakeKeepsMarkers(Dynamic, begun, f);
        error := SettleDynamic(f);
      }
    }

    /** Writing the data to its place. */
    method Place(f: Frag) returns (error: Option<Error>)
      requires f.Sized()
      modifies this
      ensures match Take(Static, old(View()), f)
        case Ok(s) => error == None && View() == s
        case Err(e) => error == Some(e)
    {
      hide Splice, Cells, Blocks;
      if f.curidx / 32 + Blocks(f.fragsize) > |markers| {
        return Some(OutOfBounds);
      }
      var data := if f.data.Some? then Cells(f.data.value) else [];
      if |data| < f.fragsize {
        return Some(NullPointer);
      }
      if f.curidx + f.fragsize > |bytes| {
        return Some(OutOfBounds);
      }
      bytes := Splice(bytes, f.curidx, data);
      return None;
    }

    method FinishStatic() returns (error: Option<Error>)
      modifies this
      ensures match Finish(Static, old(View()))
        case Ok(s) => error == None && View() == s
        case Err(e) => error == Some(e)
    {
      complete := true;
      var all := AllReceived();
      return if all then None else Some(AssertionFailed);
    }

    method SettleStatic(f: Frag) returns (error: Option<Error>)
      requires f.fragsize > 0 ==> f.curidx / 32 + Blocks(f.fragsize) <= |markers|
      modifies this
      ensures match Settle(Static, old(View()), f)
        case Ok(s) => error == None && View() == s
        case Err(e) => error == Some(e)
    {
      hide Finish, Mark;
      MarkReceived(f.curidx / 32, f.curidx / 32 + Blocks(f.fragsize));
      blocksReceived := blocksReceived + Blocks(f.fragsize);
      bytesReceived := bytesReceived + f.fragsize;
      error := None;
      if |markers| == blocksReceived {
        error := FinishStatic();
      }
    }

    /** The static copy_section for one fragment (test/original.c): write the data
        straight to its place. */
    method PlaceFragment(f: Frag) returns (error: Option<Error>)
      requires f.Sized()
      modifies this
      ensures match Absorb(Static, old(View()), f)
        case Ok(s) => error == None && View() == s
        case Err(e) => error == Some(e)
    {
      hide Take, Begin, Settle;
      if f.curidx / 32 + Blocks(f.fragsize) > 0xffff || Blocks(f.rrsize) > 0xffff {
        return Some(OutOfBounds);
      }
      if complete && !started {
        return Some(Uninitialised);
      }
      Allocate(Static, f);
      ghost var begun := View();
      error := Place(f);
      if error.None? {
        TakeKeepsMarkers(Static, begun, f);
        error := SettleStatic(f);
      }
    }

    /** copy_section's other branch: the slot takes a whole record. */
    method TakeWhole(rr: ResourceRecord)
      requires rr.Sized()
      modifies this
      ensures View() == old(View()).(bytes := Cells(RecordToBytes(rr)), bytesReceived := |RecordToBytes(rr)|,
                                     rrsize := |RecordToBytes(rr)|, complete := true)
    {
      var out := ResourceRecordToBytes(rr);
      bytes, bytesReceived, rrsize, complete := Cells(out), |out|, |out|, true;
    }
  }

  lemma {:induction false} PrefixOfPrefix(hs: seq<FragHeader>, i: nat)
    requires i < |hs|
    ensures hs[..i + 1][..i] == hs[..i] && hs[..i + 1][i] == hs[i]
    ensures Total(hs[..i + 1]) == Total(hs[..i]) + hs[i].fragSize
  {
  }

  lemma {:induction false} TotalGrows(hs: seq<FragHeader>, i: nat)
    requires i <= |hs|
    ensures Total(hs[..i]) <= Total(hs)
    decreases |hs| - i
  {
    if i < |hs| {
      TotalGrows(hs, i + 1);
      PrefixOfPrefix(hs, i);
    } else {
      assert hs[..i] == hs;
    }
  }

  lemma {:induction false} ScatterMore(buf: seq<Cell>, hs: seq<FragHeader>, all: seq<Cell>, i: nat)
    requires i < |hs| && HeadersFit(hs[..i], |buf|) && hs[i].fragStart + hs[i].fragSize <= |buf|
    requires Total(hs[..i]) + hs[i].fragSize <= |all|
    ensures HeadersFit(hs[..i + 1], |buf|) && Total(hs[..i + 1]) == Total(hs[..i]) + hs[i].fragSize
    ensures var n, m := Total(hs[..i]), Total(hs[..i + 1]);
      Scatter(buf, hs[..i + 1], all[..m]) == Splice(Scatter(buf, hs[..i], all[..n]), hs[i].fragStart, all[n..m])
  {
    hide Scatter, Total, Splice;
    PrefixOfPrefix(hs, i);
    TotalOne(hs[..i + 1]);
    var n, m := Total(hs[..i]), Total(hs[..i + 1]);
    assert all[..m][..n] == all[..n] && all[..m][n..] == all[n..m];
    ScatterOne(buf, hs[..i + 1], all[..m]);
  }

  lemma {:induction false} TotalOne(hs: seq<FragHeader>)
    requires hs != []
    ensures Total(hs) == Total(hs[..|hs| - 1]) + hs[|hs| - 1].fragSize
  {
  }

  lemma {:induction false} ScatterOne(buf: seq<Cell>, hs: seq<FragHeader>, all: seq<Cell>)
    requires hs != [] && HeadersFit(hs, |buf|) && Total(hs) == |all|
    ensures var h, cut := hs[|hs| - 1], |all| - hs[|hs| - 1].fragSize;
      && cut == Total(hs[..|hs| - 1]) && HeadersFit(hs[..|hs| - 1], |buf|)
      && Scatter(buf, hs, all) == Splice(Scatter(buf, hs[..|hs| - 1], all[..cut]), h.fragStart, all[cut..])
  {
  }

  lemma {:induction false} TakeKeepsMarkers(form: Form, s: Slot, f: Frag)
    requires f.Sized() && Take(form, s, f).Ok?
    ensures Take(form, s, f).value.markers == s.markers
    ensures f.curidx / 32 + Blocks(f.fragsize) <= |s.markers| || f.fragsize == 0
  {
    if form == Dynamic {
      CheckedInRange(s.markers, f.curidx / 32, f.curidx / 32 + Blocks(f.fragsize));
    }
  }

  lemma {:induction false} CheckedInRange(ms: seq<Marker>, from: nat, to: nat)
    requires CheckFree(ms, from, to).None?
    ensures from < to ==> to <= |ms|
    decreases (to as int) - (from as int)
  {
    if from < to {
      CheckedInRange(ms, from + 1, to);
    }
  }
}
