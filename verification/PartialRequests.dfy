/** The second half of requester_thread, and pack_section, over the objects they
    mark; proved against `Requester`. */
module PartialRequests {
  import opened Wire
  import opened Records
  import opened Messages
  import opened Reassembly
  import opened Requester
  import opened PartialRecords
  import opened PartialMessages

  // ----- One slot

  lemma {:induction false} FreeFits(ms: seq<Marker>, j: nat)
    requires j <= |ms|
    ensures FirstFree(ms, j) + FreeBlocks(ms, j) <= |ms|
    ensures FirstFree(ms, j) == |ms| <==> FreeBlocks(ms, j) == 0
    decreases |ms| - j
  {
    if j < |ms| {
      FreeFits(ms, j + 1);
    }
  }

  /** The loop that looks for the first free block and counts all of them. */
  method ScanFree(markers: seq<Marker>) returns (curidx: int, numblocks: nat)
    ensures numblocks == FreeBlocks(markers)
    ensures curidx == if FirstFree(markers) == |markers| then -1 else FirstFree(markers)
  {
    curidx, numblocks := -1, 0;
    for j := 0 to |markers|
      invariant numblocks + FreeBlocks(markers, j) == FreeBlocks(markers)
      invariant if curidx == -1 then FirstFree(markers) == FirstFree(markers, j) else curidx == FirstFree(markers) < j
    {
      if markers[j] == FREE && curidx == -1 {
        curidx := j;
        numblocks := numblocks + 1;
      } else if markers[j] == FREE && curidx != -1 {
        numblocks := numblocks + 1;
      }
    }
  }

  method MarkWaiting(prr: PartialRR, from: nat, to: nat)
    requires from <= to <= |prr.markers|
    modifies prr`markers
    ensures prr.markers == Mark(old(prr.markers), from, to, WAITING)
  {
    for j := from to to
      invariant prr.markers == Mark(old(prr.markers), from, j, WAITING)
    {
      prr.markers := prr.markers[j := WAITING];
    }
  }

  /** The body of pack_section's loop once the slot has been found. */
  method AskSlot(prr: PartialRR, cursize: u16, maxUdp: nat) returns (a: Ask)
    requires cursize < maxUdp
    modifies prr`markers
    ensures a == AskFor(old(prr.View()), cursize, maxUdp)
    ensures prr.View() == if a.All? || a.Part? then a.slot else old(prr.View())
  {
    hide FirstFree, FreeBlocks, Mark;
    var curidx, numblocks := ScanFree(prr.markers);
    FreeFits(prr.markers, 0);
    if curidx == -1 {
      return Nothing;
    }
    var lastblocksize := prr.rrsize % 32;
    if lastblocksize == 0 {
      lastblocksize := 32;
    }
    var canfit := maxUdp - cursize;
    var numblockscanfit := canfit / 32;
    if numblockscanfit >= numblocks {
      var fragsize: u16 := (numblocks * 32) % 0x1_0000;
      var left := prr.rrsize - curidx * 32;
      if 0 <= left < fragsize {
        fragsize := left;
      }
      MarkWaiting(prr, curidx, curidx + numblocks);
      return All(Want(prr.View(), fragsize, curidx), prr.View(),
                 (cursize + (numblocks - 1) * 32 + lastblocksize - 10 + 15) % 0x1_0000);
    } else if numblockscanfit > 0 {
      MarkWaiting(prr, curidx, curidx + numblockscanfit);
      return Part(Want(prr.View(), (numblockscanfit * 32) % 0x1_0000, curidx), prr.View(),
                  (cursize + numblockscanfit * 32 - 10 + 15) % 0x1_0000);
    }
    return NoRoom;
  }

  // ----- One section

  lemma {:induction false} ListsSlice(slots: seq<Slot>, lo: nat, hi: nat, i: nat)
    requires lo <= i <= hi <= |slots|
    ensures IncompleteIds(slots, i, hi) == IncompleteIds(slots[lo..hi], i - lo, hi - lo)
    ensures NotComplete(slots, i, hi) == NotComplete(slots[lo..hi], i - lo, hi - lo)
    decreases hi - i
  {
    hide IncompleteIds, NotComplete;
    ListsStep(slots, i, hi);
    ListsStep(slots[lo..hi], i - lo, hi - lo);
    if i < hi {
      ListsSlice(slots, lo, hi, i + 1);
    }
  }

  lemma {:induction false} ListsStep(slots: seq<Slot>, i: nat, hi: nat)
    requires i <= hi <= |slots|
    ensures IncompleteIds(slots, i, hi)
            == if i == hi then []
               else (if !slots[i].complete && slots[i].rrid != 0 then [slots[i].rrid] else [])
                    + IncompleteIds(slots, i + 1, hi)
    ensures NotComplete(slots, i, hi)
            == if i == hi then 0 else (if slots[i].complete then 0 else 1) + NotComplete(slots, i + 1, hi)
  {
  }

  lemma {:induction false} FindSlice(slots: seq<Slot>, lo: nat, hi: nat, i: nat, rrid: u16)
    requires lo <= i <= hi <= |slots|
    ensures FindSlot(slots[..hi], rrid, i) == lo + FindSlot(slots[lo..hi], rrid, i - lo)
    decreases hi - i
  {
    if i < hi {
      FindSlice(slots, lo, hi, i + 1, rrid);
    }
  }

  /** The two loops that list the rrids of a section to ask for. */
  method ListIncomplete(section: seq<PartialRR>) returns (notComplete: nat, rrids: seq<u16>)
    ensures notComplete == NotComplete(Views(section), 0, |section|)
    ensures rrids == IncompleteIds(Views(section), 0, |section|)
  {
    hide Views;
    ViewsAre(section);
    ghost var slots := Views(section);
    notComplete := 0;
    for i := 0 to |section|
      invariant notComplete + NotComplete(slots, i, |section|) == NotComplete(slots, 0, |section|)
    {
      assert slots[i] == section[i].View();
      if !section[i].complete {
        notComplete := notComplete + 1;
      }
    }
    rrids := [];
    for i := 0 to |section|
      invariant rrids + IncompleteIds(slots, i, |section|) == IncompleteIds(slots, 0, |section|)
    {
      assert slots[i] == section[i].View();
      if !section[i].complete && section[i].rrid != 0 {
        Assoc(rrids, [section[i].rrid], IncompleteIds(slots, i + 1, |section|));
        rrids := rrids + [section[i].rrid];
      } else {
        assert [] + IncompleteIds(slots, i + 1, |section|) == IncompleteIds(slots, i + 1, |section|);
      }
    }
    assert rrids + [] == rrids;
  }

  /** One turn of pack_section's loop: the slot with this rrid, and what is asked
      of it. `rs` are all slots, of which the section has those from lo to hi. */
  method PackTurn(rs: seq<PartialRR>, lo: nat, hi: nat, rrid: u16, size: u16, maxUdp: nat) returns (j: nat, a: Ask)
    requires Apart(rs) && lo <= hi <= |rs| && size < maxUdp
    modifies rs
    ensures j == FindSlot(old(Views(rs))[..hi], rrid, lo) <= hi
    ensures j == hi ==> Views(rs) == old(Views(rs))
    ensures j < hi ==> a == AskFor(old(Views(rs))[j], size, maxUdp)
    ensures j < hi ==> Views(rs) == if a.All? || a.Part? then old(Views(rs))[j := a.slot] else old(Views(rs))
  {
    hide Views, AskFor, FindSlot;
    ghost var before := Views(rs);
    ViewsAre(rs);
    ViewsSlice(rs, lo, hi);
    FindSlice(before, lo, hi, lo, rrid);
    var i := PartialDNSMessage.FindIn(rs[lo..hi], rrid);
    j, a := lo + i, NoRoom;
    if j < hi {
      a := AskSlot(rs[j], size, maxUdp);
      OneView(rs, before, j);
      assert before[j := before[j]] == before;
    }
  }

  lemma {:induction false} PackFromIs(k: Packing, lo: nat, hi: nat, ids: seq<u16>, notComplete: nat, i: nat,
                                      maxUdp: nat)
    requires lo <= hi <= |k.slots|
    ensures i >= notComplete || k.size >= maxUdp ==> PackFrom(k, lo, hi, ids, notComplete, i, maxUdp) == Ok(k)
    ensures i < notComplete && k.size < maxUdp && i >= |ids| ==>
      PackFrom(k, lo, hi, ids, notComplete, i, maxUdp) == Err(Uninitialised)
    ensures i < notComplete && k.size < maxUdp && i < |ids| ==>
      var j := FindSlot(k.slots[..hi], ids[i], lo);
      PackFrom(k, lo, hi, ids, notComplete, i, maxUdp)
      == if j == hi then Err(AssertionFailed)
         else
           match AskFor(k.slots[j], k.size, maxUdp)
           case Nothing => PackFrom(k, lo, hi, ids, notComplete, i + 1, maxUdp)
           case All(f, s, size) =>
             PackFrom(Packing(k.slots[j := s], k.frags + [f], size), lo, hi, ids, notComplete, i + 1, maxUdp)
           case Part(f, s, size) => Ok(Packing(k.slots[j := s], k.frags + [f], size))
           case NoRoom => Ok(k)
  {
  }

  /** pack_section */
  method PackSlots(rs: seq<PartialRR>, lo: nat, hi: nat, frags: seq<Frag>, size: u16, rrids: seq<u16>,
                   notComplete: nat, maxUdp: nat)
    returns (r: Result<(seq<Frag>, u16)>)
    requires Apart(rs) && lo <= hi <= |rs|
    modifies rs
    ensures match PackFrom(Packing(old(Views(rs)), frags, size), lo, hi, rrids, notComplete, 0, maxUdp)
      case Ok(k) => r == Ok((k.frags, k.size)) && Views(rs) == k.slots
      case Err(e) => r == Err(e)
  {
    hide Views, PackFrom, FindSlot, AskFor, Apart;
    var packed, cursize: u16 := frags, size;
    var i := 0;
    ghost var start := Packing(Views(rs), frags, size);
    while i < notComplete && cursize < maxUdp
      invariant i <= notComplete
      invariant PackFrom(start, lo, hi, rrids, notComplete, 0, maxUdp)
                == PackFrom(Packing(Views(rs), packed, cursize), lo, hi, rrids, notComplete, i, maxUdp)
    {
      PackFromIs(Packing(Views(rs), packed, cursize), lo, hi, rrids, notComplete, i, maxUdp);
      if i >= |rrids| {
        return Err(Uninitialised);
      }
      var j, a := PackTurn(rs, lo, hi, rrids[i], cursize, maxUdp);
      if j == hi {
        return Err(AssertionFailed);
      }
      match a {
        case Nothing =>
        case All(f, _, size') => packed, cursize := packed + [f], size';
        case Part(f, _, size') => return Ok((packed + [f], size'));
        case NoRoom => return Ok((packed, cursize));
      }
      i := i + 1;
    }
    PackFromIs(Packing(Views(rs), packed, cursize), lo, hi, rrids, notComplete, i, maxUdp);
    return Ok((packed, cursize));
  }

  // ----- The whole request

  lemma {:induction false} ListsAre(rs: seq<PartialRR>, lo: nat, hi: nat)
    requires lo <= hi <= |rs|
    ensures NotComplete(Views(rs[lo..hi]), 0, hi - lo) == NotComplete(Views(rs), lo, hi)
    ensures IncompleteIds(Views(rs[lo..hi]), 0, hi - lo) == IncompleteIds(Views(rs), lo, hi)
  {
    hide Views;
    ViewsSlice(rs, lo, hi);
    ListsSlice(Views(rs), lo, hi, lo);
  }

  /** The requester's second step: the lists of what is missing, the three calls of
      pack_section, and the fragments that go into the follow-up request. */
  method PackFollowUp(p: PartialDNSMessage, maxUdp: nat) returns (r: Result<(seq<Frag>, u16)>)
    requires p.Valid()
    modifies p.All()
    ensures p.Valid() && p.All() == old(p.All())
    ensures match PackAll(old(p.View()), maxUdp)
      case Ok(k) => r == Ok((k.frags, k.size)) && p.View() == old(p.View()).(slots := k.slots)
      case Err(e) => r == Err(e)
  {
    hide Views, PackFrom, Apart, IncompleteIds, NotComplete;
    var rs, an, ns := p.All(), p.ancount, p.ancount + p.nscount;
    ListsAre(rs, 0, an);
    ListsAre(rs, an, ns);
    ListsAre(rs, ns, |rs|);
    SectionsAre(p.answers, p.authoritative, p.additional);
    ghost var pm := p.View();
    assert Start(pm, 0) == 0 && Start(pm, 1) == an && Start(pm, 2) == ns && Start(pm, 3) == |rs|;
    var anCount, anRrids := ListIncomplete(p.answers);
    var nsCount, nsRrids := ListIncomplete(p.authoritative);
    var arCount, arRrids := ListIncomplete(p.additional);
    assert anRrids == IncompleteIds(pm.slots, 0, an) && anCount == NotComplete(pm.slots, 0, an);
    assert nsRrids == IncompleteIds(pm.slots, an, ns) && nsCount == NotComplete(pm.slots, an, ns);
    assert arRrids == IncompleteIds(pm.slots, ns, |rs|) && arCount == NotComplete(pm.slots, ns, |rs|);
    r := PackSlots(rs, 0, an, [], 12, anRrids, anCount, maxUdp);
    if r.Ok? {
      r := PackSlots(rs, an, ns, r.value.0, r.value.1, nsRrids, nsCount, maxUdp);
    }
    if r.Ok? {
      r := PackSlots(rs, ns, |rs|, r.value.0, r.value.1, arRrids, arCount, maxUdp);
    }
  }

  // ----- The finished message

  /** partial_to_dnsmessage, for one slot. */
  method SlotRecord(prr: PartialRR) returns (r: Result<PackedRR>)
    ensures r == SlotToRecord(prr.View())
  {
    hide DefinedBytes, RecordFromBytes;
    if prr.rrsize > |prr.bytes| {
      return Err(OutOfBounds);
    }
    var bytes := DefinedBytes(prr.bytes[..prr.rrsize]);
    if bytes.None? {
      return Err(Uninitialised);
    }
    var rr := ResourceRecordFromBytes(bytes.value);
    return if rr.Err? then Err(rr.error) else Ok(Whole(rr.value.value));
  }

  lemma {:induction false} SlotsToRecordsStep(slots: seq<Slot>, i: nat)
    requires i < |slots|
    ensures match SlotsToRecords(slots[..i])
      case Err(e) => SlotsToRecords(slots[..i + 1]) == Err(e)
      case Ok(rs) =>
        match SlotToRecord(slots[i])
        case Err(e) => SlotsToRecords(slots[..i + 1]) == Err(e)
        case Ok(r) => SlotsToRecords(slots[..i + 1]) == Ok(rs + [r])
  {
    hide SlotToRecord;
    if i > 0 {
      assert slots[1..][..i - 1] == slots[..i][1..] && slots[1..][..i] == slots[..i + 1][1..];
      SlotsToRecordsStep(slots[1..], i - 1);
      if SlotToRecord(slots[0]).Ok? && SlotsToRecords(slots[..i][1..]).Ok? && SlotToRecord(slots[i]).Ok? {
        Assoc([SlotToRecord(slots[0]).value], SlotsToRecords(slots[..i][1..]).value, [SlotToRecord(slots[i]).value]);
      }
    } else {
      assert slots[..1] == [slots[0]] && slots[..1][1..] == [];
      if SlotToRecord(slots[0]).Ok? {
        assert [] + [SlotToRecord(slots[0]).value] == [SlotToRecord(slots[0]).value] + [];
      }
    }
  }

  lemma {:induction false} SlotsToRecordsFails(slots: seq<Slot>, i: nat, e: Error)
    requires i <= |slots| && SlotsToRecords(slots[..i]) == Err(e)
    ensures SlotsToRecords(slots) == Err(e)
    decreases |slots| - i
  {
    if i == |slots| {
      assert slots[..i] == slots;
    } else {
      SlotsToRecordsStep(slots, i);
      SlotsToRecordsFails(slots, i + 1, e);
    }
  }

  /** partial_to_dnsmessage, and the QR bit. */
  method Rebuild(p: PartialDNSMessage) returns (r: Result<Message>)
    requires p.Valid()
    ensures r == PartialToMessage(p.View())
  {
    hide SlotToRecord, SlotsToRecords, Views, Apart;
    var complete := p.IsComplete();
    if !complete {
      return Err(AssertionFailed);
    }
    var rs := p.All();
    ghost var slots := Views(rs);
    ViewsAre(rs);
    var records: seq<PackedRR> := [];
    assert slots[..0] == [] && SlotsToRecords([]) == Ok([]) by { NoSlots(); }
    for i := 0 to |rs|
      invariant SlotsToRecords(slots[..i]) == Ok(records)
    {
      SlotsToRecordsStep(slots, i);
      var rr := SlotRecord(rs[i]);
      if rr.Err? {
        SlotsToRecordsFails(slots, i + 1, rr.error);
        return Err(rr.error);
      }
      records := records + [rr.value];
    }
    assert slots[..|rs|] == slots;
    var an, ns := p.ancount, p.ancount + p.nscount;
    return Ok(Message(p.identification, MarkResponse(p.flags), p.questions,
                      records[..an], records[an..ns], records[ns..]));
  }

  lemma {:induction false} NoSlots()
    ensures SlotsToRecords([]) == Ok([])
  {
  }

  /** What requester_thread sends: the rebuilt message, or a follow-up request. */
  datatype Reaction = Forward(m: Message) | FollowUp(m: Message)

  /** requester_thread */
  method OnReply(p: PartialDNSMessage, form: Form, m: Message, maxUdp: nat) returns (r: Result<Reaction>)
    requires p.Valid() && m.Sized()
    modifies p, p.All()
    ensures match CopyMessage(form, old(p.View()), m)
      case Err(e) => r == Err(e)
      case Ok(pm) =>
        if MessageComplete(pm) then
          match PartialToMessage(pm)
          case Err(e) => r == Err(e)
          case Ok(whole) => r == Ok(Forward(whole))
        else
          match PackAll(pm, maxUdp)
          case Err(e) => r == Err(e)
          case Ok(k) =>
            if |k.frags| >= 0x1_0000 then r == Err(OutOfBounds)
            else
              && r == Ok(FollowUp(RequestMessage(m.identification, k.frags)))
              && p.Valid() && p.View() == pm.(slots := k.slots)
    ensures r.Ok? && r.value.FollowUp? ==> p.All() == old(p.All()) || fresh(p.All())
  {
    hide CopyMessage, PartialToMessage, PackAll, Views, Apart;
    var error := p.CopyMessageContents(form, m);
    if error.Some? {
      return Err(error.value);
    }
    var complete := p.IsComplete();
    if complete {
      var whole := Rebuild(p);
      return if whole.Err? then Err(whole.error) else Ok(Forward(whole.value));
    }
    var packed := PackFollowUp(p, maxUdp);
    if packed.Err? {
      return Err(packed.error);
    }
    if |packed.value.0| >= 0x1_0000 {
      return Err(OutOfBounds);
    }
    return Ok(FollowUp(RequestMessage(m.identification, packed.value.0)));
  }
}
