/**
 The requester's side of daemon.c: the partial message that copy_section fills,
 and the follow-up requests that pack_section cuts out of what is missing.

 The three record sections are kept as one list of slots, answers first, in the
 order in which find_partialrr searches them.
 */
module Requester {
  import opened Wire
  import opened Records
  import opened Messages
  import opened Reassembly

  /** PartialDNSMessage. `known` stands for the five *_set flags, which are set
      together; `done` holds answers_done, authoritative_done, additionals_done. */
  datatype Partial = Partial(
    known: bool, identification: u16, flags: u16, questions: seq<Question>,
    ancount: nat, nscount: nat, arcount: nat,
    slots: seq<Slot>, done: seq<nat>)
  {
    predicate Shaped() {
      |slots| == ancount + nscount + arcount && |done| == 3
    }
  }

  const NOTHING_YET := Partial(false, 0, 0, [], 0, 0, 0, [], [0, 0, 0])

  /** Where section 0, 1 or 2 starts; section 3 is the end. */
  function Start(pm: Partial, section: nat): (lo: nat)
    requires section <= 3
  {
    match section
    case 0 => 0
    case 1 => pm.ancount
    case 2 => pm.ancount + pm.nscount
    case 3 => pm.ancount + pm.nscount + pm.arcount
  }

  function SectionOf(pm: Partial, i: nat): (section: nat)
    ensures section < 3
  {
    if i < pm.ancount then 0 else if i < pm.ancount + pm.nscount then 1 else 2
  }

  // ----- Copying a message in

  /** The first slot at or after `i` with this rrid, or |slots|: find_partialrr. */
  function FindSlot(slots: seq<Slot>, rrid: u16, i: nat := 0): (k: nat)
    requires i <= |slots|
    ensures i <= k <= |slots|
    ensures k < |slots| ==> slots[k].rrid == rrid
    ensures forall j :: i <= j < k ==> slots[j].rrid != rrid
    decreases |slots| - i
  {
    if i == |slots| || slots[i].rrid == rrid then i else FindSlot(slots, rrid, i + 1)
  }

  /** The first slot from `i` to `hi` that waits for a whole record, or `hi`. */
  function FindEmpty(slots: seq<Slot>, i: nat, hi: nat): (k: nat)
    requires i <= hi <= |slots|
    ensures i <= k <= hi
    ensures k < hi ==> !slots[k].complete && slots[k].rrid == 0
    ensures forall j :: i <= j < k ==> slots[j].complete || slots[j].rrid != 0
    decreases hi - i
  {
    if i == hi || (!slots[i].complete && slots[i].rrid == 0) then i else FindEmpty(slots, i + 1, hi)
  }

  function StoreWhole(s: Slot, rr: ResourceRecord): Slot
    requires rr.Sized()
  {
    var out := RecordToBytes(rr);
    s.(bytes := Cells(out), bytesReceived := |out|, rrsize := |out|, complete := true)
  }

  function Count(pm: Partial, section: nat): Partial
    requires pm.Shaped() && section < 3
  {
    pm.(done := pm.done[section := pm.done[section] + 1])
  }

  /** One turn of copy_section's loop. */
  function CopyItem(form: Form, pm: Partial, p: PackedRR, section: nat): (r: Result<Partial>)
    requires pm.Shaped() && p.Sized() && section < 3
    ensures r.Ok? ==> r.value.Shaped()
  {
    match p
    case Fragment(f) =>
      var i := FindSlot(pm.slots, f.rrid);
      if i == |pm.slots| then Err(NullPointer)
      else
        var s :- Absorb(form, pm.slots[i], f);
        var pm' := pm.(slots := pm.slots[i := s]);
        Ok(if s.blocksReceived == |s.markers| then Count(pm', SectionOf(pm, i)) else pm')
    case Whole(rr) =>
      var hi := Start(pm, section + 1);
      var j := FindEmpty(pm.slots, Start(pm, section), hi);
      if j == hi then Ok(pm)
      else Ok(Count(pm.(slots := pm.slots[j := StoreWhole(pm.slots[j], rr)]), section))
  }

  function CopySection(form: Form, pm: Partial, ps: seq<PackedRR>, section: nat): (r: Result<Partial>)
    requires pm.Shaped() && AllSized(ps) && section < 3
    ensures r.Ok? ==> r.value.Shaped()
    decreases |ps|
  {
    if ps == [] then Ok(pm)
    else
      var pm' :- CopyItem(form, pm, ps[0], section);
      CopySection(form, pm', ps[1..], section)
  }

  function SlotFor(p: PackedRR): Slot {
    NewSlot(if p.Fragment? then p.frag.rrid else 0)
  }

  function SlotsFor(ps: seq<PackedRR>): (slots: seq<Slot>)
    ensures |slots| == |ps|
  {
    seq(|ps|, i requires 0 <= i < |ps| => SlotFor(ps[i]))
  }

  /** What copy_message_contents does before it copies the sections. A section
      that was empty in the first message has no array to grow into. */
  function Prepare(pm: Partial, m: Message): (r: Result<Partial>)
    requires pm.Shaped()
    ensures r.Ok? ==> r.value.Shaped()
  {
    if !pm.known then
      if exists k :: 0 <= k < |m.questions| && m.questions[k].qtype == RRFRAG then Err(AssertionFailed)
      else Ok(Partial(true, m.identification, m.flags, m.questions,
                      |m.answers|, |m.authoritative|, |m.additional|, SlotsFor(m.Records()), pm.done))
    else if (pm.questions == [] && m.questions != []) || (pm.ancount == 0 && m.answers != []) then
      Err(OutOfBounds)
    else Ok(pm)
  }

  function CopySections(form: Form, pm: Partial, m: Message): (r: Result<Partial>)
    requires pm.Shaped() && m.Sized()
    ensures r.Ok? ==> r.value.Shaped()
  {
    var pm1 :- CopySection(form, pm, m.answers, 0);
    var pm2 :- CopySection(form, pm1, m.authoritative, 1);
    CopySection(form, pm2, m.additional, 2)
  }

  /** copy_message_contents */
  function CopyMessage(form: Form, pm: Partial, m: Message): (r: Result<Partial>)
    requires pm.Shaped() && m.Sized()
    ensures r.Ok? ==> r.value.Shaped()
  {
    var pm0 :- Prepare(pm, m);
    CopySections(form, pm0, m)
  }

  /** message_complete */
  predicate MessageComplete(pm: Partial)
    requires pm.Shaped()
  {
    && pm.known
    && pm.ancount == pm.done[0] && pm.nscount == pm.done[1] && pm.arcount == pm.done[2]
  }

  // ----- Asking for what is missing

  /** The rrids of the incomplete slots from lo to hi. */
  function IncompleteIds(slots: seq<Slot>, lo: nat, hi: nat): seq<u16>
    requires lo <= hi <= |slots|
    decreases hi - lo
  {
    if lo == hi then []
    else (if !slots[lo].complete && slots[lo].rrid != 0 then [slots[lo].rrid] else []) +
         IncompleteIds(slots, lo + 1, hi)
  }

  /** The number of incomplete slots, with or without an rrid. */
  function NotComplete(slots: seq<Slot>, lo: nat, hi: nat): nat
    requires lo <= hi <= |slots|
    decreases hi - lo
  {
    if lo == hi then 0 else (if slots[lo].complete then 0 else 1) + NotComplete(slots, lo + 1, hi)
  }

  function FirstFree(ms: seq<Marker>, j: nat := 0): (k: nat)
    requires j <= |ms|
    ensures j <= k <= |ms|
    ensures k < |ms| ==> ms[k] == FREE
    ensures forall i :: j <= i < k ==> ms[i] != FREE
    decreases |ms| - j
  {
    if j == |ms| || ms[j] == FREE then j else FirstFree(ms, j + 1)
  }

  function FreeBlocks(ms: seq<Marker>, j: nat := 0): (n: nat)
    requires j <= |ms|
    ensures n <= |ms| - j
    decreases |ms| - j
  {
    if j == |ms| then 0 else (if ms[j] == FREE then 1 else 0) + FreeBlocks(ms, j + 1)
  }

  /** What pack_section does with one slot: nothing is missing, a request for all
      that is missing, a request for as much as fits, or no room at all. The last
      two end the section. */
  datatype Ask = Nothing | All(frag: Frag, slot: Slot, size: u16) | Part(frag: Frag, slot: Slot, size: u16) | NoRoom

  function Want(s: Slot, size: u16, curidx: nat): Frag {
    Frag(size, (curidx * 32) % 0x1_0000_0000, s.rrsize % 0x1_0000_0000, s.rrid, None)
  }

  function AskFor(s: Slot, cursize: u16, maxUdp: nat): Ask
    requires cursize < maxUdp
  {
    var curidx, numblocks := FirstFree(s.markers), FreeBlocks(s.markers);
    if curidx == |s.markers| then Nothing
    else
      var lastblocksize := if s.rrsize % 32 == 0 then 32 else s.rrsize % 32;
      var numblockscanfit := (maxUdp - cursize) / 32;
      if numblockscanfit >= numblocks then
        var all := (numblocks * 32) % 0x1_0000;
        var left := s.rrsize - curidx * 32;
        All(Want(s, if 0 <= left < all then left else all, curidx),
            s.(markers := Mark(s.markers, curidx, curidx + numblocks, WAITING)),
            (cursize + (numblocks - 1) * 32 + lastblocksize - 10 + 15) % 0x1_0000)
      else if numblockscanfit > 0 then
        Part(Want(s, (numblockscanfit * 32) % 0x1_0000, curidx),
             s.(markers := Mark(s.markers, curidx, curidx + numblockscanfit, WAITING)),
             (cursize + numblockscanfit * 32 - 10 + 15) % 0x1_0000)
      else NoRoom
  }

  /** The state of the packing: the slots, the fragments to ask for, the size so far. */
  datatype Packing = Packing(slots: seq<Slot>, frags: seq<Frag>, size: u16)

  /** pack_section's loop from its i-th turn on, over the slots from lo to hi. */
  function PackFrom(k: Packing, lo: nat, hi: nat, ids: seq<u16>, notComplete: nat, i: nat,
                    maxUdp: nat): (r: Result<Packing>)
    requires lo <= hi <= |k.slots|
    ensures r.Ok? ==> |r.value.slots| == |k.slots|
    decreases notComplete - i
  {
    if i >= notComplete || k.size >= maxUdp then Ok(k)
    else if i >= |ids| then Err(Uninitialised)
    else
      var j := FindSlot(k.slots[..hi], ids[i], lo);
      if j == hi then Err(AssertionFailed)
      else match AskFor(k.slots[j], k.size, maxUdp)
        case Nothing => PackFrom(k, lo, hi, ids, notComplete, i + 1, maxUdp)
        case All(f, s, size) =>
          PackFrom(Packing(k.slots[j := s], k.frags + [f], size), lo, hi, ids, notComplete, i + 1, maxUdp)
        case Part(f, s, size) => Ok(Packing(k.slots[j := s], k.frags + [f], size))
        case NoRoom => Ok(k)
  }

  function PackSection(k: Packing, pm: Partial, section: nat, maxUdp: nat): (r: Result<Packing>)
    requires pm.Shaped() && |k.slots| == |pm.slots| && section < 3
    ensures r.Ok? ==> |r.value.slots| == |k.slots|
  {
    var lo, hi := Start(pm, section), Start(pm, section + 1);
    PackFrom(k, lo, hi, IncompleteIds(pm.slots, lo, hi), NotComplete(pm.slots, lo, hi), 0, maxUdp)
  }

  function PackAll(pm: Partial, maxUdp: nat): (r: Result<Packing>)
    requires pm.Shaped()
    ensures r.Ok? ==> |r.value.slots| == |pm.slots|
  {
    var k0 :- PackSection(Packing(pm.slots, [], 12), pm, 0, maxUdp);
    var k1 :- PackSection(k0, pm, 1, maxUdp);
    PackSection(k1, pm, 2, maxUdp)
  }

  function AsRecords(fs: seq<Frag>): (ps: seq<PackedRR>)
    ensures |ps| == |fs|
    ensures forall i :: 0 <= i < |fs| ==> ps[i] == Fragment(fs[i])
  {
    seq(|fs|, i requires 0 <= i < |fs| => Fragment(fs[i]))
  }

  /** The follow-up query: one root question of type RRFRAG, and the fragments
      wanted in its additional section. */
  function RequestMessage(identification: u16, fs: seq<Frag>): Message {
    Message(identification, 0, [Question([], RRFRAG, 1)], [], [], AsRecords(fs))
  }

  // ----- The finished message

  function DefinedBytes(cells: seq<Cell>): (r: Option<seq<byte>>)
    ensures r.Some? <==> forall k :: 0 <= k < |cells| ==> cells[k].Def?
    ensures r.Some? ==> cells == Cells(r.value)
  {
    if exists k :: 0 <= k < |cells| && cells[k].Junk? then None
    else Some(seq(|cells|, k requires 0 <= k < |cells| && cells[k].Def? => cells[k].b))
  }

  function SlotToRecord(s: Slot): Result<PackedRR> {
    if s.rrsize > |s.bytes| then Err(OutOfBounds)
    else
      var bytes := DefinedBytes(s.bytes[..s.rrsize]);
      if bytes.None? then Err(Uninitialised)
      else
        var rr :- RecordFromBytes(bytes.value);
        Ok(Whole(rr.value))
  }

  function SlotsToRecords(slots: seq<Slot>): (r: Result<seq<PackedRR>>)
    ensures r.Ok? ==> |r.value| == |slots|
  {
    if slots == [] then Ok([])
    else
      var first :- SlotToRecord(slots[0]);
      var more :- SlotsToRecords(slots[1..]);
      Ok([first] + more)
  }

  /** partial_to_dnsmessage, and the QR bit that requester_thread adds. */
  function PartialToMessage(pm: Partial): Result<Message>
    requires pm.Shaped()
  {
    if !MessageComplete(pm) then Err(AssertionFailed)
    else
      var rs :- SlotsToRecords(pm.slots);
      Ok(Message(pm.identification, MarkResponse(pm.flags), pm.questions,
                 rs[..pm.ancount], rs[pm.ancount..pm.ancount + pm.nscount], rs[pm.ancount + pm.nscount..]))
  }
}
