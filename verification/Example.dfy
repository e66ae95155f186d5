/**
 Small cases: an exchange that meets the assumptions of the end-to-end theorem, a
 follow-up reply larger than the limit, and records advertised with length 0.
 */
module Example {
  import opened Wire
  import opened Names
  import opened Records
  import opened Messages
  import opened Reassembly
  import opened Requester
  import opened Responder
  import opened Shrinking
  import opened Progress
  import opened Delivery
  import opened Asking
  import opened Session
  import opened EndToEnd
  import opened Budget

  const ID: u16 := 5

  function Zeroes(n: nat): (s: seq<byte>)
    ensures |s| == n
  {
    seq(n, i => 0)
  }

  function TheRecord(): Record { ResourceRecord([DOT], [0], 1, 1, 0, Zeroes(64)) }

  function TheCache(): Cache { map[ID := TheRecord()] }

  function TheOriginal(): Message { Message(7, 0x8000, [], [Whole(TheRecord())], [], []) }

  /** The first of the three blocks of the record. */
  function FirstPiece(): Frag {
    Frag(32, 0, 75, ID, Some(RecordToBytes(TheRecord())[..32]))
  }

  function First(): Message { TheOriginal().(answers := [Fragment(FirstPiece())]) }

  lemma {:induction false} RecordIsSafe()
    ensures WireSafe(TheRecord()) && |RecordToBytes(TheRecord())| == 75
  {
    assert LiteralName(TheRecord(), []);
  }

  lemma {:induction false} PieceAdvertises()
    ensures Advertises(Fragment(FirstPiece()), TheRecord(), ID)
  {
    RecordIsSafe();
    hide RecordToBytes;
  }

  /** A message of one record, of which the first reply has a piece. */
  lemma {:induction false} OnePiece(form: Form, rr: Record, f: Frag, m: Message, first: Message)
    requires m == Message(7, 0x8000, [], [Whole(rr)], [], []) && first == m.(answers := [Fragment(f)])
    requires WireSafe(rr) && Advertises(Fragment(f), rr, ID) && f.fragsize > 0
    ensures Setup(form, map[ID := rr], m, [rr], [ID], first)
    ensures !EmptyFragment(form, Fragment(f)) && first.Records() == [Fragment(f)]
  {
    hide RecordToBytes, WireSafe, SentAs, PackedFits, ReceivedPacked;
    assert m.Records() == [Whole(rr)] && first.Records() == [Fragment(f)];
    assert Original(m, [rr]);
    assert Replaced(m, [rr], [ID], first);
  }

  /** A first reply with 32 of the 75 bytes of its record: the assumptions hold, and
      it can be completed in either form. */
  lemma {:induction false} AssumptionsCanBeMet(form: Form)
    ensures Setup(form, TheCache(), TheOriginal(), [TheRecord()], [ID], First()) && First().ContainsFrag()
    ensures AfterFirst(form, First()).Ok? && CanComplete(form, First(), AfterFirst(form, First()).value)
  {
    hide RecordToBytes, WireSafe, Advertises, Setup, Good, AfterFirst, MessageComplete;
    RecordIsSafe();
    PieceAdvertises();
    OnePiece(form, TheRecord(), FirstPiece(), TheOriginal(), First());
    hide TheRecord, FirstPiece;
    FirstReply(form, TheCache(), TheOriginal(), [TheRecord()], [ID], First());
    assert First().Records()[0].Fragment?;
  }

  // ----- A reply larger than the limit

  /** The slot after the first piece of a record of 75 bytes. */
  lemma {:induction false} FirstSlot(form: Form, record: seq<byte>, f: Frag) returns (s: Slot)
    requires |record| == 75 && f == Frag(32, 0, 75, ID, Some(record[..32]))
    ensures Absorb(form, NewSlot(ID), f) == Ok(s) && s.blocksReceived == 1 && |s.markers| == 3 && !s.complete
  {
    hide Absorb, CountRecvd, RecvdBytes, Assembled;
    assert f == Piece(record, ID, 0, 1);
    SlotStarts(form, record, ID, 1);
    s := Absorb(form, NewSlot(ID), f).value;
    RecvdRun(s.markers, 1, 0);
  }

  /** A new partial message from a reply with one fragment. */
  lemma {:induction false} CopyOne(form: Form, m: Message, f: Frag, s: Slot)
    requires m == Message(7, 0x8000, [], [Fragment(f)], [], []) && m.Sized() && f.Sized()
    requires Absorb(form, NewSlot(f.rrid), f) == Ok(s) && s.blocksReceived != |s.markers|
    ensures Begun(form, m).Ok? && Begun(form, m).value.slots == [s] && Begun(form, m).value.known
  {
    var pm := FirstPartial(m);
    assert m.Records() == [Fragment(f)] && pm.slots == [NewSlot(f.rrid)];
    BegunIs(form, m);
    hide Absorb, Begun, SlotsFor, CopySections;
    CopyToOnly(form, pm, f, s);
    CopyOnly(form, pm, m, pm.(slots := [s]));
  }

  lemma {:induction false} CopyToOnly(form: Form, pm: Partial, f: Frag, s: Slot)
    requires pm.Shaped() && pm.slots == [NewSlot(f.rrid)] && f.Sized()
    requires Absorb(form, NewSlot(f.rrid), f) == Ok(s) && s.blocksReceived != |s.markers|
    ensures CopyItem(form, pm, Fragment(f), 0) == Ok(pm.(slots := [s]))
  {
    hide Absorb;
    assert FindSlot(pm.slots, f.rrid) == 0;
    assert pm.slots[0 := s] == [s];
  }

  lemma {:induction false} CopyOnly(form: Form, pm: Partial, m: Message, pm': Partial)
    requires pm.Shaped() && pm'.Shaped() && m.Sized() && |m.answers| == 1 && m.authoritative == [] && m.additional == []
    requires CopyItem(form, pm, m.answers[0], 0) == Ok(pm')
    ensures CopySections(form, pm, m) == Ok(pm')
  {
    hide CopyItem;
    assert m.answers[1..] == [];
    assert CopySection(form, pm', [], 0) == Ok(pm');
  }

  /** The requester after the first reply: one block of three is there. */
  lemma {:induction false} AfterPiece(form: Form, cache: Cache, rr: Record, f: Frag, m: Message, first: Message)
    returns (pm: Partial)
    requires Setup(form, cache, m, [rr], [ID], first) && first == Message(7, 0x8000, [], [Fragment(f)], [], [])
    requires |RecordToBytes(rr)| == 75 && f == Frag(32, 0, 75, ID, Some(RecordToBytes(rr)[..32]))
    ensures first.Sized() && AfterFirst(form, first) == Ok(pm) && pm.Shaped() && pm.known
    ensures Good(form, pm, [rr], [ID], Zeros(1))
    ensures |pm.slots| == 1 && pm.slots[0].blocksReceived == 1 && !pm.slots[0].complete
  {
    hide RecordToBytes, Good, Transmit, Original, Replaced, Serves, Cast, CanComplete, Begun, MessageComplete, Absorb;
    FirstReply(form, cache, m, [rr], [ID], first);
    pm := AfterFirst(form, first).value;
    FirstArrives(m, [rr], [ID], first);
    var s := FirstSlot(form, RecordToBytes(rr), f);
    ReceivedAsIs(first, f);
    CopyOne(form, first, f, s);
  }

  lemma {:induction false} ReceivedAsIs(first: Message, f: Frag)
    requires first == Message(7, 0x8000, [], [Fragment(f)], [], []) && f.Sized() && f.data.Some?
    ensures first.Sized() && ReceivedMessage(first) == first
  {
    assert ReceivedSection(first.answers, false) == first.answers;
    assert ReceivedSection([], false) == [];
  }

  /** With a limit of 44 bytes the first request after that asks for one block, and
      its reply has 59 bytes. */
  lemma {:induction false} ReplyHas59Bytes(form: Form, cache: Cache, rr: Record, f: Frag, m: Message, first: Message)
    returns (pm: Partial, k: Packing, reply: Message)
    requires Setup(form, cache, m, [rr], [ID], first) && first == Message(7, 0x8000, [], [Fragment(f)], [], [])
    requires |RecordToBytes(rr)| == 75 && f == Frag(32, 0, 75, ID, Some(RecordToBytes(rr)[..32]))
    ensures first.Sized() && AfterFirst(form, first) == Ok(pm) && pm.Shaped() && PackAll(pm, 44) == Ok(k)
    ensures AllBare(k.frags) && SendRequest(7, k.frags).Ok?
    ensures Answer(cache, SendRequest(7, k.frags).value) == Ok(reply) && reply.Sized()
    ensures MessageToBytes(reply).Ok? && |MessageToBytes(reply).value| == 59
  {
    hide Original, Replaced, AfterFirst, Good, Serves, SendRequest, Answer, MessageToBytes, PackAll, RecordToBytes,
         PackedSoFar, Plan, WireCost, MessageComplete;
    pm := AfterPiece(form, cache, rr, f, m, first);
    k, reply := ReplySize(form, cache, pm, [rr], [ID], 7, 44);
    var k', ws, idx, fs := RequestPlan(form, pm, [rr], [ID], 44);
    PackedFacts(form, pm.slots, k, [rr], [ID], ws, idx, fs, 44);
    OneBlock(k, [rr], ws, idx, fs);
  }

  /** Of two missing blocks, 32 and 11 bytes, only the first fits. */
  lemma {:induction false} OneBlock(k: Packing, recs: seq<Record>, ws: seq<nat>, idx: seq<nat>, fs: seq<Frag>)
    requires |recs| == 1 && |RecordToBytes(recs[0])| == 75 && Cast(recs, [ID]) && Plan(k.slots, recs, [ID], ws, idx, fs)
    requires k.slots[0].blocksReceived == 1 && fs != [] && k.frags == Bare(fs) && 12 + Cost(fs) <= 49
    ensures |fs| == 1 && Cost(fs) == 37
  {
    hide RecordToBytes;
    assert idx[0] == 0;
    assert |idx| == 1;
    assert PieceOk(k.slots, recs, ws, 0) && fs[0] == Awaited(k.slots, recs, [ID], ws, 0);
    assert Cost(fs) == Cost(fs[..0]) + fs[0].fragsize + 5;
  }

  /** A reply of 59 bytes where 44 are the limit, in a state that the requester
      reaches. */
  lemma {:induction false} ReplyExceedsLimit(form: Form)
    returns (first: Message, cache: Cache, pm: Partial, k: Packing, reply: Message)
    ensures first == First() && cache == TheCache() && Setup(form, cache, TheOriginal(), [TheRecord()], [ID], first)
    ensures first.Sized() && AfterFirst(form, first) == Ok(pm) && pm.Shaped() && PackAll(pm, 44) == Ok(k)
    ensures AllBare(k.frags) && SendRequest(7, k.frags).Ok?
    ensures Answer(cache, SendRequest(7, k.frags).value) == Ok(reply) && reply.Sized()
    ensures MessageToBytes(reply).Ok? && |MessageToBytes(reply).value| == 59
  {
    hide Setup, AfterFirst, SendRequest, Answer, MessageToBytes, PackAll, RecordToBytes, TheRecord, MessageComplete,
         CanComplete;
    AssumptionsCanBeMet(form);
    RecordIsSafe();
    first, cache := First(), TheCache();
    pm, k, reply := ReplyHas59Bytes(form, cache, TheRecord(), FirstPiece(), TheOriginal(), first);
  }

  // ----- Records advertised with length 0

  /** A message of one record that has to be cut, and for which there is no room. */
  lemma {:induction false} CutToNothing(cache: Cache, rr: Record, id: u16, cur: nat, limit: nat)
    requires id in cache && cache[id] == rr && id != 0
    requires 0 < |rr.rdata| && |rr.nameBytes| <= cur < 0x7fff_0000 && cur - |rr.rdata| < limit < cur
    requires RoomFor(rr, cur, limit) == 0
    ensures Shrink(cache, limit, Shrunk([Whole(rr)], [id], cur))
            == Ok(Shrunk([Fragment(Frag(0, 0, 0, id, None))], [0], cur - |RecordToBytes(rr)| + 15))
  {
    var k := Shrunk([Whole(rr)], [id], cur);
    assert Largest(cache, k.rrids, 0) == None;
    assert Largest(cache, k.rrids, 1) == Some(0);
    var f := LastFrag(rr, id, 0);
    assert f == Frag(0, 0, 0, id, None) && |FragToBytes(f)| == 15;
    assert Cut(cache, limit, k, 0) == Shrunk([Fragment(f)], [0], cur - |RecordToBytes(rr)| + 15);
    hide RecordToBytes, FragToBytes, LastFrag, Largest, RoomFor, Cut;
    ShrinkStep(cache, limit, k, 0);
  }

  /** Too little room: a message of 33 bytes, one record with ten bytes of data, has
      to fit 25 bytes. Its fragment takes 27, and says that the record has length 0. */
  lemma {:induction false} ZeroLengthAdvertised(cache: Cache, rr: Record, id: u16)
    requires id in cache && cache[id] == rr && id != 0 && rr.nameBytes == [0] && |rr.rdata| == 10
    ensures Shrink(cache, 25, Shrunk([Whole(rr)], [id], 33))
            == Ok(Shrunk([Fragment(Frag(0, 0, 0, id, None))], [0], 27))
  {
    assert RoomFor(rr, 33, 25) == 0;
    CutToNothing(cache, rr, id, 33, 25);
  }

  /** Room enough, but a long name: of a message of 152 bytes two are too many, and
      the record with 100 bytes of name and 30 of data goes out as 15 bytes that say
      that it has length 0. */
  lemma {:induction false} LongNameAdvertisesNothing(cache: Cache, rr: Record, id: u16)
    requires id in cache && cache[id] == rr && id != 0 && |rr.nameBytes| == 100 && |rr.rdata| == 30
    ensures Shrink(cache, 150, Shrunk([Whole(rr)], [id], 152))
            == Ok(Shrunk([Fragment(Frag(0, 0, 0, id, None))], [0], 27))
  {
    assert RoomFor(rr, 152, 150) == 0;
    CutToNothing(cache, rr, id, 152, 150);
  }

  /** An ordinary record, a compressed name of two bytes and four bytes of data: it
      is advertised with length 0 whenever it has to be cut. */
  lemma {:induction false} AddressesAreLost(cache: Cache, rr: Record, id: u16, cur: nat, limit: nat)
    requires id in cache && cache[id] == rr && id != 0 && |rr.nameBytes| == 2 && |rr.rdata| == 4
    requires 2 <= cur < 0x7fff_0000 && cur - 4 < limit < cur
    ensures Shrink(cache, limit, Shrunk([Whole(rr)], [id], cur))
            == Ok(Shrunk([Fragment(Frag(0, 0, 0, id, None))], [0], cur - 1))
  {
    assert RoomFor(rr, cur, limit) == 0 && |RecordToBytes(rr)| == 16;
    CutToNothing(cache, rr, id, cur, limit);
  }

  /** Of 1000 bytes of data behind a name of 20, in a message 80 bytes too large, there is
      room for 935, and 29 blocks, 928 bytes, are kept. */
  lemma {:induction false} CutKeepsBlocks(cache: Cache, rr: Record, id: u16)
    requires id in cache && cache[id] == rr && id != 0 && |rr.nameBytes| == 20 && |rr.rdata| == 1000
    ensures var data := RecordToBytes(rr)[..928];
      Shrink(cache, 1220, Shrunk([Whole(rr)], [id], 1300))
      == Ok(Shrunk([Fragment(Frag(928, 0, 1030, id, Some(data)))], [0], 1213))
  {
    var k := Shrunk([Whole(rr)], [id], 1300);
    assert Largest(cache, k.rrids, 0) == None;
    assert Largest(cache, k.rrids, 1) == Some(0);
    assert RoomFor(rr, 1300, 1220) == 935 && |RecordToBytes(rr)| == 1030;
    var f := LastFrag(rr, id, 935);
    assert f == Frag(928, 0, 1030, id, Some(RecordToBytes(rr)[..928])) && |FragToBytes(f)| == 943;
    assert Cut(cache, 1220, k, 0) == Shrunk([Fragment(f)], [0], 1213);
    hide RecordToBytes, FragToBytes, LastFrag, Largest, RoomFor, Cut;
    ShrinkStep(cache, 1220, k, 0);
  }
}
