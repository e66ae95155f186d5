/** Resource records, RRFRAG pseudo-records, and the slot that holds either:
    resource_record.c, rrfrag.c and packedrr.c. */
module Records {
  import opened Wire
  import opened Names

  datatype ResourceRecord = ResourceRecord(
    name: seq<byte>,       // text for people
    nameBytes: seq<byte>,  // the name as it was on the wire
    typ: u16, clas: u16, ttl: u32,
    rdata: seq<byte>)      // rdsize is |rdata|
  {
    predicate Sized() { |rdata| < 0x1_0000 }
  }

  /** `data` is None where the C structure holds a null pointer. */
  datatype Frag = Frag(fragsize: u16, curidx: u32, rrsize: u32, rrid: u16, data: Option<seq<byte>>) {
    predicate Sized() { data.Some? ==> |data.value| == fragsize }
  }

  datatype PackedRR = Whole(rr: ResourceRecord) | Fragment(frag: Frag) {
    predicate Sized() {
      match this
      case Whole(rr) => rr.Sized()
      case Fragment(f) => f.Sized()
    }
  }

  // ----- Resource records

  function FieldBytes(rr: ResourceRecord): (s: seq<byte>)
    requires rr.Sized()
    ensures |s| == 10 + |rr.rdata|
  {
    Put16(rr.typ) + (Put16(rr.clas) + (Put32(rr.ttl) + (Put16(|rr.rdata|) + rr.rdata)))
  }

  function RecordToBytes(rr: ResourceRecord): (s: seq<byte>)
    requires rr.Sized()
    ensures |s| == |rr.nameBytes| + 10 + |rr.rdata|
  {
    rr.nameBytes + FieldBytes(rr)
  }

  /** resource_record_to_bytes */
  method ResourceRecordToBytes(rr: ResourceRecord) returns (out: seq<byte>)
    requires rr.Sized()
    ensures out == RecordToBytes(rr)
  {
    hide Put16, Put32;
    var bytes := new byte[|rr.nameBytes| + 2 + 2 + 4 + 2 + |rr.rdata|];
    var curPos := Emit(bytes, 0, rr.nameBytes);
    curPos := Emit(bytes, curPos, Put16(rr.typ));
    curPos := Emit(bytes, curPos, Put16(rr.clas));
    curPos := Emit(bytes, curPos, Put32(rr.ttl));
    curPos := Emit(bytes, curPos, Put16(|rr.rdata|));
    if |rr.rdata| != 0 {
      curPos := Emit(bytes, curPos, rr.rdata);
    }
    assert bytes[..curPos] == RecordToBytes(rr);
    return bytes[..curPos];
  }

  /** Everything behind the name. */
  function FieldsFromBytes(s: seq<byte>, name: seq<byte>, at: nat): Result<Parsed<ResourceRecord>>
    requires at <= |s|
  {
    if at + 2 > |s| then Err(OutOfBounds)
    else if Get16(s, at) == RRFRAG then Err(IsFragment)
    else if at + 10 > |s| then Err(OutOfBounds)
    else
      var rdsize := Get16(s, at + 8);
      if rdsize > |s| - (at + 10) then Err(RdataTooLong)
      else Ok(Parsed(
        ResourceRecord(name, s[..at], Get16(s, at), Get16(s, at + 2), Get32(s, at + 4),
                       s[at + 10..at + 10 + rdsize]),
        at + 10 + rdsize))
  }

  function RecordFromBytes(s: seq<byte>): Result<Parsed<ResourceRecord>> {
    var z := FirstZero(s);
    if z == |s| then Err(OutOfBounds)
    else
      var name :- NameFromBytes(s, z + 1);
      if name.used > |s| then Err(OutOfBounds)
      else FieldsFromBytes(s, name.value, name.used)
  }

  /** resource_record_from_bytes, on exactly the `s` bytes it was given. */
  method ResourceRecordFromBytes(s: seq<byte>) returns (r: Result<Parsed<ResourceRecord>>)
    ensures r == RecordFromBytes(s)
  {
    var nameByteLen := ScanToZero(s);
    if nameByteLen == |s| {
      return Err(OutOfBounds);
    }
    nameByteLen := nameByteLen + 1;
    var name := DnsNameFromBytes(s, nameByteLen);
    if name.Err? {
      return Err(name.error);
    }
    var bytesProcessed := name.value.used;
    if bytesProcessed > |s| {
      return Err(OutOfBounds);
    }
    var nameBytes := s[..bytesProcessed];
    var curPos, inLen := bytesProcessed, |s| - bytesProcessed;
    if inLen < 2 {
      return Err(OutOfBounds);
    }
    var typ := Get16(s, curPos);
    if typ == RRFRAG {
      return Err(IsFragment);
    }
    curPos, inLen, bytesProcessed := curPos + 2, inLen - 2, bytesProcessed + 2;
    if inLen < 8 {
      return Err(OutOfBounds);
    }
    var clas := Get16(s, curPos);
    curPos, inLen, bytesProcessed := curPos + 2, inLen - 2, bytesProcessed + 2;
    var ttl := Get32(s, curPos);
    curPos, inLen, bytesProcessed := curPos + 4, inLen - 4, bytesProcessed + 4;
    var rdsize := Get16(s, curPos);
    curPos, inLen, bytesProcessed := curPos + 2, inLen - 2, bytesProcessed + 2;
    if rdsize > inLen {
      return Err(RdataTooLong);
    }
    var rdata := s[curPos..curPos + rdsize];
    bytesProcessed := bytesProcessed + rdsize;
    return Ok(Parsed(ResourceRecord(name.value.value, nameBytes, typ, clas, ttl, rdata), bytesProcessed));
  }

  // ----- Fragments

  function FragToBytes(f: Frag): (s: seq<byte>)
    requires f.Sized()
    ensures |s| == 15 + if f.data.Some? then f.fragsize else 0
  {
    [0] + (Put16(RRFRAG) + (Put16(f.fragsize) + (Put32(f.curidx) + (Put32(f.rrsize) + (Put16(f.rrid) +
    if f.data.Some? then f.data.value else [])))))
  }

  lemma {:induction false} GroupSeven<T>(a: seq<T>, b: seq<T>, c: seq<T>, d: seq<T>, e: seq<T>, f: seq<T>, g: seq<T>)
    ensures [] + a + b + c + d + e + f + g == a + (b + (c + (d + (e + (f + g)))))
    ensures g == [] ==> [] + a + b + c + d + e + f == a + (b + (c + (d + (e + (f + g)))))
  {
  }

  /** rrfrag_to_bytes */
  method RRFragToBytes(f: Frag) returns (out: seq<byte>)
    requires f.Sized()
    ensures out == FragToBytes(f)
  {
    hide Put16, Put32;
    var bytes := new byte[1 + 2 + 2 + 4 + 4 + 2 + if f.data.Some? then f.fragsize else 0];
    var curPos := Emit(bytes, 0, [0]);
    curPos := Emit(bytes, curPos, Put16(RRFRAG));
    curPos := Emit(bytes, curPos, Put16(f.fragsize));
    curPos := Emit(bytes, curPos, Put32(f.curidx));
    curPos := Emit(bytes, curPos, Put32(f.rrsize));
    curPos := Emit(bytes, curPos, Put16(f.rrid));
    if f.data.Some? {
      curPos := Emit(bytes, curPos, f.data.value);
    }
    GroupSeven([0], Put16(RRFRAG), Put16(f.fragsize), Put32(f.curidx), Put32(f.rrsize), Put16(f.rrid),
               if f.data.Some? then f.data.value else []);
    return bytes[..curPos];
  }

  function FragFromBytes(s: seq<byte>, query: bool): Result<Parsed<Frag>> {
    var z := FirstZero(s);
    if z == |s| then Err(OutOfBounds)
    else if z != 0 then Err(AssertionFailed)
    else if |s| < 3 then Err(OutOfBounds)
    else if Get16(s, 1) != RRFRAG then Err(NotFragment)
    else if |s| < 15 then Err(OutOfBounds)
    else
      var fragsize := Get16(s, 3);
      if query then
        Ok(Parsed(Frag(fragsize, Get32(s, 5), Get32(s, 9), Get16(s, 13), None), 15))
      else if 15 + fragsize > |s| then Err(OutOfBounds)
      else
        Ok(Parsed(Frag(fragsize, Get32(s, 5), Get32(s, 9), Get16(s, 13), Some(s[15..15 + fragsize])), 15 + fragsize))
  }

  /** rrfrag_from_bytes */
  method RRFragFromBytes(s: seq<byte>, query: bool) returns (r: Result<Parsed<Frag>>)
    ensures r == FragFromBytes(s, query)
  {
    var nameByteLen := ScanToZero(s);
    if nameByteLen == |s| {
      return Err(OutOfBounds);
    }
    nameByteLen := nameByteLen + 1;
    if nameByteLen != 1 {
      return Err(AssertionFailed);
    }
    var curPos: nat := 1;
    if |s| < curPos + 2 {
      return Err(OutOfBounds);
    }
    if Get16(s, curPos) != RRFRAG {
      return Err(NotFragment);
    }
    curPos := curPos + 2;
    if |s| < curPos + 12 {
      return Err(OutOfBounds);
    }
    var fragsize := Get16(s, curPos);
    curPos := curPos + 2;
    var curidx := Get32(s, curPos);
    curPos := curPos + 4;
    var rrsize := Get32(s, curPos);
    curPos := curPos + 4;
    var rrid := Get16(s, curPos);
    curPos := curPos + 2;
    if query {
      return Ok(Parsed(Frag(fragsize, curidx, rrsize, rrid, None), curPos));
    }
    if |s| < curPos + fragsize {
      return Err(OutOfBounds);
    }
    return Ok(Parsed(Frag(fragsize, curidx, rrsize, rrid, Some(s[curPos..curPos + fragsize])), curPos + fragsize));
  }

  /** is_rrfrag looks at the two bytes behind the first zero, whatever they are. */
  function LooksLikeFrag(s: seq<byte>): Result<bool> {
    var z := FirstZero(s);
    if z + 3 > |s| then Err(OutOfBounds) else Ok(Get16(s, z + 1) == RRFRAG)
  }

  method IsRRFrag(s: seq<byte>) returns (r: Result<bool>)
    ensures r == LooksLikeFrag(s)
  {
    var i := ScanToZero(s);
    i := i + 1;
    if i + 2 > |s| {
      return Err(OutOfBounds);
    }
    return Ok(Get16(s, i) == RRFRAG);
  }

  // ----- Either kind

  function PackedToBytes(p: PackedRR): (s: seq<byte>)
    requires p.Sized()
  {
    match p
    case Whole(rr) => RecordToBytes(rr)
    case Fragment(f) => FragToBytes(f)
  }

  function PackedFromBytes(s: seq<byte>, query: bool): Result<Parsed<PackedRR>> {
    var isFrag :- LooksLikeFrag(s);
    if isFrag then
      var f :- FragFromBytes(s, query);
      Ok(Parsed(Fragment(f.value), f.used))
    else
      var rr :- RecordFromBytes(s);
      Ok(Parsed(Whole(rr.value), rr.used))
  }

  method PackedRRToBytes(p: PackedRR) returns (out: seq<byte>)
    requires p.Sized()
    ensures out == PackedToBytes(p)
  {
    match p
    case Whole(rr) => out := ResourceRecordToBytes(rr);
    case Fragment(f) => out := RRFragToBytes(f);
  }

  method PackedRRFromBytes(s: seq<byte>, query: bool) returns (r: Result<Parsed<PackedRR>>)
    ensures r == PackedFromBytes(s, query)
  {
    var isFrag := IsRRFrag(s);
    if isFrag.Err? {
      return Err(isFrag.error);
    }
    if isFrag.value {
      var f := RRFragFromBytes(s, query);
      return if f.Err? then Err(f.error) else Ok(Parsed(Fragment(f.value.value), f.value.used));
    }
    var rr := ResourceRecordFromBytes(s);
    return if rr.Err? then Err(rr.error) else Ok(Parsed(Whole(rr.value.value), rr.value.used));
  }

  // ----- What decoding an encoding gives

  /** The record carries a name spelled out in full. */
  ghost predicate LiteralName(rr: ResourceRecord, ls: seq<Label>) {
    ValidLabels(ls) && rr.nameBytes == WireName(ls) && rr.name == Dotted(ls)
  }

  /** The record carries labels (possibly none) and a compression pointer. */
  ghost predicate CompressedName(rr: ResourceRecord, ls: seq<Label>, hi: byte, lo: byte) {
    && ValidLabels(ls) && hi >= 192 && lo != 0
    && rr.nameBytes == LabelBytes(ls) + [hi, lo] && rr.name == PLACEHOLDER
  }

  /** The records that survive the wire, in a form a caller can check. */
  ghost predicate WireSafe(rr: ResourceRecord) {
    && rr.Sized()
    && rr.typ != RRFRAG
    && (|| (exists ls :: LiteralName(rr, ls))
        || ((exists ls, hi, lo :: CompressedName(rr, ls, hi, lo)) && 0 < rr.typ < 0x100))
  }

  /** Decoding the fields of an encoded record, whatever follows them. */
  lemma {:induction false} FieldsDecode(s: seq<byte>, rr: ResourceRecord)
    requires rr.Sized() && At(s, 0, RecordToBytes(rr))
    ensures FieldsFromBytes(s, rr.name, |rr.nameBytes|)
            == if rr.typ == RRFRAG then Err(IsFragment) else Ok(Parsed(rr, |RecordToBytes(rr)|))
  {
    var n := |rr.nameBytes|;
    AtSplit(s, 0, rr.nameBytes, FieldBytes(rr));
    FieldsAt(s, n, rr);
  }

  lemma {:induction false} FieldsAt(s: seq<byte>, n: nat, rr: ResourceRecord)
    requires rr.Sized() && At(s, n, FieldBytes(rr))
    ensures n + 10 + |rr.rdata| <= |s|
    ensures Get16(s, n) == rr.typ && Get16(s, n + 2) == rr.clas && Get32(s, n + 4) == rr.ttl
    ensures Get16(s, n + 8) == |rr.rdata| && s[n + 10..n + 10 + |rr.rdata|] == rr.rdata
  {
    hide Put16, Put32, Get16, Get32;
    AtSplit(s, n, Put16(rr.typ), Put16(rr.clas) + (Put32(rr.ttl) + (Put16(|rr.rdata|) + rr.rdata)));
    AtSplit(s, n + 2, Put16(rr.clas), Put32(rr.ttl) + (Put16(|rr.rdata|) + rr.rdata));
    AtSplit(s, n + 4, Put32(rr.ttl), Put16(|rr.rdata|) + rr.rdata);
    AtSplit(s, n + 8, Put16(|rr.rdata|), rr.rdata);
    AtGet16(s, n, rr.typ);
    AtGet16(s, n + 2, rr.clas);
    AtGet32(s, n + 4, rr.ttl);
    AtGet16(s, n + 8, |rr.rdata|);
  }

  /** A record with a literal name is read back, from exactly its own bytes and
      with its own name bytes, if and only if its type is not the RRFRAG type;
      and the dispatch takes it for a fragment only in that case. */
  lemma {:induction false} LiteralRecordRoundTrip(rr: ResourceRecord, ls: seq<Label>, rest: seq<byte>)
    requires rr.Sized() && LiteralName(rr, ls)
    ensures var s := RecordToBytes(rr) + rest;
      && (RecordFromBytes(s) == Ok(Parsed(rr, |RecordToBytes(rr)|)) <==> rr.typ != RRFRAG)
      && LooksLikeFrag(s) == Ok(rr.typ == RRFRAG)
  {
    hide RecordFromBytes, FieldsFromBytes, NameFromBytes, FirstZero, FieldBytes, Put16, Put32, WireName, Dotted;
    var s := RecordToBytes(rr) + rest;
    AtFront(RecordToBytes(rr), rest);
    FieldsDecode(s, rr);
    Assoc(rr.nameBytes, FieldBytes(rr), rest);
    LiteralNameDecodes(ls, FieldBytes(rr) + rest);
    AtSplit(s, 0, rr.nameBytes, FieldBytes(rr));
    FieldsAt(s, |rr.nameBytes|, rr);
    RecordFollowsName(s, rr, |RecordToBytes(rr)|);
  }

  /** A record with a compressed name is read back if and only if its type fits
      in one byte and is not the RRFRAG type. */
  lemma {:induction false} CompressedRecordRoundTrip(rr: ResourceRecord, ls: seq<Label>, hi: byte, lo: byte,
                                                     rest: seq<byte>)
    requires rr.Sized() && CompressedName(rr, ls, hi, lo)
    requires 0 in RecordToBytes(rr) + rest
    ensures var s := RecordToBytes(rr) + rest;
      RecordFromBytes(s) == Ok(Parsed(rr, |RecordToBytes(rr)|)) <==> rr.typ < 0x100 && rr.typ != RRFRAG
  {
    hide RecordFromBytes, FieldsFromBytes, NameFromBytes, FirstZero, FieldBytes, Get16, Put16, Put32;
    var s, n := RecordToBytes(rr) + rest, |rr.nameBytes|;
    AtFront(RecordToBytes(rr), rest);
    FieldsDecode(s, rr);
    AtSplit(s, 0, rr.nameBytes, FieldBytes(rr));
    FieldsAt(s, n, rr);
    TypeHighByte(s, n, rr.typ);
    CompressedNameDecodes(ls, hi, lo, s);
    RecordFollowsName(s, rr, |RecordToBytes(rr)|);
  }

  lemma {:induction false} RecordFollowsName(s: seq<byte>, rr: ResourceRecord, used: nat)
    requires FirstZero(s) < |s|
    ensures var name := NameFromBytes(s, FirstZero(s) + 1);
      && (RecordFromBytes(s) == Ok(Parsed(rr, used)) ==>
            name.Ok? && name.value.used <= |s| && rr.nameBytes == s[..name.value.used])
      && (name.Ok? && name.value.used <= |s| ==>
            RecordFromBytes(s) == FieldsFromBytes(s, name.value.value, name.value.used))
  {
  }

  lemma {:induction false} TypeHighByte(s: seq<byte>, n: nat, typ: u16)
    requires n + 2 <= |s| && Get16(s, n) == typ
    ensures s[n] == 0 <==> typ < 0x100
    ensures s[n] == 0 ==> s[n + 1] as int == typ
  {
  }

  /** For a compressed name the dispatch looks into the middle of the type and
      class fields. It rejects every record whose type is from 1 to 255, and it
      takes a record of type 0 for a fragment exactly when its class starts with
      the byte 108. */
  lemma {:induction false} CompressedRecordDispatch(rr: ResourceRecord, ls: seq<Label>, hi: byte, lo: byte,
                                                    rest: seq<byte>)
    requires rr.Sized() && CompressedName(rr, ls, hi, lo) && rr.typ < 0x100
    ensures LooksLikeFrag(RecordToBytes(rr) + rest) == Ok(rr.typ == 0 && rr.clas / 0x100 == RRFRAG)
  {
    var s, n := RecordToBytes(rr) + rest, |rr.nameBytes|;
    AtFront(RecordToBytes(rr), rest);
    AtSplit(s, 0, rr.nameBytes, FieldBytes(rr));
    FieldsAt(s, n, rr);
    TypeHighByte(s, n, rr.typ);
    FirstZeroBound(s, n);
    CompressedNameDecodes(ls, hi, lo, s);
    MiddleOfFields(s, n, rr.clas);
  }

  lemma {:induction false} FirstZeroBound(s: seq<byte>, n: nat)
    requires n < |s| && s[n] == 0
    ensures FirstZero(s) <= n
  {
  }

  lemma {:induction false} MiddleOfFields(s: seq<byte>, n: nat, clas: u16)
    requires n + 4 <= |s| && Get16(s, n + 2) == clas
    ensures Get16(s, n + 1) == RRFRAG <==> s[n + 1] == 0 && clas / 0x100 == RRFRAG
  {
  }

  /** What fragments look like after the wire: a query never carries data, and a
      response always carries a (possibly empty) buffer. */
  function Received(f: Frag, query: bool): Frag
    requires f.Sized()
  {
    if query then f.(data := None)
    else if f.data.None? then f.(data := Some([])) else f
  }

  /** The fragments that a message can carry: data in responses, none in queries,
      and a null pointer in a response only when there is nothing to carry. */
  predicate FragFits(f: Frag, query: bool) {
    && f.Sized()
    && (query ==> f.data.None?)
    && (!query && f.data.None? ==> f.fragsize == 0)
  }

  lemma {:induction false} FragRoundTrip(f: Frag, query: bool, rest: seq<byte>)
    requires FragFits(f, query)
    ensures var s := FragToBytes(f) + rest;
      && LooksLikeFrag(s) == Ok(true)
      && FragFromBytes(s, query) == Ok(Parsed(Received(f, query), |FragToBytes(f)|))
  {
    hide FragToBytes, Get16, Get32;
    var s := FragToBytes(f) + rest;
    AtFront(FragToBytes(f), rest);
    FragSize(f);
    FragFieldsAt(s, f);
    FirstZeroIs(s, 0);
    FragOfFields(s, f, query);
  }

  lemma {:induction false} FragSize(f: Frag)
    requires f.Sized()
    ensures |FragToBytes(f)| == 15 + if f.data.Some? then f.fragsize else 0
  {
  }

  lemma {:induction false} FragOfFields(s: seq<byte>, f: Frag, query: bool)
    requires FragFits(f, query) && |s| >= 15 + (if f.data.Some? then f.fragsize else 0) && FirstZero(s) == 0
    requires Get16(s, 1) == RRFRAG && Get16(s, 3) == f.fragsize
    requires Get32(s, 5) == f.curidx && Get32(s, 9) == f.rrsize && Get16(s, 13) == f.rrid
    requires f.data.Some? ==> s[15..15 + f.fragsize] == f.data.value
    ensures FragFromBytes(s, query) == Ok(Parsed(Received(f, query), 15 + if f.data.Some? then f.fragsize else 0))
  {
    hide Get16, Get32, FirstZero;
    assert f.data.None? && !query ==> s[15..15] == [];
  }

  lemma {:induction false} FragFieldsAt(s: seq<byte>, f: Frag)
    requires f.Sized() && At(s, 0, FragToBytes(f))
    ensures |s| >= 15 + if f.data.Some? then f.fragsize else 0
    ensures s[0] == 0 && Get16(s, 1) == RRFRAG && Get16(s, 3) == f.fragsize
    ensures Get32(s, 5) == f.curidx && Get32(s, 9) == f.rrsize && Get16(s, 13) == f.rrid
    ensures f.data.Some? ==> s[15..15 + f.fragsize] == f.data.value
  {
    var d := if f.data.Some? then f.data.value else [];
    var rest := Put32(f.curidx) + (Put32(f.rrsize) + (Put16(f.rrid) + d));
    assert FragToBytes(f) == [0] + (Put16(RRFRAG) + (Put16(f.fragsize) + rest));
    hide Put16, Put32, Get16, Get32, FragToBytes;
    AtSplit(s, 0, [0], Put16(RRFRAG) + (Put16(f.fragsize) + rest));
    AtSplit(s, 1, Put16(RRFRAG), Put16(f.fragsize) + rest);
    AtSplit(s, 3, Put16(f.fragsize), rest);
    AtIndex(s, 0, [0], 0);
    AtGet16(s, 1, RRFRAG);
    AtGet16(s, 3, f.fragsize);
    hide At;
    FragTailAt(s, f.curidx, f.rrsize, f.rrid, d);
  }

  lemma {:induction false} FragTailAt(s: seq<byte>, curidx: u32, rrsize: u32, rrid: u16, d: seq<byte>)
    requires At(s, 5, Put32(curidx) + (Put32(rrsize) + (Put16(rrid) + d)))
    ensures |s| >= 15 + |d| && s[15..15 + |d|] == d
    ensures Get32(s, 5) == curidx && Get32(s, 9) == rrsize && Get16(s, 13) == rrid
  {
    hide Put16, Put32, Get16, Get32;
    AtSplit(s, 5, Put32(curidx), Put32(rrsize) + (Put16(rrid) + d));
    AtSplit(s, 9, Put32(rrsize), Put16(rrid) + d);
    AtSplit(s, 13, Put16(rrid), d);
    AtGet32(s, 5, curidx);
    AtGet32(s, 9, rrsize);
    AtGet16(s, 13, rrid);
  }

  ghost predicate PackedFits(p: PackedRR, query: bool) {
    match p
    case Whole(rr) => WireSafe(rr)
    case Fragment(f) => FragFits(f, query)
  }

  function ReceivedPacked(p: PackedRR, query: bool): PackedRR
    requires p.Sized()
  {
    match p
    case Whole(rr) => p
    case Fragment(f) => Fragment(Received(f, query))
  }

  lemma {:induction false} RecordRoundTrip(rr: ResourceRecord, rest: seq<byte>)
    requires WireSafe(rr)
    ensures var s := RecordToBytes(rr) + rest;
      && LooksLikeFrag(s) == Ok(false)
      && RecordFromBytes(s) == Ok(Parsed(rr, |RecordToBytes(rr)|))
  {
    if ls :| LiteralName(rr, ls) {
      LiteralRecordRoundTrip(rr, ls, rest);
    } else {
      var ls, hi, lo :| CompressedName(rr, ls, hi, lo);
      CompressedRecordDispatch(rr, ls, hi, lo, rest);
      var s := RecordToBytes(rr) + rest;
      assert s[FirstZero(s)] == 0;
      CompressedRecordRoundTrip(rr, ls, hi, lo, rest);
    }
  }

  /** Records and fragments share a section and nothing on the wire separates
      them: each decodes to itself, from exactly its own bytes, whatever follows. */
  lemma {:induction false} PackedRoundTrip(p: PackedRR, query: bool, rest: seq<byte>)
    requires PackedFits(p, query)
    ensures p.Sized()
    ensures PackedFromBytes(PackedToBytes(p) + rest, query)
            == Ok(Parsed(ReceivedPacked(p, query), |PackedToBytes(p)|))
  {
    match p
    case Whole(rr) => RecordRoundTrip(rr, rest);
    case Fragment(f) => FragRoundTrip(f, query, rest);
  }
}
