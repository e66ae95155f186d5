/** insert_into_state_and_construct_map as the loops that it is, over a message
    whose sections are rewritten in place; proved against `Shrinking`. */
module ResponderLoops {
  import opened Wire
  import opened Records
  import opened Messages
  import opened MessageBuffers
  import opened Responder
  import opened Shrinking

  /** DNSMessage, as far as the responder changes it. */
  class Sections {
    const answers: array<PackedRR>
    const authoritative: array<PackedRR>
    const additional: array<PackedRR>

    ghost predicate Valid()
      reads this
    {
      answers != authoritative && answers != additional && authoritative != additional
    }

    ghost function Records(): seq<PackedRR>
      reads answers, authoritative, additional
    {
      answers[..] + authoritative[..] + additional[..]
    }

    constructor (m: Message)
      ensures Valid() && fresh(answers) && fresh(authoritative) && fresh(additional)
      ensures answers[..] == m.answers && authoritative[..] == m.authoritative && additional[..] == m.additional
    {
      answers := new PackedRR[|m.answers|](i requires 0 <= i < |m.answers| => m.answers[i]);
      authoritative := new PackedRR[|m.authoritative|](i requires 0 <= i < |m.authoritative| => m.authoritative[i]);
      additional := new PackedRR[|m.additional|](i requires 0 <= i < |m.additional| => m.additional[i]);
    }

    /** insert_rrfrag: the i-th record of the message becomes a fragment. */
    method InsertRRFrag(i: nat, f: Frag)
      requires Valid()
      modifies answers, authoritative, additional
      ensures Records() == if i < |old(Records())| then old(Records())[i := Fragment(f)] else old(Records())
    {
      var an, ns := answers.Length, authoritative.Length;
      if i < an {
        answers[i] := Fragment(f);
      } else if i < an + ns {
        authoritative[i - an] := Fragment(f);
      } else if i < an + ns + additional.Length {
        additional[i - an - ns] := Fragment(f);
      }
    }

    /** The message with the sections as they are now. */
    function ToMessage(m: Message): Message
      reads answers, authoritative, additional
    {
      m.(answers := answers[..], authoritative := authoritative[..], additional := additional[..])
    }
  }

  /** The inner loop: cur_max, hash and idx. None stands for a hash that has not
      been set. */
  method FindLargest(entries: Cache, rrids: array<u16>) returns (best: Option<nat>)
    requires Known(entries, rrids[..])
    ensures best == Largest(entries, rrids[..], rrids.Length)
  {
    var curMax: u16 := 0;
    best := None;
    for i := 0 to rrids.Length
      invariant best == Largest(entries, rrids[..], i)
      invariant curMax == BestSize(entries, rrids[..], best)
    {
      var curHash := rrids[i];
      if curHash != 0 {
        if |entries[curHash].rdata| > curMax {
          curMax, best := |entries[curHash].rdata|, Some(i);
        }
      }
    }
  }

  /** One turn of the shrinking loop, once a record has been chosen; `done` says
      that it was the one cut to fit. */
  method ReplaceRecord(entries: Cache, limit: nat, sections: Sections, rrids: array<u16>, idx: nat, cur: int)
    returns (cur': int, done: bool)
    requires sections.Valid() && Known(entries, rrids[..]) && idx < rrids.Length == |sections.Records()|
    requires rrids[idx] != 0
    modifies rrids, sections.answers, sections.authoritative, sections.additional
    ensures done == (cur - RdSize(entries, old(rrids[idx])) < limit)
    ensures var k := Shrunk(old(sections.Records()), old(rrids[..]), cur);
      Shrunk(sections.Records(), rrids[..], cur')
      == if done then Cut(entries, limit, k, idx) else Reduce(entries, k, idx)
  {
    hide RecordToBytes, FragToBytes, Abs32, Known;
    KnownAt(entries, rrids[..], idx);
    var hash := rrids[idx];
    var rr := entries[hash];
    rrids[idx] := 0;
    var bytes := ResourceRecordToBytes(rr);
    var outLen := |bytes| % 0x1_0000_0000;
    if cur - |rr.rdata| >= limit {
      sections.InsertRRFrag(idx, Frag(0, 0, outLen, hash, None));
      return cur - |bytes| + RRFRAGHEADER, false;
    }
    var cs := Abs32(cur + (RRFRAGHEADER - RRHEADER - |rr.nameBytes|) - limit);
    if cs > |rr.rdata| {
      cs := 0;
    } else {
      cs := |rr.rdata| - cs;
    }
    var fragsize := cs / 32 * 32;
    var rrfrag := if cs > 0 then Frag(fragsize, 0, outLen, hash, Some(bytes[..fragsize]))
                  else Frag(fragsize, 0, 0, hash, None);
    sections.InsertRRFrag(idx, rrfrag);
    var out := RRFragToBytes(rrfrag);
    return cur - |bytes| + |out|, true;
  }

  lemma {:induction false} KnownAt(entries: Cache, ids: seq<u16>, idx: nat)
    requires Known(entries, ids) && idx < |ids| && ids[idx] != 0
    ensures ids[idx] in entries
  {
  }

  /** The shrinking loop. */
  method ShrinkSections(entries: Cache, limit: nat, sections: Sections, rrids: array<u16>, size: int)
    returns (error: Option<Error>)
    requires sections.Valid() && Known(entries, rrids[..]) && rrids.Length == |sections.Records()|
    modifies rrids, sections.answers, sections.authoritative, sections.additional
    ensures match Shrink(entries, limit, Shrunk(old(sections.Records()), old(rrids[..]), size))
      case Ok(k) => error == None && sections.Records() == k.records
      case Err(e) => error == Some(e)
  {
    hide Known, Shrink, EmptyFrag, LastFrag, RoomFor, RecordToBytes, FragToBytes;
    var cur, done := size, false;
    ghost var start := Shrunk(sections.Records(), rrids[..], size);
    while cur > limit && !done
      invariant rrids.Length == |sections.Records()| && Known(entries, rrids[..])
      invariant !done ==>
        Shrink(entries, limit, start) == Shrink(entries, limit, Shrunk(sections.Records(), rrids[..], cur))
      invariant done ==> Shrink(entries, limit, start) == Ok(Shrunk(sections.Records(), rrids[..], cur))
      decreases Considered(rrids[..]), !done
    {
      ghost var k := Shrunk(sections.Records(), rrids[..], cur);
      var best := FindLargest(entries, rrids);
      if best.None? {
        ShrinkFails(entries, limit, k);
        return Some(Uninitialised);
      }
      ShrinkStep(entries, limit, k, best.value);
      ConsideredLess(rrids[..], best.value);
      cur, done := ReplaceRecord(entries, limit, sections, rrids, best.value, cur);
      assert rrids[..] == k.rrids[best.value := 0];
      StillKnown(entries, k.rrids, best.value);
    }
    if !done {
      ShrinkEnds(entries, limit, Shrunk(sections.Records(), rrids[..], cur));
    }
    error := None;
  }

  lemma {:induction false} StillKnown(entries: Cache, rrids: seq<u16>, idx: nat)
    requires Known(entries, rrids) && idx < |rrids|
    ensures Known(entries, rrids[idx := 0])
  {
  }

  lemma {:induction false} ShrinkFails(entries: Cache, limit: nat, k: Shrunk)
    requires |k.records| == |k.rrids| && Known(entries, k.rrids) && k.cur > limit
    requires Largest(entries, k.rrids, |k.rrids|).None?
    ensures Shrink(entries, limit, k) == Err(Uninitialised)
  {
  }

  lemma {:induction false} ShrinkEnds(entries: Cache, limit: nat, k: Shrunk)
    requires |k.records| == |k.rrids| && Known(entries, k.rrids) && k.cur <= limit
    ensures Shrink(entries, limit, k) == Ok(k)
  {
  }

  lemma {:induction false} InsertPackedStep(cache: Cache, hash: seq<byte> -> u16, ps: seq<PackedRR>, i: nat)
    requires AllSized(ps) && i < |ps|
    ensures InsertPacked(cache, hash, ps[..i + 1])
            == match InsertPacked(cache, hash, ps[..i])
               case Err(e) => Err(e)
               case Ok(b) =>
                 if ps[i].Fragment? then Err(OutOfBounds)
                 else
                   match InsertRecord(b.0, hash, ps[i].rr)
                   case Err(e) => Err(e)
                   case Ok(l) => Ok((l.0, b.1 + [l.1]))
  {
    assert ps[..i + 1][..i] == ps[..i];
  }

  lemma {:induction false} InsertPackedFails(cache: Cache, hash: seq<byte> -> u16, ps: seq<PackedRR>, i: nat, e: Error)
    requires AllSized(ps) && i <= |ps| && InsertPacked(cache, hash, ps[..i]) == Err(e)
    ensures InsertPacked(cache, hash, ps) == Err(e)
    decreases |ps| - i
  {
    if i == |ps| {
      assert ps[..i] == ps;
    } else {
      InsertPackedStep(cache, hash, ps, i);
      InsertPackedFails(cache, hash, ps, i + 1, e);
    }
  }

  /** insert_into_state for each record; rrids and cur_size grow with it. */
  method InsertRecords(cache: ResponderCache, hash: seq<byte> -> u16, ps: seq<PackedRR>, size: nat)
    returns (r: Result<array<u16>>, cur: nat)
    requires AllSized(ps)
    modifies cache
    ensures match InsertPacked(old(cache.entries), hash, ps)
      case Ok((entries, ids)) =>
        r.Ok? && fresh(r.value) && cache.entries == entries && r.value[..] == ids && cur == size + Width(ps)
      case Err(e) => r == Err(e)
  {
    hide InsertRecord, RecordToBytes;
    assert ps[..0] == [];
    var rrids := new u16[|ps|](_ => 0);
    cur := size;
    for i := 0 to |ps|
      invariant AllSized(ps[..i]) && cur == size + Width(ps[..i])
      invariant InsertPacked(old(cache.entries), hash, ps[..i]) == Ok((cache.entries, rrids[..i]))
    {
      InsertPackedStep(old(cache.entries), hash, ps, i);
      PrefixSized(ps, i);
      if ps[i].Fragment? {
        InsertPackedFails(old(cache.entries), hash, ps, i + 1, OutOfBounds);
        return Err(OutOfBounds), cur;
      }
      var id := cache.InsertIntoState(ps[i].rr, hash);
      if id.Err? {
        InsertPackedFails(old(cache.entries), hash, ps, i + 1, id.error);
        return Err(id.error), cur;
      }
      rrids[i] := id.value;
      assert rrids[..i + 1] == rrids[..i] + [id.value];
      cur := cur + |ps[i].rr.nameBytes| + RRHEADER + |ps[i].rr.rdata|;
    }
    assert ps[..|ps|] == ps && rrids[..|ps|] == rrids[..];
    r := Ok(rrids);
  }

  lemma {:induction false} PrefixSized(ps: seq<PackedRR>, i: nat)
    requires AllSized(ps) && i < |ps|
    ensures AllSized(ps[..i]) && AllSized(ps[..i + 1]) && ps[i].Sized()
    ensures Width(ps[..i + 1]) == Width(ps[..i]) + |PackedToBytes(ps[i])|
  {
    assert ps[..i + 1] == ps[..i] + [ps[i]];
    WidthMore(ps[..i], [ps[i]]);
    assert SectionToBytes([ps[i]]) == PackedToBytes(ps[i]) + SectionToBytes([]);
  }

  method ShrinkInPlace(entries: Cache, m: Message, rrids: array<u16>, qLen: nat, size: nat, maxSize: u32)
    returns (r: Result<Message>)
    requires m.Sized() && AllSized(m.Records()) && rrids.Length == |m.Records()| && Known(entries, rrids[..])
    requires size == DNSMESSAGEHEADER + qLen + Width(m.Records())
    modifies rrids
    ensures r == ShrinkMessage(entries, old(rrids[..]), m, qLen, maxSize)
  {
    hide Shrink, AllSized, Known, Limit, Width, ShrinkMessage;
    ShrinkMessageIs(entries, rrids[..], m, qLen, maxSize);
    var sections := new Sections(m);
    var error := ShrinkSections(entries, Limit(maxSize), sections, rrids, size);
    if error.Some? {
      return Err(error.value);
    }
    r := Ok(sections.ToMessage(m));
    Rejoined(m, sections.answers[..], sections.authoritative[..], sections.additional[..]);
  }

  method InsertIntoStateAndConstructMap(cache: ResponderCache, hash: seq<byte> -> u16, m: Message, maxSize: u32)
    returns (r: Result<Message>)
    requires m.Sized()
    modifies cache
    ensures match ConstructMap(old(cache.entries), hash, m, maxSize)
      case Ok((entries, m')) => cache.entries == entries && r == Ok(m')
      case Err(e) => r == Err(e)
  {
    hide ConstructMap, InsertPacked, QuestionsToBytes, AllSized, Known, Width, ShrinkMessage;
    RecordsSized(m);
    ConstructMapIs(cache.entries, hash, m, maxSize);
    var parts, qLen, error := EncodeQuestions(m.questions);
    if error.Some? {
      return Err(error.value);
    }
    var rrids, size := InsertRecords(cache, hash, m.Records(), DNSMESSAGEHEADER + qLen);
    if rrids.Err? {
      return Err(rrids.error);
    }
    r := ShrinkInPlace(cache.entries, m, rrids.value, qLen, size, maxSize);
  }

  lemma {:induction false} RecordsSized(m: Message)
    requires m.Sized()
    ensures AllSized(m.Records())
  {
  }

  lemma {:induction false} Rejoined(m: Message, an: seq<PackedRR>, ns: seq<PackedRR>, ar: seq<PackedRR>)
    requires |an| == |m.answers| && |ns| == |m.authoritative| && |ar| == |m.additional|
    ensures WithRecords(m, an + ns + ar) == m.(answers := an, authoritative := ns, additional := ar)
  {
  }
}
