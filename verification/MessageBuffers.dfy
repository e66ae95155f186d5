/** dns_message_to_bytes and dns_message_from_bytes as the loops over buffers
    that they are, proved against the functions of `Messages`. */
module MessageBuffers {
  import opened Wire
  import opened Records
  import opened Messages

  // ----- Encoding: one buffer per record first, then one buffer for all

  ghost function Flatten(parts: seq<seq<byte>>): seq<byte> {
    if parts == [] then [] else parts[0] + Flatten(parts[1..])
  }

  lemma {:induction false} FlattenAppend(parts: seq<seq<byte>>, part: seq<byte>)
    ensures Flatten(parts + [part]) == Flatten(parts) + part
  {
    if parts == [] {
      assert [part][1..] == [];
      assert Flatten([part]) == part + [];
    } else {
      FlattenAppend(parts[1..], part);
      assert (parts + [part])[1..] == parts[1..] + [part];
      Assoc(parts[0], Flatten(parts[1..]), part);
    }
  }

  method EncodeQuestions(qs: seq<Question>) returns (parts: seq<seq<byte>>, total: nat, error: Option<Error>)
    ensures error.None? ==> QuestionsToBytes(qs) == Ok(Flatten(parts)) && total == |Flatten(parts)|
    ensures error.Some? ==> QuestionsToBytes(qs) == Err(error.value)
  {
    hide QuestionToBytes;
    parts, total, error := [], 0, None;
    var i := 0;
    assert qs[0..] == qs;
    if QuestionsToBytes(qs).Ok? {
      assert [] + QuestionsToBytes(qs).value == QuestionsToBytes(qs).value;
    }
    while i < |qs|
      invariant 0 <= i <= |qs| && total == |Flatten(parts)|
      invariant QuestionsToBytes(qs) == PrependBytes(Flatten(parts), QuestionsToBytes(qs[i..]))
    {
      var part := QuestionToBytesBuffer(qs[i]);
      assert qs[i..][0] == qs[i] && qs[i..][1..] == qs[i + 1..];
      if part.Err? {
        return parts, total, Some(part.error);
      }
      PrependTwice(Flatten(parts), part.value, QuestionsToBytes(qs[i + 1..]));
      FlattenAppend(parts, part.value);
      parts, total, i := parts + [part.value], total + |part.value|, i + 1;
    }
    assert Flatten(parts) + [] == Flatten(parts);
  }

  ghost function PrependBytes(front: seq<byte>, r: Result<seq<byte>>): Result<seq<byte>> {
    if r.Ok? then Ok(front + r.value) else r
  }

  lemma {:induction false} PrependTwice(a: seq<byte>, b: seq<byte>, r: Result<seq<byte>>)
    ensures PrependBytes(a, PrependBytes(b, r)) == PrependBytes(a + b, r)
  {
    if r.Ok? {
      Assoc(a, b, r.value);
    }
  }

  method EncodeSection(ps: seq<PackedRR>) returns (parts: seq<seq<byte>>, total: nat)
    requires AllSized(ps)
    ensures Flatten(parts) == SectionToBytes(ps) && total == |Flatten(parts)|
  {
    hide PackedToBytes;
    parts, total := [], 0;
    var i := 0;
    while i < |ps|
      invariant 0 <= i <= |ps| && total == |Flatten(parts)|
      invariant SectionToBytes(ps) == Flatten(parts) + SectionToBytes(ps[i..])
    {
      var part := PackedRRToBytes(ps[i]);
      assert ps[i..][0] == ps[i] && ps[i..][1..] == ps[i + 1..];
      Assoc(Flatten(parts), part, SectionToBytes(ps[i + 1..]));
      FlattenAppend(parts, part);
      parts, total, i := parts + [part], total + |part|, i + 1;
    }
    assert Flatten(parts) + [] == Flatten(parts);
  }

  method EmitAll(buf: array<byte>, curPos: nat, parts: seq<seq<byte>>) returns (next: nat)
    requires curPos + |Flatten(parts)| <= buf.Length
    modifies buf
    ensures next == curPos + |Flatten(parts)|
    ensures buf[..next] == old(buf[..curPos]) + Flatten(parts)
  {
    next := curPos;
    var i := 0;
    assert parts[..0] == [] && parts[0..] == parts;
    FlattenSplit(parts, 0);
    while i < |parts|
      invariant 0 <= i <= |parts|
      invariant next == curPos + |Flatten(parts[..i])| <= buf.Length
      invariant buf[..next] == old(buf[..curPos]) + Flatten(parts[..i])
    {
      FlattenSplit(parts, i + 1);
      FlattenAppend(parts[..i], parts[i]);
      assert parts[..i + 1] == parts[..i] + [parts[i]];
      Assoc(old(buf[..curPos]), Flatten(parts[..i]), parts[i]);
      next := Emit(buf, next, parts[i]);
      i := i + 1;
    }
    assert parts[..i] == parts;
  }

  lemma {:induction false} FlattenSplit(parts: seq<seq<byte>>, i: nat)
    requires i <= |parts|
    ensures |Flatten(parts)| == |Flatten(parts[..i])| + |Flatten(parts[i..])|
  {
    if i == 0 {
      assert parts[0..] == parts;
    } else {
      FlattenSplit(parts[1..], i - 1);
      assert parts[1..][i - 1..] == parts[i..];
      assert parts[..i][1..] == parts[1..][..i - 1];
    }
  }

  /** dns_message_to_bytes */
  method DnsMessageToBytes(m: Message) returns (r: Result<seq<byte>>)
    requires m.Sized()
    ensures r == MessageToBytes(m)
  {
    hide QuestionsToBytes, SectionToBytes, Flatten, AllSized;
    var qd, qdLen, error := EncodeQuestions(m.questions);
    if error.Some? {
      return Err(error.value);
    }
    var an, anLen := EncodeSection(m.answers);
    var ns, nsLen := EncodeSection(m.authoritative);
    var ar, arLen := EncodeSection(m.additional);
    var out := new byte[12 + qdLen + anLen + nsLen + arLen];
    var curPos := EmitHeader(out, m);
    curPos := EmitAll(out, curPos, qd);
    curPos := EmitAll(out, curPos, an);
    curPos := EmitAll(out, curPos, ns);
    curPos := EmitAll(out, curPos, ar);
    Regroup(HeaderBytes(m), Flatten(qd), Flatten(an), Flatten(ns), Flatten(ar));
    return Ok(out[..curPos]);
  }

  lemma {:induction false} Regroup<T>(h: seq<T>, a: seq<T>, b: seq<T>, c: seq<T>, d: seq<T>)
    ensures h + a + b + c + d == h + (a + (b + (c + d)))
  {
  }

  method EmitHeader(buf: array<byte>, m: Message) returns (next: nat)
    requires m.Sized() && buf.Length >= 12
    modifies buf
    ensures next == 12 && buf[..12] == HeaderBytes(m)
  {
    hide Put16;
    next := Emit(buf, 0, Put16(m.identification));
    next := Emit(buf, next, Put16(m.flags));
    next := Emit(buf, next, Put16(|m.questions|));
    next := Emit(buf, next, Put16(|m.answers|));
    next := Emit(buf, next, Put16(|m.authoritative|));
    next := Emit(buf, next, Put16(|m.additional|));
    var none: seq<byte> := [];
    assert none + Put16(m.identification) == Put16(m.identification);
    Regroup(Put16(m.identification), Put16(m.flags), Put16(|m.questions|), Put16(|m.answers|),
            Put16(|m.authoritative|));
    Regroup(Put16(m.identification), Put16(m.flags), Put16(|m.questions|), Put16(|m.answers|),
            Put16(|m.authoritative|) + Put16(|m.additional|));
    assert buf[..12] == HeaderBytes(m);
  }

  // ----- Decoding: a cursor over the remaining bytes

  ghost function Prepend<T>(front: seq<T>, used: nat, r: Result<Parsed<seq<T>>>): Result<Parsed<seq<T>>> {
    if r.Ok? then Ok(Parsed(front + r.value.value, used + r.value.used)) else r
  }

  lemma {:induction false} PrependNothing<T>(r: Result<Parsed<seq<T>>>)
    ensures Prepend([], 0, r) == r
  {
    if r.Ok? {
      assert [] + r.value.value == r.value.value;
    }
  }

  lemma {:induction false} PrependParsed<T>(front: seq<T>, used: nat, x: T, n: nat, r: Result<Parsed<seq<T>>>)
    ensures Prepend(front, used, Prepend([x], n, r)) == Prepend(front + [x], used + n, r)
  {
    if r.Ok? {
      Assoc(front, [x], r.value.value);
    }
  }

  method DecodeQuestions(s: seq<byte>, count: nat) returns (r: Result<Parsed<seq<Question>>>)
    ensures r == QuestionsFromBytes(s, count)
  {
    hide QuestionFromBytes;
    var qs: seq<Question>, curPos, i := [], 0, 0;
    assert s[0..] == s;
    PrependNothing(QuestionsFromBytes(s, count));
    while i < count
      invariant 0 <= i <= count && 0 <= curPos <= |s|
      invariant QuestionsFromBytes(s, count) == Prepend(qs, curPos, QuestionsFromBytes(s[curPos..], count - i))
    {
      var q := QuestionFromBytesBuffer(s[curPos..]);
      if q.Err? {
        return Err(q.error);
      }
      if q.value.used > |s| - curPos {
        return Err(OutOfBounds);
      }
      assert s[curPos..][q.value.used..] == s[curPos + q.value.used..];
      PrependParsed(qs, curPos, q.value.value, q.value.used,
                    QuestionsFromBytes(s[curPos + q.value.used..], count - i - 1));
      qs, curPos, i := qs + [q.value.value], curPos + q.value.used, i + 1;
    }
    assert qs + [] == qs;
    return Ok(Parsed(qs, curPos));
  }

  method DecodeSection(s: seq<byte>, count: nat, query: bool) returns (r: Result<Parsed<seq<PackedRR>>>)
    ensures r == SectionFromBytes(s, count, query)
  {
    hide PackedFromBytes;
    var ps: seq<PackedRR>, curPos, i := [], 0, 0;
    assert s[0..] == s;
    PrependNothing(SectionFromBytes(s, count, query));
    while i < count
      invariant 0 <= i <= count && 0 <= curPos <= |s|
      invariant SectionFromBytes(s, count, query)
                == Prepend(ps, curPos, SectionFromBytes(s[curPos..], count - i, query))
    {
      var p := PackedRRFromBytes(s[curPos..], query);
      if p.Err? {
        return Err(p.error);
      }
      if p.value.used > |s| - curPos {
        return Err(OutOfBounds);
      }
      assert s[curPos..][p.value.used..] == s[curPos + p.value.used..];
      PrependParsed(ps, curPos, p.value.value, p.value.used,
                    SectionFromBytes(s[curPos + p.value.used..], count - i - 1, query));
      ps, curPos, i := ps + [p.value.value], curPos + p.value.used, i + 1;
    }
    assert ps + [] == ps;
    return Ok(Parsed(ps, curPos));
  }

  /** dns_message_from_bytes */
  method DnsMessageFromBytes(s: seq<byte>) returns (r: Result<Message>)
    ensures r == MessageFromBytes(s)
  {
    hide QuestionsFromBytes, SectionFromBytes, Get16, QueryFlags;
    if |s| < 12 {
      return Err(OutOfBounds);
    }
    var identification, flags := Get16(s, 0), Get16(s, 2);
    var qdcount, ancount, nscount, arcount := Get16(s, 4), Get16(s, 6), Get16(s, 8), Get16(s, 10);
    var query := QueryFlags(flags);
    var s0 := s[12..];
    var questions := DecodeQuestions(s0, qdcount);
    if questions.Err? {
      return Err(questions.error);
    }
    if questions.value.used > |s0| {
      return Err(OutOfBounds);
    }
    var s1 := s0[questions.value.used..];
    var answers := DecodeSection(s1, ancount, query);
    if answers.Err? {
      return Err(answers.error);
    }
    if answers.value.used > |s1| {
      return Err(OutOfBounds);
    }
    var s2 := s1[answers.value.used..];
    var authoritative := DecodeSection(s2, nscount, query);
    if authoritative.Err? {
      return Err(authoritative.error);
    }
    if authoritative.value.used > |s2| {
      return Err(OutOfBounds);
    }
    var additional := DecodeSection(s2[authoritative.value.used..], arcount, query);
    if additional.Err? {
      return Err(additional.error);
    }
    return Ok(Message(identification, flags, questions.value.value, answers.value.value,
                      authoritative.value.value, additional.value.value));
  }
}
