/** Questions and whole messages: question.c and dns_message.c. */
module Messages {
  import opened Wire
  import opened Names
  import opened Records

  datatype Question = Question(qname: seq<byte>, qtype: u16, qclass: u16)

  /** The counts of the C structure are the lengths of its sections. */
  datatype Message = Message(
    identification: u16, flags: u16, questions: seq<Question>,
    answers: seq<PackedRR>, authoritative: seq<PackedRR>, additional: seq<PackedRR>)
  {
    predicate Sized() {
      && |questions| < 0x1_0000 && |answers| < 0x1_0000
      && |authoritative| < 0x1_0000 && |additional| < 0x1_0000
      && AllSized(answers) && AllSized(authoritative) && AllSized(additional)
    }

    /** is_dns_message_query: the QR bit and the four RCODE bits are all zero. */
    predicate IsQuery() { QueryFlags(flags) }

    /** All records, in the order of the wire. */
    function Records(): (rs: seq<PackedRR>)
      ensures |rs| == |answers| + |authoritative| + |additional|
    {
      answers + authoritative + additional
    }

    /** is_dns_message_contains_rrfrag */
    predicate ContainsFrag() { exists k :: 0 <= k < |Records()| && Records()[k].Fragment? }
  }

  predicate AllSized(ps: seq<PackedRR>) {
    forall k :: 0 <= k < |ps| ==> ps[k].Sized()
  }

  predicate QueryFlags(flags: u16) {
    flags / 0x8000 == 0 && flags % 0x10 == 0
  }

  /** Of the flags only QR and RCODE decide: the opcode and AA, TC, RD and RA, the
      eleven bits between them, may be anything. */
  lemma {:induction false} QueryBits(qr: nat, mid: nat, rcode: nat)
    requires qr < 2 && mid < 0x800 && rcode < 0x10
    ensures QueryFlags(0x8000 * qr + 0x10 * mid + rcode) <==> qr == 0 && rcode == 0
  {
    assert (0x8000 * qr + 0x10 * mid + rcode) / 0x8000 == qr;
    assert (0x8000 * qr + 0x10 * mid + rcode) % 0x10 == rcode;
  }

  /** flags | (1 << 15) */
  function MarkResponse(flags: u16): (r: u16)
    ensures !QueryFlags(r)
    ensures r / 0x8000 == 1 && r % 0x8000 == flags % 0x8000
  {
    if flags / 0x8000 == 0 then flags + 0x8000 else flags
  }

  /** A fragment anywhere makes a message one with fragments. */
  lemma {:induction false} ContainsFragExactly(m: Message)
    ensures m.ContainsFrag() <==>
            || (exists p :: p in m.answers && p.Fragment?)
            || (exists p :: p in m.authoritative && p.Fragment?)
            || (exists p :: p in m.additional && p.Fragment?)
  {
    if p :| p in m.answers + m.authoritative + m.additional && p.Fragment? {
      var k :| 0 <= k < |m.Records()| && m.Records()[k] == p;
    }
  }

  // ----- Questions

  function QuestionToBytes(q: Question): Result<seq<byte>> {
    var name :- NameToBytes(q.qname);
    Ok(name + (Put16(q.qtype) + Put16(q.qclass)))
  }

  method QuestionToBytesBuffer(q: Question) returns (r: Result<seq<byte>>)
    ensures r == QuestionToBytes(q)
  {
    var name := DnsNameToBytes(q.qname);
    if name.Err? {
      return Err(name.error);
    }
    var bytes := new byte[|name.value| + 2 + 2];
    var curPos := Emit(bytes, 0, name.value);
    curPos := Emit(bytes, curPos, Put16(q.qtype));
    curPos := Emit(bytes, curPos, Put16(q.qclass));
    assert bytes[..curPos] == name.value + (Put16(q.qtype) + Put16(q.qclass));
    return Ok(bytes[..curPos]);
  }

  /** The type and class are read behind the name as dns_name_from_bytes measured
      it, while the reported length relies on the scan for a zero. */
  function QuestionFromBytes(s: seq<byte>): Result<Parsed<Question>> {
    var z := FirstZero(s);
    var name := NameFromBytes(s, z + 1);
    if name == Err(BadName) then Err(BadName)
    else
      var n :- name;
      if n.used + 4 > |s| then Err(OutOfBounds)
      else Ok(Parsed(Question(n.value, Get16(s, n.used), Get16(s, n.used + 2)), z + 1 + 4))
  }

  method QuestionFromBytesBuffer(s: seq<byte>) returns (r: Result<Parsed<Question>>)
    ensures r == QuestionFromBytes(s)
  {
    var nameByteLen := ScanToZero(s);
    nameByteLen := nameByteLen + 1;
    var name := DnsNameFromBytes(s, nameByteLen);
    if name.Err? {
      return Err(name.error);
    }
    var curPos := name.value.used;
    if curPos + 4 > |s| {
      return Err(OutOfBounds);
    }
    var qtype := Get16(s, curPos);
    curPos := curPos + 2;
    var qclass := Get16(s, curPos);
    return Ok(Parsed(Question(name.value.value, qtype, qclass), nameByteLen + 2 + 2));
  }

  /** A question whose name is in canonical dotted form. */
  ghost predicate CanonicalName(name: seq<byte>, ls: seq<Label>) {
    ValidLabels(ls) && name == Dotted(ls)
  }

  ghost predicate CanonicalQuestion(q: Question) {
    exists ls :: CanonicalName(q.qname, ls)
  }

  lemma {:induction false} QuestionRoundTrip(q: Question, rest: seq<byte>)
    requires CanonicalQuestion(q)
    ensures QuestionToBytes(q).Ok?
    ensures var s := QuestionToBytes(q).value;
      QuestionFromBytes(s + rest) == Ok(Parsed(q, |s|))
  {
    hide NameToBytes, NameFromBytes, FirstZero, Put16, Get16, Dotted, WireName;
    var ls :| CanonicalName(q.qname, ls);
    var w := WireName(ls);
    var tail := Put16(q.qtype) + Put16(q.qclass);
    NameRoundTrip(ls, []);
    LiteralNameDecodes(ls, tail + rest);
    Assoc(w, tail, rest);
    var s := w + tail + rest;
    AtFront(w + tail, rest);
    AtSplit(s, 0, w, tail);
    AtSplit(s, |w|, Put16(q.qtype), Put16(q.qclass));
    AtGet16(s, |w|, q.qtype);
    AtGet16(s, |w| + 2, q.qclass);
  }

  // ----- Sections

  function QuestionsToBytes(qs: seq<Question>): Result<seq<byte>> {
    if qs == [] then Ok([])
    else
      var first :- QuestionToBytes(qs[0]);
      var more :- QuestionsToBytes(qs[1..]);
      Ok(first + more)
  }

  function SectionToBytes(ps: seq<PackedRR>): seq<byte>
    requires AllSized(ps)
  {
    if ps == [] then [] else PackedToBytes(ps[0]) + SectionToBytes(ps[1..])
  }

  function QuestionsFromBytes(s: seq<byte>, count: nat): Result<Parsed<seq<Question>>> {
    if count == 0 then Ok(Parsed([], 0))
    else
      var q :- QuestionFromBytes(s);
      if q.used > |s| then Err(OutOfBounds)
      else
        var more :- QuestionsFromBytes(s[q.used..], count - 1);
        Ok(Parsed([q.value] + more.value, q.used + more.used))
  }

  function SectionFromBytes(s: seq<byte>, count: nat, query: bool): Result<Parsed<seq<PackedRR>>> {
    if count == 0 then Ok(Parsed([], 0))
    else
      var p :- PackedFromBytes(s, query);
      if p.used > |s| then Err(OutOfBounds)
      else
        var more :- SectionFromBytes(s[p.used..], count - 1, query);
        Ok(Parsed([p.value] + more.value, p.used + more.used))
  }

  // ----- Messages

  function HeaderBytes(m: Message): (s: seq<byte>)
    requires m.Sized()
    ensures |s| == 12
  {
    Put16(m.identification) + (Put16(m.flags) + (Put16(|m.questions|) +
    (Put16(|m.answers|) + (Put16(|m.authoritative|) + Put16(|m.additional|)))))
  }

  function RecordsToBytes(m: Message): seq<byte>
    requires m.Sized()
  {
    SectionToBytes(m.answers) + (SectionToBytes(m.authoritative) + SectionToBytes(m.additional))
  }

  function MessageToBytes(m: Message): Result<seq<byte>>
    requires m.Sized()
  {
    var questions :- QuestionsToBytes(m.questions);
    Ok(HeaderBytes(m) + (questions + RecordsToBytes(m)))
  }

  function RecordsFromBytes(s: seq<byte>, an: nat, ns: nat, ar: nat, query: bool)
    : Result<(seq<PackedRR>, seq<PackedRR>, seq<PackedRR>)>
  {
    var answers :- SectionFromBytes(s, an, query);
    if answers.used > |s| then Err(OutOfBounds) else
    var s1 := s[answers.used..];
    var authoritative :- SectionFromBytes(s1, ns, query);
    if authoritative.used > |s1| then Err(OutOfBounds) else
    var additional :- SectionFromBytes(s1[authoritative.used..], ar, query);
    Ok((answers.value, authoritative.value, additional.value))
  }

  function MessageFromBytes(s: seq<byte>): Result<Message> {
    if |s| < 12 then Err(OutOfBounds)
    else
      var flags := Get16(s, 2);
      var questions :- QuestionsFromBytes(s[12..], Get16(s, 4));
      if questions.used > |s| - 12 then Err(OutOfBounds)
      else
        var rs :- RecordsFromBytes(s[12..][questions.used..], Get16(s, 6), Get16(s, 8), Get16(s, 10),
                                   QueryFlags(flags));
        Ok(Message(Get16(s, 0), flags, questions.value, rs.0, rs.1, rs.2))
  }

  // ----- Round trip

  ghost predicate SectionFits(ps: seq<PackedRR>, query: bool) {
    forall k :: 0 <= k < |ps| ==> PackedFits(ps[k], query)
  }

  /** The messages that the daemons exchange: canonical question names, records
      that survive the wire, and fragment data exactly in responses. */
  ghost predicate MessageFits(m: Message) {
    && m.Sized()
    && (forall k :: 0 <= k < |m.questions| ==> CanonicalQuestion(m.questions[k]))
    && SectionFits(m.answers, m.IsQuery())
    && SectionFits(m.authoritative, m.IsQuery())
    && SectionFits(m.additional, m.IsQuery())
  }

  function ReceivedSection(ps: seq<PackedRR>, query: bool): (rs: seq<PackedRR>)
    requires AllSized(ps)
    ensures |rs| == |ps|
  {
    seq(|ps|, i requires 0 <= i < |ps| => ReceivedPacked(ps[i], query))
  }

  /** What arrives when `m` is sent. */
  function ReceivedMessage(m: Message): Message
    requires m.Sized()
  {
    m.(answers := ReceivedSection(m.answers, m.IsQuery()),
       authoritative := ReceivedSection(m.authoritative, m.IsQuery()),
       additional := ReceivedSection(m.additional, m.IsQuery()))
  }

  lemma {:induction false} QuestionsRoundTrip(qs: seq<Question>, rest: seq<byte>)
    requires forall k :: 0 <= k < |qs| ==> CanonicalQuestion(qs[k])
    ensures QuestionsToBytes(qs).Ok?
    ensures var s := QuestionsToBytes(qs).value;
      QuestionsFromBytes(s + rest, |qs|) == Ok(Parsed(qs, |s|))
  {
    hide QuestionToBytes, QuestionFromBytes, CanonicalQuestion;
    if qs != [] {
      QuestionsRoundTrip(qs[1..], rest);
      var first, more := QuestionToBytes(qs[0]), QuestionsToBytes(qs[1..]);
      QuestionRoundTrip(qs[0], more.value + rest);
      DropFirst(first.value, more.value, rest);
      assert qs == [qs[0]] + qs[1..];
    }
  }

  lemma {:induction false} DropFirst<T>(a: seq<T>, b: seq<T>, rest: seq<T>)
    ensures a + b + rest == a + (b + rest)
    ensures (a + b + rest)[|a|..] == b + rest
  {
  }

  lemma {:induction false} SectionRoundTrip(ps: seq<PackedRR>, query: bool, rest: seq<byte>)
    requires AllSized(ps) && SectionFits(ps, query)
    ensures SectionFromBytes(SectionToBytes(ps) + rest, |ps|, query)
            == Ok(Parsed(ReceivedSection(ps, query), |SectionToBytes(ps)|))
  {
    hide PackedToBytes, PackedFromBytes, PackedFits, ReceivedPacked;
    if ps == [] {
      assert ReceivedSection(ps, query) == [];
    } else {
      SectionRoundTrip(ps[1..], query, rest);
      var first, more := PackedToBytes(ps[0]), SectionToBytes(ps[1..]);
      PackedRoundTrip(ps[0], query, more + rest);
      DropFirst(first, more, rest);
      assert ReceivedSection(ps, query) == [ReceivedPacked(ps[0], query)] + ReceivedSection(ps[1..], query);
    }
  }

  lemma {:induction false} RecordsRoundTrip(m: Message)
    requires MessageFits(m)
    ensures var r := ReceivedMessage(m);
      RecordsFromBytes(RecordsToBytes(m), |m.answers|, |m.authoritative|, |m.additional|, m.IsQuery())
      == Ok((r.answers, r.authoritative, r.additional))
  {
    hide SectionToBytes, SectionFromBytes, ReceivedSection, SectionFits, AllSized, QueryFlags;
    var query := m.IsQuery();
    var an, ns, ar := SectionToBytes(m.answers), SectionToBytes(m.authoritative), SectionToBytes(m.additional);
    SectionRoundTrip(m.answers, query, ns + ar);
    SectionRoundTrip(m.authoritative, query, ar);
    SectionRoundTrip(m.additional, query, []);
    assert ar + [] == ar;
    assert (an + (ns + ar))[|an|..] == ns + ar;
    assert (ns + ar)[|ns|..] == ar;
  }

  lemma {:induction false} HeaderAt(s: seq<byte>, m: Message)
    requires m.Sized() && At(s, 0, HeaderBytes(m))
    ensures Get16(s, 0) == m.identification && Get16(s, 2) == m.flags
    ensures Get16(s, 4) == |m.questions| && Get16(s, 6) == |m.answers|
    ensures Get16(s, 8) == |m.authoritative| && Get16(s, 10) == |m.additional|
  {
    hide Put16, Get16;
    var ar := Put16(|m.additional|);
    var ns := Put16(|m.authoritative|) + ar;
    var an := Put16(|m.answers|) + ns;
    var qd := Put16(|m.questions|) + an;
    AtSplit(s, 0, Put16(m.identification), Put16(m.flags) + qd);
    AtSplit(s, 2, Put16(m.flags), qd);
    AtSplit(s, 4, Put16(|m.questions|), an);
    AtSplit(s, 6, Put16(|m.answers|), ns);
    AtSplit(s, 8, Put16(|m.authoritative|), ar);
    AtGet16(s, 0, m.identification);
    AtGet16(s, 2, m.flags);
    AtGet16(s, 4, |m.questions|);
    AtGet16(s, 6, |m.answers|);
    AtGet16(s, 8, |m.authoritative|);
    AtGet16(s, 10, |m.additional|);
  }

  /** Whatever the mix of records and fragments in its three sections, a message
      arrives as it was sent, up to null versus empty fragment data. */
  lemma {:induction false} MessageRoundTrip(m: Message)
    requires MessageFits(m)
    ensures MessageToBytes(m).Ok?
    ensures MessageFromBytes(MessageToBytes(m).value) == Ok(ReceivedMessage(m))
  {
    hide QuestionsToBytes, QuestionsFromBytes, RecordsToBytes, RecordsFromBytes, HeaderBytes, Get16, SectionFits,
         AllSized, QueryFlags, ReceivedSection;
    QuestionsRoundTrip(m.questions, RecordsToBytes(m));
    RecordsRoundTrip(m);
    var q, body := QuestionsToBytes(m.questions).value, RecordsToBytes(m);
    var s := HeaderBytes(m) + (q + body);
    AtFront(HeaderBytes(m), q + body);
    HeaderAt(s, m);
    assert s[12..] == q + body;
    assert (q + body)[|q|..] == body;
  }
}
