/**
 The bytes on the wire as numbers: which field stands where, in network order (section
 4.1 of RFC 1035), and what marks a fragment. Decoding is the inverse of encoding
 elsewhere; here both are tied to the format itself.
 */
module WireFormat {
  import opened Wire
  import opened Names
  import opened Records
  import opened Messages
  import opened Requester
  import opened Session

  /** Two bytes, the more significant one first. */
  predicate Net16(s: seq<byte>, at: nat, x: int) {
    at + 2 <= |s| && (s[at] as int) * 256 + s[at + 1] as int == x
  }

  /** Four bytes, from the most to the least significant one. */
  predicate Net32(s: seq<byte>, at: nat, x: int) {
    && at + 4 <= |s|
    && (((s[at] as int) * 256 + s[at + 1] as int) * 256 + s[at + 2] as int) * 256 + s[at + 3] as int == x
  }

  lemma {:induction false} AtNet16(s: seq<byte>, at: nat, x: u16)
    requires At(s, at, Put16(x))
    ensures Net16(s, at, x)
  {
    assert s[at..at + 2][0] == s[at] && s[at..at + 2][1] == s[at + 1];
  }

  lemma {:induction false} AtNet32(s: seq<byte>, at: nat, x: u32)
    requires At(s, at, Put32(x))
    ensures Net32(s, at, x)
  {
    AtSplit(s, at, Put16(x / 0x1_0000), Put16(x % 0x1_0000));
    AtNet16(s, at, x / 0x1_0000);
    AtNet16(s, at + 2, x % 0x1_0000);
  }

  lemma {:induction false} AtAll<T>(s: seq<T>)
    ensures At(s, 0, s)
  {
  }

  // ----- Names

  /** "www.a." and its seven bytes, and the root. */
  lemma {:induction false} NameBytes()
    ensures NameToBytes([119, 119, 119, 46, 97, 46]) == Ok([3, 119, 119, 119, 1, 97, 0])
    ensures NameFromBytes([3, 119, 119, 119, 1, 97, 0], 7) == Ok(Parsed([119, 119, 119, 46, 97, 46], 7))
    ensures NameToBytes([46]) == Ok([0]) && NameFromBytes([0], 1) == Ok(Parsed([46], 1))
  {
    hide NameToBytes, NameFromBytes, FirstZero, WireName, Dotted, LabelBytes, LabelText, ValidLabels;
    var w := TwoLabels();
    NameRoundTrip(w, []);
    NameRoundTrip([], []);
    assert WireName(w) + [] == WireName(w) && WireName([]) + [] == WireName([]);
  }

  lemma {:induction false} TwoLabels() returns (ls: seq<Label>)
    ensures ValidLabels(ls) && WireName(ls) == [3, 119, 119, 119, 1, 97, 0] && Dotted(ls) == [119, 119, 119, 46, 97, 46]
    ensures ValidLabels([]) && WireName([]) == [0] && Dotted([]) == [46]
  {
    var www: Label, a: Label := [119, 119, 119], [97];
    var one := [a];
    ls := [www, a];
    NoLabels();
    assert one[1..] == [] && ls[1..] == one;
    assert LabelBytes(one) == [1, 97] && LabelText(one) == [97, 46];
    assert OneLabel(www) == [3, 119, 119, 119];
    HeadFirst(ls);
    assert LabelBytes(ls) == [3, 119, 119, 119, 1, 97] && LabelText(ls) == [119, 119, 119, 46, 97, 46];
  }

  /** A compressed name, at offset 12, is printed as a fixed text of twelve characters. */
  lemma {:induction false} CompressedNameText()
    ensures NameFromBytes([192, 12, 0], 3)
            == Ok(Parsed([80, 79, 73, 78, 84, 69, 82, 32, 78, 65, 77, 69], 2))
  {
    var s: seq<byte> := [192, 12, 0];
    assert FirstZero(s, 2) == 2 && FirstZero(s, 1) == 2;
  }

  // ----- Fragments

  /** Fifteen bytes, of which the first three are 0, 0 and 108, and the data. */
  lemma {:induction false} FragLayout(f: Frag)
    requires f.Sized()
    ensures var s := FragToBytes(f);
      && |s| == 15 + (if f.data.Some? then f.fragsize else 0)
      && s[0] == 0 && s[1] == 0 && s[2] == 108
      && Net16(s, 3, f.fragsize) && Net32(s, 5, f.curidx) && Net32(s, 9, f.rrsize) && Net16(s, 13, f.rrid)
      && s[15..] == if f.data.Some? then f.data.value else []
  {
    var s := FragToBytes(f);
    var d := if f.data.Some? then f.data.value else [];
    var ids := Put16(f.rrid) + d;
    var sizes := Put32(f.rrsize) + ids;
    var rest := Put32(f.curidx) + sizes;
    assert s == [0] + (Put16(RRFRAG) + (Put16(f.fragsize) + rest));
    FragSize(f);
    FragLayoutAt(s, f, d);
  }

  lemma {:induction false} FragLayoutAt(s: seq<byte>, f: Frag, d: seq<byte>)
    requires |s| == 15 + |d|
    requires var sizes := Put32(f.curidx) + (Put32(f.rrsize) + (Put16(f.rrid) + d));
      s == [0] + (Put16(RRFRAG) + (Put16(f.fragsize) + sizes))
    ensures s[0] == 0 && s[1] == 0 && s[2] == 108
    ensures Net16(s, 3, f.fragsize) && Net32(s, 5, f.curidx) && Net32(s, 9, f.rrsize) && Net16(s, 13, f.rrid)
    ensures s[15..] == d
  {
    hide Put16, Put32, Net16, Net32;
    var ids := Put16(f.rrid) + d;
    var rest := Put32(f.curidx) + (Put32(f.rrsize) + ids);
    AtAll(s);
    AtSplit(s, 0, [0], Put16(RRFRAG) + (Put16(f.fragsize) + rest));
    AtSplit(s, 1, Put16(RRFRAG), Put16(f.fragsize) + rest);
    AtSplit(s, 3, Put16(f.fragsize), rest);
    AtSplit(s, 5, Put32(f.curidx), Put32(f.rrsize) + ids);
    AtSplit(s, 9, Put32(f.rrsize), ids);
    AtSplit(s, 13, Put16(f.rrid), d);
    AtNet16(s, 1, RRFRAG);
    IsMark(s);
    AtNet16(s, 3, f.fragsize);
    AtNet32(s, 5, f.curidx);
    AtNet32(s, 9, f.rrsize);
    AtNet16(s, 13, f.rrid);
  }

  lemma {:induction false} IsMark(s: seq<byte>)
    requires At(s, 0, [0]) && Net16(s, 1, RRFRAG)
    ensures s[0] == 0 && s[1] == 0 && s[2] == 108
  {
    assert s[0..1][0] == s[0];
  }

  /** is_rrfrag asks whether the two bytes behind the first zero are 0 and 108. */
  lemma {:induction false} FragMark(s: seq<byte>, z: nat)
    requires z + 3 <= |s| && s[z] == 0 && forall k :: 0 <= k < z ==> s[k] != 0
    ensures LooksLikeFrag(s) == Ok(s[z + 1] == 0 && s[z + 2] == 108)
  {
    FirstZeroIs(s, z);
  }

  /** A record with a name spelled out is taken for a fragment exactly if its type is
      the number 108. */
  lemma {:induction false} FragType(rr: ResourceRecord, ls: seq<Label>, rest: seq<byte>)
    requires rr.Sized() && LiteralName(rr, ls)
    ensures LooksLikeFrag(RecordToBytes(rr) + rest) == Ok(rr.typ == 108)
  {
    hide RecordToBytes, LiteralName;
    LiteralRecordRoundTrip(rr, ls, rest);
  }

  /** Which bytes are read as a fragment, and as which: the three marks, the fields
      where they belong, and in a response the data, all of it. */
  lemma {:induction false} FragReadExactly(s: seq<byte>, query: bool)
    ensures FragFromBytes(s, query).Ok? <==>
            |s| >= 15 && s[0] == 0 && s[1] == 0 && s[2] == 108
            && (query || 15 + (s[3] as int) * 256 + s[4] as int <= |s|)
    ensures FragFromBytes(s, query).Ok? ==>
      var f, used := FragFromBytes(s, query).value.value, FragFromBytes(s, query).value.used;
      && Net16(s, 3, f.fragsize) && Net32(s, 5, f.curidx) && Net32(s, 9, f.rrsize) && Net16(s, 13, f.rrid)
      && (if query then f.data == None && used == 15
          else used == 15 + f.fragsize <= |s| && f.data == Some(s[15..15 + f.fragsize]))
  {
    if |s| > 0 && s[0] == 0 {
      FirstZeroIs(s, 0);
    } else {
      assert FirstZero(s) > 0 || s == [];
    }
  }

  // ----- Records

  /** The name, ten bytes of fields, and the rdata. */
  lemma {:induction false} RecordLayout(rr: ResourceRecord)
    requires rr.Sized()
    ensures var s, n := RecordToBytes(rr), |rr.nameBytes|;
      && |s| == n + 10 + |rr.rdata| && s[..n] == rr.nameBytes && s[n + 10..] == rr.rdata
      && Net16(s, n, rr.typ) && Net16(s, n + 2, rr.clas) && Net32(s, n + 4, rr.ttl) && Net16(s, n + 8, |rr.rdata|)
  {
    hide Put16, Put32, Net16, Net32;
    var s, n := RecordToBytes(rr), |rr.nameBytes|;
    var size := Put16(|rr.rdata|) + rr.rdata;
    var ttl := Put32(rr.ttl) + size;
    AtAll(s);
    AtSplit(s, 0, rr.nameBytes, FieldBytes(rr));
    AtSplit(s, n, Put16(rr.typ), Put16(rr.clas) + ttl);
    AtSplit(s, n + 2, Put16(rr.clas), ttl);
    AtSplit(s, n + 4, Put32(rr.ttl), size);
    AtSplit(s, n + 8, Put16(|rr.rdata|), rr.rdata);
    AtNet16(s, n, rr.typ);
    AtNet16(s, n + 2, rr.clas);
    AtNet32(s, n + 4, rr.ttl);
    AtNet16(s, n + 8, |rr.rdata|);
  }

  // ----- Questions and messages

  /** The name, the type and the class. */
  lemma {:induction false} QuestionLayout(q: Question)
    requires QuestionToBytes(q).Ok?
    ensures NameToBytes(q.qname).Ok?
    ensures var s, name := QuestionToBytes(q).value, NameToBytes(q.qname).value;
      && |s| == |name| + 4 && s[..|name|] == name
      && Net16(s, |name|, q.qtype) && Net16(s, |name| + 2, q.qclass)
  {
    hide NameToBytes, Put16, Net16;
    var s, name := QuestionToBytes(q).value, NameToBytes(q.qname).value;
    AtAll(s);
    AtSplit(s, 0, name, Put16(q.qtype) + Put16(q.qclass));
    AtSplit(s, |name|, Put16(q.qtype), Put16(q.qclass));
    AtNet16(s, |name|, q.qtype);
    AtNet16(s, |name| + 2, q.qclass);
  }

  /** Six 16-bit numbers, then the questions, answers, authority and additional
      records in this order. */
  lemma {:induction false} MessageLayout(m: Message)
    requires m.Sized() && MessageToBytes(m).Ok?
    ensures QuestionsToBytes(m.questions).Ok?
    ensures var s := MessageToBytes(m).value;
      && Net16(s, 0, m.identification) && Net16(s, 2, m.flags) && Net16(s, 4, |m.questions|)
      && Net16(s, 6, |m.answers|) && Net16(s, 8, |m.authoritative|) && Net16(s, 10, |m.additional|)
      && s[12..] == QuestionsToBytes(m.questions).value + SectionToBytes(m.answers) + SectionToBytes(m.authoritative)
                    + SectionToBytes(m.additional)
  {
    hide QuestionsToBytes, SectionToBytes, HeaderBytes, Net16;
    var s, q := MessageToBytes(m).value, QuestionsToBytes(m.questions).value;
    var an, ns, ar := SectionToBytes(m.answers), SectionToBytes(m.authoritative), SectionToBytes(m.additional);
    AtFront(HeaderBytes(m), q + RecordsToBytes(m));
    HeaderLayout(s, m);
    assert s[12..] == q + (an + (ns + ar));
    assert q + (an + (ns + ar)) == q + an + ns + ar;
  }

  lemma {:induction false} HeaderLayout(s: seq<byte>, m: Message)
    requires m.Sized() && At(s, 0, HeaderBytes(m))
    ensures Net16(s, 0, m.identification) && Net16(s, 2, m.flags) && Net16(s, 4, |m.questions|)
    ensures Net16(s, 6, |m.answers|) && Net16(s, 8, |m.authoritative|) && Net16(s, 10, |m.additional|)
  {
    hide Put16, Net16;
    var ar := Put16(|m.additional|);
    var ns := Put16(|m.authoritative|) + ar;
    var an := Put16(|m.answers|) + ns;
    var qd := Put16(|m.questions|) + an;
    AtSplit(s, 0, Put16(m.identification), Put16(m.flags) + qd);
    AtSplit(s, 2, Put16(m.flags), qd);
    AtSplit(s, 4, Put16(|m.questions|), an);
    AtSplit(s, 6, Put16(|m.answers|), ns);
    AtSplit(s, 8, Put16(|m.authoritative|), ar);
    AtNet16(s, 0, m.identification);
    AtNet16(s, 2, m.flags);
    AtNet16(s, 4, |m.questions|);
    AtNet16(s, 6, |m.answers|);
    AtNet16(s, 8, |m.authoritative|);
    AtNet16(s, 10, |m.additional|);
  }

  /** A query with any opcode and any AA, TC, RD and RA bits arrives exactly as it was
      sent; its fragments carry no data. */
  lemma {:induction false} QueryArrives(m: Message, mid: nat)
    requires mid < 0x800 && m.flags as int == 0x10 * mid && MessageFits(m)
    ensures m.IsQuery() && Transmit(m) == Ok(m)
  {
    hide MessageToBytes, MessageFromBytes, QueryFlags, CanonicalQuestion;
    QueryBits(0, mid, 0);
    MessageRoundTrip(m);
    BareArrive(m.answers);
    BareArrive(m.authoritative);
    BareArrive(m.additional);
  }

  lemma {:induction false} BareArrive(ps: seq<PackedRR>)
    requires AllSized(ps) && SectionFits(ps, true)
    ensures ReceivedSection(ps, true) == ps
  {
    hide WireSafe;
    forall k | 0 <= k < |ps| ensures ReceivedPacked(ps[k], true) == ps[k] {
      assert PackedFits(ps[k], true);
    }
  }

  /** A follow-up request: flags 0, one question for the root with type 108 and class 1,
      and the fragments wanted in the additional section. */
  lemma {:induction false} FollowUpLayout(identification: u16, fs: seq<Frag>)
    requires AllBare(fs) && |fs| < 0x1_0000
    ensures var m := RequestMessage(identification, fs);
      && m.Sized() && MessageToBytes(m).Ok?
      && var s := MessageToBytes(m).value;
      && Net16(s, 0, identification) && Net16(s, 10, |fs|)
      && s[2..10] == [0, 0, 0, 1, 0, 0, 0, 0] && s[12..17] == [0, 0, 108, 0, 1]
      && s[17..] == SectionToBytes(AsRecords(fs))
  {
    var m := RequestMessage(identification, fs);
    RootQuestion();
    hide SectionToBytes, QuestionsToBytes, HeaderBytes;
    MessageLayout(m);
    NoRecords();
    var s, ar := MessageToBytes(m).value, SectionToBytes(AsRecords(fs));
    assert s[12..] == [0, 0, 108, 0, 1] + [] + [] + ar;
    assert s[12..17] == s[12..][..5] && s[17..] == s[12..][5..];
  }

  lemma {:induction false} RootQuestion()
    ensures QuestionsToBytes([Question([], RRFRAG, 1)]) == Ok([0, 0, 108, 0, 1])
  {
    hide NameToBytes;
    RootEncodes();
    var q := Question([], RRFRAG, 1);
    assert Put16(108) == [0, 108] && Put16(1) == [0, 1];
    assert [0] + ([0, 108] + [0, 1]) == [0, 0, 108, 0, 1];
    assert QuestionToBytes(q) == Ok([0, 0, 108, 0, 1]);
    OneQuestion(q);
  }

  lemma {:induction false} OneQuestion(q: Question)
    requires QuestionToBytes(q).Ok?
    ensures QuestionsToBytes([q]) == QuestionToBytes(q)
  {
    hide QuestionToBytes;
    assert [q][1..] == [] && QuestionsToBytes([]) == Ok([]);
    assert QuestionToBytes(q).value + [] == QuestionToBytes(q).value;
  }

  lemma {:induction false} NoRecords()
    ensures SectionToBytes([]) == []
  {
  }

  // ----- What is read is what is there

  lemma {:induction false} Got16(s: seq<byte>, at: nat)
    requires at + 2 <= |s|
    ensures Put16(Get16(s, at)) == s[at..at + 2]
  {
  }

  lemma {:induction false} Got32(s: seq<byte>, at: nat)
    requires at + 4 <= |s|
    ensures Put32(Get32(s, at)) == s[at..at + 4]
  {
    hide Put16, Get16;
    Got16(s, at);
    Got16(s, at + 2);
    assert s[at..at + 4] == s[at..at + 2] + s[at + 2..at + 4];
  }

  /** A record that has been read encodes to the bytes it was read from, and is not of
      type 108. */
  lemma {:induction false} RecordEncodesBack(s: seq<byte>)
    requires RecordFromBytes(s).Ok?
    ensures var (rr, used) := (RecordFromBytes(s).value.value, RecordFromBytes(s).value.used);
      rr.Sized() && used <= |s| && RecordToBytes(rr) == s[..used] && rr.typ != 108
  {
    hide NameFromBytes, FirstZero, Put16, Put32, Get16, Get32, RecordToBytes;
    var rr, used := RecordFromBytes(s).value.value, RecordFromBytes(s).value.used;
    RecordOfBytes(s, rr, |rr.nameBytes|, used);
  }

  lemma {:induction false} RecordOfBytes(s: seq<byte>, rr: ResourceRecord, n: nat, used: nat)
    requires rr.Sized() && n + 10 <= used <= |s| && rr.nameBytes == s[..n] && rr.rdata == s[n + 10..used]
    requires Get16(s, n) == rr.typ && Get16(s, n + 2) == rr.clas && Get32(s, n + 4) == rr.ttl
    requires Get16(s, n + 8) == |rr.rdata|
    ensures RecordToBytes(rr) == s[..used]
  {
    hide Put16, Put32, Get16, Get32;
    Got16(s, n);
    Got16(s, n + 2);
    Got32(s, n + 4);
    Got16(s, n + 8);
    JoinRecord(s, n, used);
  }

  lemma {:induction false} JoinRecord(s: seq<byte>, n: nat, used: nat)
    requires n + 10 <= used <= |s|
    ensures s[..n] + (s[n..n + 2] + (s[n + 2..n + 4] + (s[n + 4..n + 8] + (s[n + 8..n + 10] + s[n + 10..used]))))
            == s[..used]
  {
    assert s[n + 8..n + 10] + s[n + 10..used] == s[n + 8..used];
    assert s[n + 4..n + 8] + s[n + 8..used] == s[n + 4..used];
    assert s[n + 2..n + 4] + s[n + 4..used] == s[n + 2..used];
    assert s[n..n + 2] + s[n + 2..used] == s[n..used];
  }

  /** So does a fragment; in a query its bytes are the first fifteen. */
  lemma {:induction false} FragEncodesBack(s: seq<byte>, query: bool)
    requires FragFromBytes(s, query).Ok?
    ensures var (f, used) := (FragFromBytes(s, query).value.value, FragFromBytes(s, query).value.used);
      f.Sized() && used <= |s| && FragToBytes(f) == s[..used]
  {
    FragReadExactly(s, query);
    FragOfBytes(s, FragFromBytes(s, query).value.value, FragFromBytes(s, query).value.used);
  }

  lemma {:induction false} FragOfBytes(s: seq<byte>, f: Frag, used: nat)
    requires f.Sized() && 15 <= used <= |s| && s[0] == 0 && s[1] == 0 && s[2] == 108
    requires Net16(s, 3, f.fragsize) && Net32(s, 5, f.curidx) && Net32(s, 9, f.rrsize) && Net16(s, 13, f.rrid)
    requires s[15..used] == if f.data.Some? then f.data.value else []
    ensures FragToBytes(f) == s[..used]
  {
    hide Put16, Put32, Get16, Get32, Net16, Net32, FragToBytes;
    IsNet(s, f);
    FragIs(f, s[15..used]);
    Got16(s, 1);
    Got16(s, 3);
    Got32(s, 5);
    Got32(s, 9);
    Got16(s, 13);
    JoinFrag(s, used);
  }

  lemma {:induction false} FragIs(f: Frag, d: seq<byte>)
    requires f.Sized() && d == if f.data.Some? then f.data.value else []
    ensures FragToBytes(f)
            == [0] + (Put16(RRFRAG) + (Put16(f.fragsize) + (Put32(f.curidx) + (Put32(f.rrsize) + (Put16(f.rrid) + d)))))
  {
    hide Put16, Put32;
  }

  lemma {:induction false} IsNet(s: seq<byte>, f: Frag)
    requires |s| >= 15 && s[1] == 0 && s[2] == 108
    requires Net16(s, 3, f.fragsize) && Net32(s, 5, f.curidx) && Net32(s, 9, f.rrsize) && Net16(s, 13, f.rrid)
    ensures Get16(s, 1) == RRFRAG && Get16(s, 3) == f.fragsize && Get32(s, 5) == f.curidx
    ensures Get32(s, 9) == f.rrsize && Get16(s, 13) == f.rrid
  {
  }

  lemma {:induction false} JoinFrag(s: seq<byte>, used: nat)
    requires 15 <= used <= |s| && s[0] == 0
    ensures [0] + (s[1..3] + (s[3..5] + (s[5..9] + (s[9..13] + (s[13..15] + s[15..used]))))) == s[..used]
  {
    assert s[13..15] + s[15..used] == s[13..used];
    assert s[9..13] + s[13..used] == s[9..used];
    assert s[5..9] + s[9..used] == s[5..used];
    assert s[3..5] + s[5..used] == s[3..used];
    assert s[1..3] + s[3..used] == s[1..used];
  }

  /** A question with a compressed name, of n bytes, is read with the right type and
      class when the type is below 256, but with a length of one byte too many; and
      it never is read with its own length. */
  lemma {:induction false} CompressedQuestion(ls: seq<Label>, hi: byte, lo: byte, s: seq<byte>)
    requires ValidLabels(ls) && hi >= 192 && lo != 0 && At(s, 0, LabelBytes(ls) + [hi, lo])
    ensures var n, r := |LabelBytes(ls)| + 2, QuestionFromBytes(s);
      && (n + 5 <= |s| && s[n] == 0 ==>
            r.Ok? && Net16(s, n, r.value.value.qtype) && Net16(s, n + 2, r.value.value.qclass) && r.value.used == n + 5)
      && (r.Ok? ==> r.value.used > n + 4)
  {
    hide LabelBytes, NameFromBytes, FirstZero;
    LabelsShape(ls);
    NoZeroInCompressed(LabelBytes(ls), hi, lo, s);
    if FirstZero(s) < |s| {
      CompressedNameDecodes(ls, hi, lo, s);
    }
  }
}
