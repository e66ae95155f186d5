/** What the follow-ups cost on the wire, and what goes wrong at the edges. */
module Budget {
  import opened Wire
  import opened Names
  import opened Records
  import opened Messages
  import opened Reassembly
  import opened ArrivalOrder
  import opened Requester
  import opened Responder
  import opened Shrinking
  import opened Stopping
  import opened Progress
  import opened Delivery
  import opened Asking
  import opened Session
  import opened EndToEnd
  import opened Upstream

  // ----- The size of requests and replies

  lemma {:induction false} FragsWidth(fs: seq<Frag>)
    requires forall i :: 0 <= i < |fs| ==> fs[i].Sized() && fs[i].data.Some?
    ensures AllSized(AsRecords(fs)) && Width(AsRecords(fs)) == Cost(fs) + 10 * |fs|
  {
    hide FragToBytes, SectionToBytes, Cost;
    if fs == [] {
      assert AsRecords(fs) == [];
      NoFrags();
    } else {
      var n := |fs| - 1;
      var init, last := fs[..n], [Fragment(fs[n])];
      FragsWidth(init);
      assert AsRecords(fs) == AsRecords(init) + last && fs == init + [fs[n]];
      OneFrag(fs[n]);
      CostMore(init, fs[n]);
      WidthMore(AsRecords(init), last);
    }
  }

  lemma {:induction false} NoFrags()
    ensures Width([]) == 0 && Cost([]) == 0
  {
  }

  lemma {:induction false} OneFrag(f: Frag)
    requires f.Sized() && f.data.Some?
    ensures AllSized([Fragment(f)]) && Width([Fragment(f)]) == f.fragsize + 15
  {
    FragSize(f);
    hide FragToBytes;
    assert SectionToBytes([Fragment(f)]) == FragToBytes(f) + SectionToBytes([]);
  }

  /** What the fragments take on the wire: 15 bytes each, and their data. */
  function WireCost(fs: seq<Frag>): nat {
    if fs == [] then 0 else WireCost(fs[..|fs| - 1]) + fs[|fs| - 1].fragsize + 15
  }

  lemma {:induction false} WireCostIs(fs: seq<Frag>)
    ensures WireCost(fs) == Cost(fs) + 10 * |fs|
  {
    if fs != [] {
      WireCostIs(fs[..|fs| - 1]);
    }
  }

  /**
   The request is packed to a size of 12 bytes and five more for each fragment
   than the data it asks for, at most five over the limit. That is the size of
   neither message: the reply has ten bytes more for each of its n fragments,
   so that it may exceed the limit by 5 + 10 n bytes, and does exactly when its
   fragments take more than the limit less twelve.
   */
  lemma {:induction false} ReplySize(form: Form, cache: Cache, pm: Partial, recs: seq<ResourceRecord>, ids: seq<u16>,
                                     identification: u16, maxUdp: nat)
    returns (k: Packing, reply: Message)
    requires Cast(recs, ids) && pm.Shaped() && Good(form, pm, recs, ids, Zeros(|recs|)) && Serves(cache, recs, ids)
    requires 12 <= maxUdp <= 65530
    ensures PackAll(pm, maxUdp) == Ok(k) && k.size as int == 12 + Cost(k.frags) <= maxUdp + 5
    ensures AllBare(k.frags) && SendRequest(identification, k.frags).Ok?
    ensures Answer(cache, SendRequest(identification, k.frags).value) == Ok(reply) && reply.Sized()
    ensures MessageToBytes(reply).Ok? && |MessageToBytes(reply).value| == k.size + 10 * |k.frags|
    ensures |MessageToBytes(reply).value| > maxUdp <==> 12 + WireCost(k.frags) > maxUdp
  {
    var ws, idx, fs;
    k, ws, idx, fs := RequestPlan(form, pm, recs, ids, maxUdp);
    PackedFacts(form, pm.slots, k, recs, ids, ws, idx, fs, maxUdp);
    assert k.size as int == 12 + Cost(fs);
    hide PackedSoFar, Good, PackAll, Plan, Serves, Cast, SendRequest, Answer, MarkResponse, QueryFlags, FragsOf,
         MessageToBytes;
    BareCost(fs);
    PackedIsBare(pm, maxUdp);
    CostBound(fs);
    RequestArrives(identification, k.frags);
    var request := SendRequest(identification, k.frags).value;
    AnswerIsPlan(cache, k.slots, recs, ids, ws, idx, fs, request);
    reply := Answer(cache, request).value;
    FragsWidth(fs);
    ReplyBytes(reply, fs);
    WireCostIs(k.frags);
  }

  lemma {:induction false} ReplyBytes(reply: Message, fs: seq<Frag>)
    requires |fs| < 0x1_0000 && AllSized(AsRecords(fs))
    requires reply == Message(reply.identification, reply.flags, [], AsRecords(fs), [], [])
    ensures reply.Sized() && MessageToBytes(reply).Ok?
    ensures |MessageToBytes(reply).value| == 12 + Width(AsRecords(fs))
  {
    assert reply.Records() == AsRecords(fs);
    MessageSize(reply);
  }

  lemma {:induction false} BareCost(fs: seq<Frag>)
    ensures Cost(Bare(fs)) == Cost(fs)
  {
    if fs != [] {
      BareCost(fs[..|fs| - 1]);
      assert Bare(fs)[..|fs| - 1] == Bare(fs[..|fs| - 1]);
    }
  }

  // ----- The dynamic form and empty fragments

  /** All fragments but the last one cut are empty. */
  lemma {:induction false} OthersAreEmpty(cache: Cache, m: Message, first: Message, q: seq<byte>, recs: seq<Record>,
                                          ids: seq<u16>, limit: nat, last: Option<nat>, i: nat)
    requires |recs| == |ids| && Shrank(cache, m, first, q, recs, ids, limit, last)
    requires i < |recs| && first.Records()[i].Fragment? && last != Some(i)
    ensures EmptyFragment(Dynamic, first.Records()[i])
  {
    hide Bound, LastFrag, RecordToBytes, Width;
    var k: Shrunk :| k.records == first.Records() && Outcome(cache, DNSMESSAGEHEADER + |q|, limit, k, recs, ids, last);
    assert Untouched(cache, k, recs, ids, i);
  }

  /** For the dynamic form the responder's first reply can be completed by
      follow-ups only when it holds a single fragment. */
  lemma {:induction false} DynamicNeedsOneFragment(cache: Cache, m: Message, first: Message, q: seq<byte>,
                                                   recs: seq<Record>, ids: seq<u16>, limit: nat, last: Option<nat>,
                                                   pm: Partial)
    requires |recs| == |ids| && Shrank(cache, m, first, q, recs, ids, limit, last) && pm.Shaped()
    requires CanComplete(Dynamic, first, pm) && !MessageComplete(pm)
    ensures forall i :: 0 <= i < |recs| && first.Records()[i].Fragment? ==> last == Some(i)
  {
    hide Outcome, EmptyFragment;
    forall i | 0 <= i < |recs| && first.Records()[i].Fragment? ensures last == Some(i) {
      if last != Some(i) {
        OthersAreEmpty(cache, m, first, q, recs, ids, limit, last, i);
        assert false;
      }
    }
  }
}
