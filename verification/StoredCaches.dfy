/** responder_cache as it is in memory: the hash map of map.c, with the two bytes of
    an id for a key and the address of a cached record for a value. */
module StoredCaches {
  import opened Wire
  import opened OrderedMaps
  import opened Records
  import opened Messages
  import opened Requester
  import opened Responder
  import HashMap

  /** An id in memory, low byte first. */
  function KeyOf(id: u16): Key { [(id % 256) as byte, (id / 256) as byte] }

  lemma {:induction false} KeysDiffer(a: u16, b: u16)
    ensures KeyOf(a) == KeyOf(b) <==> a == b
  {
    assert KeyOf(a)[0] as int == a % 256 && KeyOf(a)[1] as int == a / 256;
    assert KeyOf(b)[0] as int == b % 256 && KeyOf(b)[1] as int == b / 256;
  }

  /** The map holds, for each id of the cache, the address of its record. */
  ghost predicate Stores(es: Entries, heap: seq<Record>, cache: Cache) {
    forall id: u16 :: Stored(es, heap, cache, id)
  }

  ghost predicate Stored(es: Entries, heap: seq<Record>, cache: Cache, id: u16) {
    match Lookup(es, KeyOf(id))
    case None => id !in cache
    case Some(address) => id in cache && 0 < address <= |heap| && heap[address - 1] == cache[id]
  }

  lemma {:induction false} PutStores(es: Entries, heap: seq<Record>, cache: Cache, id: u16, rr: Record)
    requires Unique(es) && Stores(es, heap, cache)
    ensures Stores(Put(es, KeyOf(id), |heap| + 1), heap + [rr], cache[id := rr])
  {
    hide Lookup, Put, KeyOf, Unique;
    var es', heap', cache' := Put(es, KeyOf(id), |heap| + 1), heap + [rr], cache[id := rr];
    forall k: u16 ensures Stored(es', heap', cache', k) {
      LookupPut(es, KeyOf(id), |heap| + 1, KeyOf(k));
      KeysDiffer(k, id);
      assert Stored(es, heap, cache, k);
    }
  }

  class StoredCache {
    const table: HashMap.HashMap
    /** The record at address p is heap[p - 1]. */
    var heap: seq<Record>
    /** The cache that this is. */
    ghost var contents: Cache

    ghost predicate Valid()
      reads this, table, table.buckets
    {
      table.Valid() && Unique(table.View()) && Stores(table.View(), heap, contents)
    }

    constructor (hash: Key -> u32)
      ensures Valid() && contents == map[] && fresh(table) && fresh(table.buckets)
    {
      table := new HashMap.HashMap(hash);
      heap, contents := [], map[];
    }

    /** hashmap_get for an id. */
    method Find(id: u16) returns (r: Option<Record>)
      requires Valid()
      ensures r == if id in contents then Some(contents[id]) else None
    {
      hide Lookup, KeyOf, Unique;
      assert Stored(table.View(), heap, contents, id);
      var found, address := table.Get(KeyOf(id));
      return if found then Some(heap[address - 1]) else None;
    }

    /** hashmap_set for an id, with a record of its own. */
    method Bind(id: u16, rr: Record)
      requires Valid()
      modifies this, table, table.buckets
      ensures Valid() && contents == old(contents)[id := rr]
      ensures table.buckets == old(table.buckets) || fresh(table.buckets)
    {
      hide Lookup, Put, KeyOf, Unique, Stores;
      PutStores(table.View(), heap, contents, id, rr);
      LookupPut(table.View(), KeyOf(id), |heap| + 1, KeyOf(id));
      table.Set(KeyOf(id), |heap| + 1);
      heap, contents := heap + [rr], contents[id := rr];
    }

    /** insert_into_state over the hash map. */
    method InsertIntoState(rr: Record, hash: seq<byte> -> u16) returns (r: Result<u16>)
      requires Valid()
      modifies this, table, table.buckets
      ensures Valid()
      ensures table.buckets == old(table.buckets) || fresh(table.buckets)
      ensures match InsertRecord(old(contents), hash, rr)
              case Ok((after, id)) => contents == after && r == Ok(id)
              case Err(e) => contents == old(contents) && r == Err(e)
    {
      hide Unique, Stores, RecordToBytes;
      var rrout := ResourceRecordToBytes(rr);
      var id := hash(rrout);
      var there := Find(id);
      if there.None? {
        Bind(id, rr);
        return Ok(id);
      }
      if SameRecord(rr, there.value) {
        return Ok(id);
      }
      id := Succ(id);
      var tries := 0;
      there := Find(id);
      while there.Some? && tries < 0x1_0000
        invariant Valid() && contents == old(contents) && table.buckets == old(table.buckets)
        invariant 0 <= tries <= 0x1_0000 && there.Some? == (id in contents)
        invariant FirstUnused(contents, Succ(hash(rrout))) == FirstUnused(contents, id, tries)
        decreases 0x1_0000 - tries
      {
        id, tries := Succ(id), tries + 1;
        there := Find(id);
      }
      if tries == 0x1_0000 {
        return Err(NeverTerminates);
      }
      Bind(id, rr);
      return Ok(id);
    }

    /** The lookups that answer a follow-up request. */
    method AnswerFrags(m: Message) returns (r: Result<Message>)
      requires Valid() && |m.additional| < 0x1_0000
      ensures r == Answer(contents, m)
    {
      hide Unique, Stores, RecordToBytes, FragsOf, MarkResponse;
      ghost var cache := contents;
      var rrfrags := GetRRFrags(m.additional);
      var toSend: seq<Frag> := [];
      assert rrfrags[..0] == [] && AnswerSlices(cache, []) == Ok([]);
      for i := 0 to |rrfrags|
        invariant AnswerSlices(cache, rrfrags[..i]) == Ok(toSend)
      {
        SlicesStep(cache, rrfrags, i);
        var slice := Cut(rrfrags[i]);
        if slice.Err? {
          return Err(slice.error);
        }
        toSend := toSend + [slice.value];
      }
      assert rrfrags[..|rrfrags|] == rrfrags;
      return Ok(Message(m.identification, MarkResponse(m.flags), [], AsRecords(toSend), [], []));
    }

    method Cut(rrf: Frag) returns (r: Result<Frag>)
      requires Valid()
      ensures r == Slice(contents, rrf)
    {
      hide Unique, Stores, RecordToBytes;
      var rr := Find(rrf.rrid);
      if rr.None? {
        return Err(UnknownRecord);
      }
      var rrbytes := ResourceRecordToBytes(rr.value);
      if rrf.curidx + rrf.fragsize > |rrbytes| {
        return Err(OutOfBounds);
      }
      return Ok(Frag(rrf.fragsize, rrf.curidx, rrf.rrsize, rrf.rrid,
                     Some(rrbytes[rrf.curidx..rrf.curidx + rrf.fragsize])));
    }
  }
}
