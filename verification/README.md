# Fragmented DNS over UDP, verified

Post-quantum signatures make DNS responses too large for UDP. Two daemons work
around that. The responder's daemon shrinks a response to a byte budget: it
replaces records by RRFRAG pseudo-records, which carry a first piece of a record,
its full length and an id (rrid), and it keeps the records in a cache. The
requester's daemon sets up a table of 32-byte blocks for each record, asks for the
missing blocks with follow-up queries that have a byte budget of their own, puts
the pieces together in whatever order they come, and finally forwards the rebuilt
message. Around this protocol stand a DNS wire codec that tells records and
fragments apart by looking at bytes, an open-addressing hash map in which all
state of the daemons lives, and the checksum of the IP headers they write.

This project models those parts in Dafny and proves, from the upstream server's
message to the requester's, what the two daemons achieve together and exactly
when they fail.

## The main results

- **End to end** (`Recovery.UpstreamDecided`, on `Upstream.UpstreamToRequester` and
  `EndToEnd.RunRebuilds`). For any upstream message that the codec carries, any cache,
  any hash function, any UDP limit and any budget up to 65530 bytes, the sizes and ids
  of the records decide beforehand, with an if-and-only-if, whether the message gets
  through (`Recovery.GetsThrough`). If it does, a run completes within as many rounds
  as blocks are missing, whatever the responder answers to others in between, and gives
  back exactly the upstream message; if not, no run of any length gives a message back.
  Every message of the run passes through its bytes.
- **The same on the objects** (`Exchange.Relay`). The responder's shrinking loop on
  its cache, both codecs, the slicing of cached records and the requester's partial
  message, called in turn: what is forwarded is the upstream message, in exactly the
  runs that the theorem above names.
- **First reply** (`Upstream.FirstReplyFits`, `FirstReplyFailsExactly`,
  `ReplyFaultsExactly`). Its size is the one that the shrinking loop keeps track of,
  at most the UDP limit less nine bytes. Which records are replaced, which one is
  cut and to how many bytes, that a record is advertised with length 0, that two fragments share an rrid,
  and that no reply can be made are each decided, if and only if, by the sizes of
  the records and their ids before the loop.
- **Reassembly** (`ArrivalOrder.DynamicRefinesStatic`, `OrderDoesNotMatter`).
  Appending fragments and moving them at the end gives, for every order of
  arrival, what writing each to its place gives; `EmptyFirstFragment` is the one
  case in which the two forms differ.
- **Requests** (`Asking.RequestPlan`, `EndToEnd.RequestsAreDisjoint`,
  `EndToEnd.RequestsAddUp`). A request asks for as much as its budget allows, first
  come first served; no byte is requested twice in a run, and what is requested is
  exactly what arrives. `Session.FollowUpAnswered` says which requests are answered,
  and with which bytes and flags.
- **Ids** (`Responder.InsertGives`, `InsertAgain`, `InsertAllAgain`). Which id a record
  gets, and that a record or message that comes again changes nothing if and only if it
  got its own place.
- **Wire codec** (`Names`, `Records`, `Messages`). Round trips for names, records,
  fragments and messages with mixed sections, with the exact conditions under
  which records with compressed names survive; `WireFormat` ties them to the bytes,
  field by field, as numbers.
- **Hash map** (`HashMap`, `HashTables`, `OrderedMaps`). The bucket array with its
  list refines a finite map with insertion order, over any sequence of operations;
  `StoredCaches` puts the responder's cache on top of it.

## Layout

`Wire`, `Names`, `Records`, `Messages` and `MessageBuffers` are the codec: value
functions, and the C code's cursor loops as methods proved equal to them;
`WireFormat` is the format in numbers.
`Reassembly`, `ArrivalOrder`, `Requester`, `Progress`, `Delivery`, `Asking` and
`Bookkeeping` are the requester; `PartialRecords`, `PartialMessages` and
`PartialRequests` hold its objects and loops. `Responder`, `Shrinking`, `Stopping`
and `ResponderLoops` are the responder. `Session`, `EndToEnd`, `Failures`, `Tallies`,
`Upstream` and `Recovery` put both together, `Repeats` is about what comes twice or
unasked, `Exchange` does so on the objects, `Budget` adds
what the follow-ups cost, and `Example` holds small cases. `OrderedMaps`,
`HashTables` and `HashMap` are the hash map, `StoredCaches` is the responder's cache
in it, and `Checksum` is the IP checksum.

Conventions. Undefined behaviour, failed assertions and loops that never end in
the C code are outcomes `Err(...)` of the model, so that the theorems speak about
them instead of ruling them out. A `Form` is `Dynamic` for the reassembler of
`daemon.c` and `test/sandbox.c`, which appends and relocates, and `Static` for that
of `test/original.c`. Integers carry the width of the C type where it can matter
(`u16`, `u32`, explicit `%`). Every lemma switches automatic induction off and
makes its recursive calls itself.

Where code and intent differ, the model follows the code, with these exceptions:
`copy_section` in `daemon.c` uses fields declared only in `test/sandbox.h`, drops
the results of `realloc` (the assignments of `test/sandbox.c:160` and `:172` are
used), and calls `rr_to_bytes` for `resource_record_to_bytes`;
`copy_message_contents` allocates the answer section with one count and fills it
with another (`daemon.c:374-375`), which the model reports as an error when they
differ; the test reassemblers have their `memcpy` commented out
(`test/original.c:128`, `test/sandbox.c:181`) and read all sizes from element 0,
where the model copies and uses each fragment's own size; the second branch of
`insert_into_state` caches the caller's record instead of a copy.

What turned out false of the code, with the exact condition or a concrete case:

- A slot whose first fragment is empty stops the dynamic form for ever
  (`EmptyFirstFragment`, `GrowTerminates`). All fragments of a first reply but one
  are empty, so the dynamic form completes by follow-ups only when a single record
  was replaced (`DynamicNeedsOneFragment`).
- The dynamic form therefore gets a message through by follow-ups exactly when the loop
  replaces one record only, cuts it, and has room for a block of it
  (`Recovery.KeepsData`, `UpstreamDecided`).
- A first reply without answers cannot be completed by follow-ups
  (`EndToEnd.CanComplete`, `RunRebuilds`): the follow-up replies come in the answer
  section, for which nothing has been allocated.
- A record that the loop cuts is advertised with length 0, and lost, if and only if
  it is over the limit by at least its data and its name less five bytes, or its
  name less five bytes is at least its data and that overshoot
  (`Stopping.RoomExactly`): the code measures the overshoot with `abs`, so a long
  name counts against the data although it leaves more room. Lifted to the message
  this is `Stopping.CutWithoutRoom`; no run gives such a message back
  (`Failures.HopelessIsNeverRebuilt`). `Example` has a message with too little room,
  one with room enough but a long name, and the case of every record with a
  compressed name of two bytes and four bytes of data.
- Equal records may share an id. When two that do are both replaced
  (`Stopping.SharedPieces`), the fragments of both go to the first of their slots,
  and the message is never complete (`Upstream.SharedIdsNeverComplete`).
- With names of fewer than five bytes the loop may break off with a message that
  fits although its floor, with every record replaced, would not. `Stopping.Fails` is
  the exact condition of failure; for longer names the floor alone decides
  (`FloorDecides`).
- With a budget below 44 bytes no block fits into a request
  (`EndToEnd.TinyBudgetStalls`).
- The budget of a request is not the size of its reply, which may exceed it by
  5 + 10n bytes for n fragments (`ReplySize`, `Example.ReplyExceedsLimit`).
- Records with compressed names survive only with types below 256 (and not 108);
  one of type 0 may be taken for a fragment (`CompressedRecordRoundTrip`,
  `CompressedRecordDispatch`).
- A question with a compressed name is read with one byte too many
  (`WireFormat.CompressedQuestion`), and a name whose last label reaches the first zero
  or just behind it is read too long or refused (`LastLabelDecides`).
- The static form counts a repeated fragment twice (`Repeats.StaticCountsTwice`).
- The name encoder writes past its buffer for some names
  (`EncoderStaysInsideExactly`).
- `csum` on odd lengths is the Internet checksum only when the last byte is zero
  (`CsumIsInternetChecksum`).

## Model

| member | source | states |
|---|---|---|
| Names.DnsNameFromBytes | pqc-dynamic/src/resource_record.c:9-67 | the label loop over the scratch buffer computes `NameFromBytes`, the function that `LiteralNameDecodes`, `NameRoundTrip` and `CompressedNameDecodes` are about; every access within bounds |
| Names.DnsNameToBytes | pqc-dynamic/src/resource_record.c:69-99 | the encoder loop writes exactly `NameToBytes` into its `name_len + 1` buffer, or reports that it would leave it |
| Names.LiteralNameDecodes | pqc-dynamic/src/resource_record.c:9-67 | a name spelled out in labels decodes to its dotted text and consumes exactly its own bytes, whatever follows |
| Names.NameRoundTrip | pqc-dynamic/src/resource_record.c:9-99 | decoding and encoding are inverse in both directions for every list of labels without zeros and dots; the empty text and "." both encode to one zero byte |
| Names.EncoderStaysInsideExactly | pqc-dynamic/src/resource_record.c:69-99 | all writes stay in the `name_len + 1` buffer if and only if the text has a shape that a caller can check |
| Names.CompressedNameDecodes | pqc-dynamic/src/resource_record.c:20-40 | a name that ends in a pointer is read with its true length exactly when the byte behind it is zero |
| Names.LastLabelDecides | pqc-dynamic/src/resource_record.c:23-57 | a label that is not over before the first zero decides: a name with the zero in it, a refusal, or the placeholder of a pointer, each for exactly one case of its length byte |
| Records.ResourceRecordToBytes | pqc-dynamic/src/resource_record.c:235-279 | the cursor writes assemble `RecordToBytes`, inverse to decoding by `RecordRoundTrip` |
| Records.ResourceRecordFromBytes | pqc-dynamic/src/resource_record.c:154-233 | the cursor reads compute `RecordFromBytes`, with every out-of-bounds read and error return as an outcome |
| Records.RRFragToBytes | pqc-dynamic/src/rrfrag.c:115-167 | the cursor writes assemble `FragToBytes`: 15 bytes, of which `FragLayout` gives each, and the data |
| Records.RRFragFromBytes | pqc-dynamic/src/rrfrag.c:53-113 | the cursor reads compute `FragFromBytes`; a query's fragment has no data |
| Records.IsRRFrag | pqc-dynamic/src/rrfrag.c:241-254 | the scan to the first zero and the look at the two bytes behind it compute `LooksLikeFrag`, of which `FragMark` says that they must be 0 and 108 |
| Records.PackedRRToBytes | pqc-dynamic/src/packedrr.c:55-73 | record or fragment, by kind |
| Records.PackedRRFromBytes | pqc-dynamic/src/packedrr.c:75-98 | record or fragment, by what `is_rrfrag` sees |
| Records.LiteralRecordRoundTrip | pqc-dynamic/src/resource_record.c:154-279 | a record with a literal name is read back from exactly its own bytes if and only if its type is not 108, and `is_rrfrag` takes it for a fragment only then |
| Records.CompressedRecordRoundTrip | pqc-dynamic/src/resource_record.c:154-279 | a record with a compressed name is read back, name bytes included, if and only if its type is below 256 and not 108 |
| Records.CompressedRecordDispatch | pqc-dynamic/src/rrfrag.c:241-254 | for compressed names the scan stops inside the fields: types 1 to 255 are never taken for fragments, type 0 exactly when the class starts with the byte 108 |
| Records.FragRoundTrip | pqc-dynamic/src/rrfrag.c:53-167 | every fragment is recognised and read back from its own bytes, up to null versus empty data |
| Records.PackedRoundTrip | pqc-dynamic/src/packedrr.c:55-98 | records and fragments decode to themselves from exactly their own bytes, whatever follows them in the section |
| Messages.MarkResponse | pqc-dynamic/src/daemon.c:1540-1541 | the QR bit is set and every other flag stays as it is, so that the result is never a query's |
| Messages.QueryBits | pqc-dynamic/src/dns_message.c:35-44 | of all flags exactly those with QR and RCODE zero are a query's, whatever the eleven bits between them |
| Messages.ContainsFragExactly | pqc-dynamic/src/dns_message.c:691-705 | a message contains fragments if and only if one of its three record sections does |
| Messages.QuestionToBytesBuffer | pqc-dynamic/src/question.c:83-118 | the buffer writes assemble `QuestionToBytes` |
| Messages.QuestionFromBytesBuffer | pqc-dynamic/src/question.c:42-81 | the scan and the cursor compute `QuestionFromBytes`, which reads type and class behind the decoded name but reports a length from the scan |
| Messages.QuestionRoundTrip | pqc-dynamic/src/question.c:42-118 | a question with a canonical name is read back from exactly its own bytes |
| Messages.SectionRoundTrip | pqc-dynamic/src/dns_message.c:93-476 | a section that mixes records and fragments, with nothing between them, is read back record by record |
| Messages.MessageRoundTrip | pqc-dynamic/src/dns_message.c:93-476 | every message of fitting questions, records and fragments arrives as sent in all four sections, up to null versus empty data |
| MessageBuffers.DnsMessageToBytes | pqc-dynamic/src/dns_message.c:255-476 | the loops that encode every part, add up lengths and copy into one buffer compute `MessageToBytes` |
| MessageBuffers.DnsMessageFromBytes | pqc-dynamic/src/dns_message.c:93-253 | the loops over the counts with a moving cursor compute `MessageFromBytes`; whether fragments carry data is decided by the flags as `QueryBits` says |
| WireFormat.NameBytes | pqc-dynamic/src/resource_record.c:9-99 | a name of two labels and the root, in numbers, both ways |
| WireFormat.CompressedNameText | pqc-dynamic/src/resource_record.c:24-35 | a pointer is printed as the placeholder's twelve characters |
| WireFormat.FragLayout | pqc-dynamic/src/rrfrag.c:115-167 | each of the 15 header bytes: 0, 0, 108, then fragsize, curidx, rrsize and rrid in network order, then the data |
| WireFormat.FragMark | pqc-dynamic/src/rrfrag.c:241-254 | is_rrfrag holds if and only if 0 and 108 stand behind the first zero |
| WireFormat.FragType | pqc-dynamic/include/rrfrag.h:4-5 | a record with a name spelled out is taken for a fragment if and only if its type is 108 |
| WireFormat.FragReadExactly | pqc-dynamic/src/rrfrag.c:53-113 | which bytes are read as a fragment, if and only if, and where each field is read from |
| WireFormat.RecordLayout | pqc-dynamic/src/resource_record.c:235-279 | name, type, class, ttl, rdsize and rdata in their places and in network order |
| WireFormat.QuestionLayout | pqc-dynamic/src/question.c:83-118 | name, type and class in their places and in network order |
| WireFormat.MessageLayout | pqc-dynamic/src/dns_message.c:255-476 | the six header numbers, and the four sections in their order |
| WireFormat.QueryArrives | pqc-dynamic/src/dns_message.c:143-144 | a query with any opcode, AA, TC, RD and RA bits and fragments without data decodes to itself |
| WireFormat.FollowUpLayout | pqc-dynamic/src/daemon.c:1107-1112 | the bytes of a follow-up request: flags 0, one question for the root with type 108 and class 1, and the fragments |
| WireFormat.RecordEncodesBack | pqc-dynamic/src/resource_record.c:154-279 | a record that has been read encodes to the bytes it was read from |
| WireFormat.FragEncodesBack | pqc-dynamic/src/rrfrag.c:53-167 | so does a fragment |
| WireFormat.CompressedQuestion | pqc-dynamic/src/question.c:42-81 | a question with a compressed name never is read with its own length, and with exactly one byte too many when its type is below 256 |
| Reassembly.GrowTerminates | pqc-dynamic/src/daemon.c:221-223 | the doubling loop ends exactly when some number of doublings is enough, that is unless it starts from a capacity of 0 |
| Reassembly.GrowDoubles | pqc-dynamic/src/daemon.c:221-223 | the new capacity is the first in the row of doublings that is large enough |
| Reassembly.HeadersDouble | pqc-dynamic/src/daemon.c:233-243 | the header table doubles up to 32768 headers; beyond, its 16-bit capacity wraps to 0 and the loop never ends |
| Reassembly.CountMark | pqc-dynamic/src/daemon.c:247-253 | marking blocks not yet received raises the count of received markers and the bytes they stand for by exactly their own number |
| Reassembly.StaticStep | test/original.c:87-142 | a welcome fragment is accepted, keeps counters and markers in agreement, and puts its data in its place |
| Reassembly.DynamicStep | pqc-dynamic/src/daemon.c:194-281 | the same for the appending form: the buffer grows by the data, headers say where it belongs, and what relocation would give has the data in its place |
| Reassembly.StuckStep | pqc-dynamic/src/daemon.c:221-223 | a slot with an empty buffer never gets past a nonempty fragment |
| ArrivalOrder.AfterAll | pqc-dynamic/src/daemon.c:194-281 | after any conforming list of fragments exactly their blocks are marked, and each fragment's data is in place |
| ArrivalOrder.DynamicRefinesStatic | pqc-dynamic/src/daemon.c:194-281 | for every order of arrival the appending form accepts what the placing form accepts, with the same markers, counters and completion flag; its buffer is the fragments back to back until relocation gives the same record |
| ArrivalOrder.OrderDoesNotMatter | test/sandbox.c:127-221 | two orders of the same fragments, in either form, complete together and hold the same record |
| ArrivalOrder.EmptyFirstFragment | pqc-dynamic/src/daemon.c:200-223 | after an empty first fragment the dynamic form never ends on the next nonempty one, while the static form is unaffected |
| PartialRecords.PartialRR.constructor | pqc-dynamic/src/daemon.c:69-84 | a new slot: nothing allocated, nothing received |
| PartialRecords.PartialRR.Allocate | pqc-dynamic/src/daemon.c:186-213 | the first fragment sets up free block markers, the buffer and one header; later fragments change nothing |
| PartialRecords.PartialRR.GrowBytes | pqc-dynamic/src/daemon.c:221-231 | the doubling loop on bytes_capacity keeps what the buffer holds, and its end is that of `Grow` |
| PartialRecords.PartialRR.Relocate | pqc-dynamic/src/daemon.c:268-281 | the relocation loop leaves the appended data scattered by the headers, and stays in the buffer exactly when headers and data fit it |
| PartialRecords.PartialRR.AppendFragment | pqc-dynamic/src/daemon.c:165-281 | the object's whole new state after a fragment is the dynamic `Absorb` of the old one, or the same failure |
| PartialRecords.PartialRR.PlaceFragment | test/original.c:87-142 | the object's whole new state after a fragment is the static `Absorb` of the old one, or the same failure |
| PartialRecords.PartialRR.TakeWhole | pqc-dynamic/src/daemon.c:324-335 | a slot that takes a record sent whole holds its encoding and is complete |
| PartialMessages.PartialDNSMessage.constructor | pqc-dynamic/src/daemon.c:111-137 | a message of which nothing is known |
| PartialMessages.PartialDNSMessage.FindPartialRR | pqc-dynamic/src/daemon.c:139-163 | the three loops find the first slot with the rrid in the order answers, authoritative, additional, and its section |
| PartialMessages.PartialDNSMessage.CopyFragment | pqc-dynamic/src/daemon.c:165-295 | only the slot that owns the rrid changes, by `Absorb`, and its own section's counter moves when it completes |
| PartialMessages.PartialDNSMessage.CopyWhole | pqc-dynamic/src/daemon.c:297-335 | the first slot of the section that waits for a whole record takes it and is counted; nothing else changes |
| PartialMessages.PartialDNSMessage.CopyRecords | pqc-dynamic/src/daemon.c:165-338 | the loop over a section's records equals `CopySection` on the objects' values, no two slots sharing an object |
| PartialMessages.PartialDNSMessage.CopyMessageContents | pqc-dynamic/src/daemon.c:339-410 | header, slots and sections are set up from the first message and filled from every message as `CopyMessage` says |
| PartialMessages.PartialDNSMessage.IsComplete | pqc-dynamic/src/daemon.c:412-419 | the three counters are compared with the three counts, once these are known |
| Bookkeeping.BookkeepingStep | pqc-dynamic/src/daemon.c:245-335 | an expected record keeps markers, counters and section counters in agreement, in whatever order it comes, and leaves complete slots alone |
| Bookkeeping.BookkeepingHolds | pqc-dynamic/src/daemon.c:165-338 | over every sequence of expected records nothing fails, slot counters equal marker counts and header sums, section counters equal the numbers of complete slots, and no slot is counted twice |
| Bookkeeping.CompleteWhenAllAre | pqc-dynamic/src/daemon.c:412-419 | message_complete holds exactly when every slot is complete |
| Repeats.DynamicRefusesRepeats | pqc-dynamic/src/daemon.c:214-219 | the dynamic form takes no block that it has, none outside the record, and nothing once the record is complete |
| Repeats.StaticRefusesBeyond | test/original.c:104-130 | the static form takes nothing beyond the blocks and the buffer |
| Repeats.StaticCountsTwice | test/original.c:104-142 | the static form takes a fragment again and counts it twice, or stops when that makes up the number of blocks |
| Repeats.WholeAgain | pqc-dynamic/src/daemon.c:282-338 | whole records that come once more are passed over |
| Repeats.StrangerStops | pqc-dynamic/src/daemon.c:139-185 | a fragment that was not announced ends the daemon |
| Repeats.LaterMessages | pqc-dynamic/src/daemon.c:339-410 | later messages leave the header alone, and may not bring questions or answers where the first had none |
| Progress.SlotReceives | pqc-dynamic/src/daemon.c:194-295 | the awaited piece moves a slot on by exactly its waiting blocks, with the record's bytes in place, unless the slot was started by an empty fragment |
| Progress.SlotStarts | pqc-dynamic/src/daemon.c:186-253 | a first fragment of whole blocks starts a slot with exactly these blocks received |
| Progress.SlotAsks | pqc-dynamic/src/daemon.c:886-946 | the free blocks are a suffix of the table, so that the plain count asks for one contiguous range within the record, marks exactly that range as waiting, and costs its bytes and five |
| PartialRequests.ScanFree | pqc-dynamic/src/daemon.c:888-896 | the loop finds the first free block and the number of free ones, wherever they are |
| PartialRequests.AskSlot | pqc-dynamic/src/daemon.c:886-944 | the request for one slot is `AskFor`, and of the slot only the markers of the requested blocks change |
| PartialRequests.PackSlots | pqc-dynamic/src/daemon.c:868-962 | the loop over the rrids of a section equals `PackFrom` on the slots' values, including its failed assertion and its early ends |
| PartialRequests.ListIncomplete | pqc-dynamic/src/daemon.c:1014-1030 | the two loops give the number of incomplete slots and the rrids among them |
| PartialRequests.PackFollowUp | pqc-dynamic/src/daemon.c:1012-1087 | the lists and the three calls of pack_section together equal `PackAll` |
| PartialRequests.Rebuild | pqc-dynamic/src/daemon.c:817-866 | every slot's first rrsize bytes are decoded, in order, or the first failure is reported |
| PartialRequests.OnReply | pqc-dynamic/src/daemon.c:964-1111 | requester_thread forwards the rebuilt message if all is there after copying, and otherwise asks for what is missing |
| Delivery.FillAll | pqc-dynamic/src/daemon.c:374-410 | the first reply always goes in: every slot gets its own record, and exactly the slots of empty fragments are left without a buffer |
| Delivery.DeliverAll | pqc-dynamic/src/daemon.c:165-338 | a follow-up reply never fails except at a slot without a buffer; each awaited block becomes received, and the invariant holds again |
| Asking.RequestPlan | pqc-dynamic/src/daemon.c:868-1087 | the request never runs into an error, asks each of its slots for exactly the blocks that become waiting, costs 12 bytes and five more per fragment than its data, at most the limit plus five, is not empty when something is missing and 44 bytes are allowed, and is greedy: every incomplete slot is asked for all that it lacks, or else no further block would have fitted and no slot behind it is asked |
| Asking.GoodAfterAsking | pqc-dynamic/src/daemon.c:921-942 | asking changes markers only: counters, data and the number of missing blocks stay, and the reply that is awaited is known |
| Asking.CountersDecide | pqc-dynamic/src/daemon.c:412-419 | with counters that count complete slots, message_complete holds exactly when every slot is complete |
| Responder.GetRRFrags | pqc-dynamic/src/daemon.c:779-815 | the counting and the collecting loop give the fragments of a section in order, within an array of exactly their number |
| Responder.AnsweredExactly | pqc-dynamic/src/daemon.c:1511-1537 | slices are made if and only if every rrid is in the cache and every range within its record, and each has just the bytes of its range |
| Responder.AnswerFrags | pqc-dynamic/src/daemon.c:1511-1546 | the reply to a request is `Answer`, with failures for unknown rrids and slices outside the record; `FollowUpAnswered` says what that reply is |
| Responder.ProbingTerminates | pqc-dynamic/src/daemon.c:1198-1202 | the probing for a free id, with 16-bit wrap-around, ends exactly when some id is free |
| Responder.InsertIsStable | pqc-dynamic/src/daemon.c:1168-1213 | a record is found under its id afterwards, no id is ever bound anew, a used id is given out again only for the same record, and insertion fails exactly when another record has the place and all 65536 ids are used |
| Responder.InsertGives | pqc-dynamic/src/daemon.c:1168-1213 | a free place of its own is the id a record gets; a record that has it already keeps it and changes nothing; otherwise it is the first unused id behind it, around the circle, and only then can it fail |
| Responder.InsertAgain | pqc-dynamic/src/daemon.c:1191-1198 | inserting a record again changes nothing if and only if it got its own place |
| Responder.FirstAtHome | pqc-dynamic/src/daemon.c:1233-1249 | the first record of a message gets its own place if that is free, whatever follows |
| Responder.InsertAllAgain | pqc-dynamic/src/daemon.c:1168-1250 | a message whose records got their own places gives the same ids again and leaves the cache as it is |
| Responder.InsertAllStable | pqc-dynamic/src/daemon.c:1232-1249 | after all records of a message are in, each is found under its id, and two share an id only if they are the same on the wire |
| Responder.SameRecordBytes | pqc-dynamic/src/resource_record.c:308-325 | records that is_resource_record_equal accepts have the same encoding |
| Responder.SameRecordExactly | pqc-dynamic/src/resource_record.c:308-325 | is_resource_record_equal accepts exactly the records with the same encoding and the same length of name, whatever their printed names |
| Responder.ResponderCache.InsertIntoState | pqc-dynamic/src/daemon.c:1168-1213 | the cache object afterwards, and the id, are those of `InsertRecord`, which `InsertGives` determines |
| Stopping.RoomExactly | pqc-dynamic/src/daemon.c:1295-1301 | cs in closed form: the data less the overshoot, corrected by what the name has over five bytes, and 0 if and only if the overshoot is at least the data and the name less five bytes, or the name less five bytes is at least the data and the overshoot |
| Stopping.LastFragKeeps | pqc-dynamic/src/daemon.c:1302-1313 | the cut fragment keeps as many whole blocks as fit into cs and no fewer, with just those first bytes of the record and its length |
| Stopping.LastFragFits | pqc-dynamic/src/daemon.c:1295-1321 | the fragment that is cut to fit never exceeds the room, including the absolute value; only with cs 0, which is exactly `WithoutRoom`, may the message be up to three bytes over |
| Stopping.AtTheFloor | pqc-dynamic/src/daemon.c:1252-1292 | a message in which every record with data and an id has been replaced has exactly its floor size |
| Stopping.FloorDecides | pqc-dynamic/src/daemon.c:1252-1324 | for names of five bytes or more the loop goes on at every record whenever the floor exceeds the limit, so that failing is exactly that comparison |
| Stopping.ShrinkOutcome | pqc-dynamic/src/daemon.c:1252-1324 | the loop ends with cur_size equal to the size on the wire and at most three over the limit (none over unless it cut without room); it fails if and only if `Fails`, it replaces exactly the records with `ComesTo`, and it cuts record j if and only if `CutHere`, to the whole blocks within `RoomLeft`, all of these being functions of the original sizes and ids |
| ResponderLoops.Sections.InsertRRFrag | pqc-dynamic/src/daemon.c:456-477 | exactly the i-th record of the message, over all three sections, becomes the fragment |
| ResponderLoops.FindLargest | pqc-dynamic/src/daemon.c:1258-1274 | the scan finds the first record of largest rdsize among those still considered, if any has data |
| ResponderLoops.ReplaceRecord | pqc-dynamic/src/daemon.c:1281-1320 | one turn of the loop rewrites the chosen record and cur_size as `Reduce` or `Cut` says, and drops its id; what `Cut` leaves is `LastFragKeeps` |
| ResponderLoops.ShrinkSections | pqc-dynamic/src/daemon.c:1252-1324 | the loop over the sections in place equals `Shrink`; it ends because each turn drops an id |
| ResponderLoops.InsertRecords | pqc-dynamic/src/daemon.c:1168-1250 | ids, cache and cur_size after inserting all records |
| ResponderLoops.InsertIntoStateAndConstructMap | pqc-dynamic/src/daemon.c:1215-1324 | the cache object and the message afterwards are those of `ConstructMap`, about which `FirstReplyFits` is proved |
| Session.RequestArrives | pqc-dynamic/src/daemon.c:1102-1117 | every follow-up request passes the wire; its empty question name arrives as the root |
| Session.AnswerIsPlan | pqc-dynamic/src/daemon.c:1511-1546 | what the requester waits for is exactly what the responder answers |
| Session.FollowUpAnswered | pqc-dynamic/src/daemon.c:1511-1546 | any follow-up request is answered if and only if every fragment asks for bytes that are there; the reply has its identification, flags 0x8000, no questions, and the fragments in order with just those bytes, and arrives as sent |
| Session.RoundStep | pqc-dynamic/src/daemon.c:964-1544 | a round over the wire keeps the invariant and fails only in the two cases that `CanComplete` excludes; with 44 bytes the number of missing blocks strictly falls |
| EndToEnd.RunKeeps | pqc-dynamic/src/daemon.c:964-1544 | in every state that a run reaches, counters, markers, positions and data agree with the responder's records |
| EndToEnd.RunCompletes | pqc-dynamic/src/daemon.c:875-961 | a run completes within as many rounds as blocks are missing |
| EndToEnd.RunStalls | pqc-dynamic/src/daemon.c:194-398 | without answers in the first reply, or with a slot started by an empty fragment in the dynamic form, no number of rounds completes |
| EndToEnd.RoundRequests | pqc-dynamic/src/daemon.c:868-962 | a round asks for pieces behind what has arrived, and slot by slot exactly these arrive |
| EndToEnd.RequestsAreDisjoint | pqc-dynamic/src/daemon.c:886-946 | over a whole run every request is for whole blocks within its record, and later requests for a record lie behind the earlier ones |
| EndToEnd.RequestsAddUp | pqc-dynamic/src/daemon.c:886-946 | over a whole run the bytes there at first and the bytes requested add up to the bytes received, record by record |
| EndToEnd.FirstReply | pqc-dynamic/src/daemon.c:339-410 | the first reply arrives and goes in with the original header, and it can be completed exactly when no follow-up can fail |
| EndToEnd.CompleteIsOriginal | pqc-dynamic/src/daemon.c:817-866 | whenever message_complete holds, partial_to_dnsmessage returns the original message with every record in its section and in order |
| EndToEnd.SlotReads | pqc-dynamic/src/daemon.c:817-866 | a slot is read as the record at the front of its bytes, whatever is behind |
| EndToEnd.RebuiltHeader | pqc-dynamic/src/daemon.c:817-866 | whatever was put together, what is forwarded has the first reply's header with QR set, and whole records, as many in each section |
| EndToEnd.TinyBudgetStalls | pqc-dynamic/src/daemon.c:904-946 | with a budget below 44 bytes a run ends where it started |
| EndToEnd.RunRebuilds | pqc-dynamic/src/daemon.c:165-419 | every completed run returns the original message; it completes within the missing blocks if follow-ups of its budget can complete the first reply, and never otherwise |
| Upstream.MessageSize | pqc-dynamic/src/dns_message.c:255-330 | the size of a message is 12 bytes, its questions and its records |
| Upstream.FirstReplyFits | pqc-dynamic/src/daemon.c:1215-1360 | the first reply is at most the UDP limit less nine bytes, so that the later assertion holds; all its fragments but one are empty, and that one has the whole blocks for which there is room |
| Upstream.FirstReplyFailsExactly | pqc-dynamic/src/daemon.c:1215-1324 | no reply can be made if and only if the cache is full or the sizes meet `Fails`; for names of five bytes or more, if and only if the message exceeds the limit at its floor |
| Upstream.SameReplyAgain | pqc-dynamic/src/daemon.c:1215-1324 | a message whose records got their own places is answered in the same way again, and the cache stays |
| Upstream.ReplyFaultsExactly | pqc-dynamic/src/daemon.c:1252-1324 | the reply advertises every record with its length if and only if the sizes do not meet `CutWithoutRoom`, and has two fragments under one rrid if and only if sizes and ids meet `SharedPieces` |
| Upstream.TinyLimitNeverShrinks | pqc-dynamic/src/daemon.c:1252 | with a limit below twelve bytes the unsigned subtraction wraps round and the message goes out unchanged |
| Upstream.ReplyStartsRun | pqc-dynamic/src/daemon.c:1284-1313 | without `CutWithoutRoom` and `SharedPieces` the first reply advertises every record correctly, under ids that are distinct among the fragments and that the cache serves from then on |
| Upstream.UpstreamToRequester | pqc-dynamic/src/daemon.c:1215-1544 | from the upstream message through the first reply and every follow-up back to the same message, or, exactly when the sizes and ids meet `Loses`, to no message ever |
| Upstream.SharedIdsNeverComplete | pqc-dynamic/src/daemon.c:139-185 | when two records that share an id are both replaced and lengths are sent, no run completes, whatever the cache holds |
| Recovery.DataIsSentExactly | pqc-dynamic/src/daemon.c:1293-1322 | a fragment of the first reply has data if and only if its record is cut and there is room for a block |
| Recovery.WithinBudgetExactly | pqc-dynamic/src/daemon.c:165-419 | follow-ups can complete the first reply if and only if the sizes, the form and the budget meet `Recovers` |
| Recovery.UpstreamDecided | pqc-dynamic/src/daemon.c:1215-1544 | from the upstream message to the forwarded one: decided beforehand, both ways, by the sizes and ids of the records, the limits and the form |
| Failures.HopelessIsNeverRebuilt | pqc-dynamic/src/daemon.c:165-419 | after a first reply with a fragment of length 0, or two fragments under one rrid, no number of rounds gives a message, in either form and for any cache |
| Tallies.RunTallies | pqc-dynamic/src/daemon.c:255-281 | every state of such a run counts each complete slot once, although slots of one rrid are asked for again |
| Tallies.SharedNeverCompletes | pqc-dynamic/src/daemon.c:139-185 | message_complete never holds after a first reply with two pieces, short of their records' ends, under one rrid |
| Exchange.Converse | pqc-dynamic/src/daemon.c:964-1544 | the loop over OnReply, both codecs and the responder's slices on the objects forwards a message if and only if the run ends complete and readable, and then that run's |
| Exchange.Relay | pqc-dynamic/src/daemon.c:964-1544 | from the upstream message on the responder's objects to the forwarded one on the requester's: never another message, within the missing blocks if `GetsThrough` holds of the sizes and ids, and otherwise none |
| Budget.ReplySize | pqc-dynamic/src/daemon.c:904-946 | the packed size is 12 bytes and five more per fragment than the data, at most the limit plus five; the reply's bytes are ten per fragment more, and exceed the limit exactly when 12 and 15 per fragment and the data do |
| Example.ReplyExceedsLimit | pqc-dynamic/src/daemon.c:930-944 | in a state that the requester reaches, a request within a limit of 44 bytes and the responder's reply to it, whose encoding has 59 |
| Budget.OthersAreEmpty | pqc-dynamic/src/daemon.c:1282-1322 | every fragment of a first reply except the last one cut carries no data |
| Budget.DynamicNeedsOneFragment | pqc-dynamic/src/daemon.c:1282-1322 | for the dynamic form follow-ups can complete a first reply only if it holds a single fragment |
| Example.ZeroLengthAdvertised | pqc-dynamic/src/daemon.c:1297-1313 | a message of 33 bytes and a limit of 25 for which the record is advertised with length 0 |
| Example.LongNameAdvertisesNothing | pqc-dynamic/src/daemon.c:1295-1313 | a message only two bytes over the limit whose record, for its long name, is advertised with length 0 |
| Example.AddressesAreLost | pqc-dynamic/src/daemon.c:1295-1313 | a record with two name bytes and four of data is advertised with length 0 at every overshoot at which it is cut |
| Example.CutKeepsBlocks | pqc-dynamic/src/daemon.c:1295-1320 | 928 of 1000 data bytes stay in a message 80 bytes over the limit |
| OrderedMaps.LookupPut | pqc-dynamic/lib/hashmap/src/map.c:215-235 | setting binds its key to the new value, leaves all other keys alone and keeps keys unique |
| OrderedMaps.LookupDel | pqc-dynamic/lib/hashmap/src/map.c:309-324 | removing unbinds its key and leaves all other keys alone |
| OrderedMaps.LookupIsLastWrite | pqc-dynamic/lib/hashmap/src/map.c:215-324 | after any history a lookup gives the last value written to the key and not removed since |
| OrderedMaps.OrderIsInsertion | pqc-dynamic/lib/hashmap/include/map.h:65-68 | after any history the entries are in the order in which their keys came in, counted from their last removal |
| HashTables.Pigeonhole | pqc-dynamic/lib/hashmap/src/map.c:217-218 | a list shorter than the table leaves a bucket unused |
| HashTables.EndAtUnused | pqc-dynamic/lib/hashmap/src/map.c:181-213 | a probe that ends at an unused bucket proves the key absent |
| HashTables.Overwrite | pqc-dynamic/lib/hashmap/src/map.c:215-235 | a new value in a live bucket keeps the table sound and gives the map with the key bound anew, in its old place |
| HashTables.Occupy | pqc-dynamic/lib/hashmap/src/map.c:222-233 | a new key in the unused bucket at the end of its probe path keeps every key reachable and appends its entry |
| HashTables.Bury | pqc-dynamic/lib/hashmap/src/map.c:309-324 | a tombstone keeps every other key reachable and removes exactly one entry |
| HashTables.LinkMore | pqc-dynamic/lib/hashmap/src/map.c:224-226 | linking a bucket behind the last one extends the list by it, from the imaginary head too |
| HashMap.HashMap.constructor | pqc-dynamic/lib/hashmap/src/map.c:46-64 | an empty map of 20 buckets |
| HashMap.HashMap.FindEntry | pqc-dynamic/lib/hashmap/src/map.c:170-213 | the probing ends, at the key's bucket if the key is there and otherwise at an unused one to which its path leads |
| HashMap.HashMap.Get | pqc-dynamic/lib/hashmap/src/map.c:295-304 | the value bound to the key, or false and 0 |
| HashMap.HashMap.Append | pqc-dynamic/lib/hashmap/src/map.c:222-233 | a new entry at the end of the list, all invariants kept |
| HashMap.HashMap.Set | pqc-dynamic/lib/hashmap/src/map.c:215-235 | the map with the key bound to the value, in its old place or at the end, across a resize, which happens exactly when one more used bucket would fill more than three quarters |
| HashMap.HashMap.GetSet | pqc-dynamic/lib/hashmap/src/map.c:237-261 | the old value if the key is there; otherwise the key is added with the given one |
| HashMap.HashMap.Remove | pqc-dynamic/lib/hashmap/src/map.c:309-324 | the map without the key, the other entries in their order |
| HashMap.HashMap.Size | pqc-dynamic/lib/hashmap/src/map.c:345-353 | count less tombstones is the number of entries |
| HashMap.HashMap.ResizeEntry | pqc-dynamic/lib/hashmap/src/map.c:73-88 | the entry goes, links and all, to the unused bucket at the end of its probe path in the new table |
| HashMap.HashMap.Turn | pqc-dynamic/lib/hashmap/src/map.c:106-122 | one turn of the resizing loop: a tombstone is unlinked or a live entry moved, while the last new bucket still carries a link into the old table |
| HashMap.HashMap.Resize | pqc-dynamic/lib/hashmap/src/map.c:90-125 | every entry and their order are kept, exactly the tombstones are gone, and probe paths, load and list are in order again in a table twice as large |
| HashMap.HashMap.Iterate | pqc-dynamic/lib/hashmap/src/map.c:355-380 | calls back on exactly the live entries among the first 1002 nodes of the list, in order |
| HashMap.IterateSees | pqc-dynamic/lib/hashmap/src/map.c:355-380 | stopping after some nodes misses exactly the live entries behind, so that it is complete if and only if the rest are tombstones |
| HashMap.HashMap.Perform | pqc-dynamic/lib/hashmap/src/map.c:215-324 | after each operation of a history the map holds what the history describes |
| HashMap.LookupAfter | pqc-dynamic/lib/hashmap/src/map.c:46-380 | after any sequence of operations lookup gives the last write not removed, size the number of keys, and iteration the entries in order, all of them after at most 1002 operations |
| StoredCaches.PutStores | pqc-dynamic/src/daemon.c:1181-1207 | a record put under the two bytes of its id, at an address of its own, binds that id and leaves the others alone |
| StoredCaches.StoredCache.Find | pqc-dynamic/src/daemon.c:1179-1180 | the lookup in the hash map is the lookup in the cache that it stores |
| StoredCaches.StoredCache.Bind | pqc-dynamic/src/daemon.c:1205-1207 | setting the id in the hash map is binding it in the cache, across a resize |
| StoredCaches.StoredCache.InsertIntoState | pqc-dynamic/src/daemon.c:1168-1213 | over the hash map, too, the cache afterwards and the id are those of `InsertRecord` |
| StoredCaches.StoredCache.AnswerFrags | pqc-dynamic/src/daemon.c:1511-1546 | the reply made from lookups in the hash map is `Answer` of the cache |
| Checksum.Csum | pqc-dynamic/src/daemon.c:604-625 | the loop and the two folds compute `CsumOf`, without overflow up to 65536 bytes |
| Checksum.FoldsAreEnough | pqc-dynamic/src/daemon.c:618-621 | although the second fold does not mask, the result is the complement of the one's complement sum (section 1 of RFC 1071) |
| Checksum.CsumIsInternetChecksum | pqc-dynamic/src/daemon.c:604-625 | csum is the Internet checksum exactly for even lengths and for odd ones with a last byte of zero |
| Checksum.HeaderChecks | pqc-dynamic/src/daemon.c:672-680 | a header with its checksum inserted in network order has the checksum 0 (section 3.1 of RFC 791) |

## Left out

- Netfilter queue, sockets, polling, `main`, environment variables: input and output.
- TCP: the daemon accepts such packets without looking at them, and its TCP headers are unfinished.
- Lost, repeated or reordered messages: the code never asks again for a waiting block, so the runs deliver every message once, in lock step. `ArrivalOrder` and `Bookkeeping` cover other orders of fragments.
- Semaphores: each locked region is one step.
- `malloc` failure, `free`, ownership and leaks; an allocation of 0 bytes is taken to succeed.
- The quality of `hash_16bit` and `hash_data`: they are parameters, and the theorems hold for every function.
- `connection_info`, `construct_intermediate_message`, `internal_send` and `handle_internal_packet`: descriptor plumbing around the map.
- `*_to_string`, debug output, `is_dns_message` behind its early return, the copies of the codec under `test/`, and the sample programs there.
- `hashmap_set_free` and `hashmap_remove_free`: set and remove with a callback; overflow of the map's `int` capacity; keys changed by their owner after insertion.
- `ResponderLoops` and `Exchange` hold responder_cache as a map; `StoredCaches` proves that the hash map behaves as that map, operation by operation. `requester_state`, with one partial message per identification, is a single partial message here.
- The buffers of a `PartialRR` are fields of type `seq` that its methods reassign, so that sharing of one buffer between two objects is not modelled.
- Records.CompressedRecordRoundTrip: speaks about pointers whose low byte is not zero; a pointer with a zero low byte ends the decoder's scan inside the name.
- Responder.InsertIsStable: a record equal to one that was moved by a collision gets a second id, as in the code.
- Stopping.ShrinkOutcome: sizes stay below 2^31 less 65536, where the code's `abs` on an int is exact; names have at least one byte.
- Upstream.UpstreamToRequester: records take at most half of the 16-bit block numbers, a megabyte each, and budgets are at most 65530 bytes.
- Tallies.SharedNeverCompletes: speaks about replies that advertise every length; with a length 0 among the two the counters may count a slot twice, and `HopelessIsNeverRebuilt` says that no message comes out.
- Checksum.HeaderChecks: for headers of even length, as IP headers are.
