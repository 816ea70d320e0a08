# Verification model of the SNMP_Embedded agent

This project models the request path, the codec, the object pool and the inform queue of a
bounded-memory SNMPv1/v2c agent, and proves what they keep.

- `Bytes`, `Caps`, `Ber`: octets and 32-bit integers; the size macros as parameters with the bounds the
  static asserts put on them; definite-length BER (X.690 section 8.1.3) as the one reference encoding,
  the exact head-room of the scope writer, and the reader of one TLV.
- `Writer` (BerWriter.dfy), `Containers`, `ContainerPool`: the two encoders, one reserving headers and
  sliding content left, one shifting content right, both shown to leave the reference encoding; the
  recursive decoder, on values and against the pool.
- `BerView`: the in-place packet walk, its soundness, and messages as the walk reads them. `DecodeLaws`: what the
  decoders make of each length form and each type of value.
- `Oids`, `Roster`: base-128 arcs (X.690 section 8.19), the name order, the lookups and what GETNEXT
  therefore means; handlers and their setters.
- `Pool`: the slot allocator as a state machine over runs, and the class that refines it.
- `Handling`: the pure request handler. `Staging`, `ResponseWriter`, `ZeroCopy`: the engine that answers
  in the request buffer, shown to refine it. `HandlingLaws`, `SetLaws`, `BulkLaws`, `PoolLaws`, `PlanFacts`: what
  the pure handler promises. `EndToEnd`: the same from octets to octets, in the numbers of the protocol.
- `Classic`, `ClassicLaws`, `ClassicEngine`, `Unwritten`, `Agreement`: the owning-tree engine, what a short opaque
  value drags in from the slot it was decoded to, and when the two engines agree.
- `Inform`, `InformLaws`: the inform queue and its runs.
- `Trap`, `TrapWire`, `KeptTree`, `TrapQueue`: the tree a trap is built as, the slots it takes, a send and its
  octets; what becomes of a packet that is kept; queue, trap and pool in one send.

The two engines are specified separately, each after its own source, and meet only in `Agreement`.
Integers that are 32 bits wide on the targets (`int`, `long`, request ids, `millis`) wrap or truncate
where the source lets them. Packet capacities are below 65536, because a length takes at most two
octets. Names in the table are qualified by their Dafny module.

## Where the code and its documentation differ

- The two engines are documented to give identical wire output (src/include/SNMPParser.h:22-27). They
  do, except that the scope writer needs up to eight octets more room while scopes are open, so a response
  that fits its buffer exactly is answered by the classic engine and becomes tooBig, or nothing, on the
  zero-copy path; and a SET of an opaque value shorter than its handler's buffer copies octets nobody
  decoded, which differ between the slots of the two engines (src/ValueCallbacks.cpp:258-259).
  `Agreement.EnginesAgree` states exactly when they agree, `Agreement.EnginesDiffer` and
  `Agreement.ShortSetDiffers` show that they can differ.
- `putTLV` is documented as all-or-nothing (src/include/BERView.h:161-162). Its room test counts one octet
  too few from 128 octets of contents on; `Writer.BerWriter.PutTLV` states exactly what stays behind.
- Retries are documented to re-emit the original request id (src/SNMPTrap.h:133-136). They re-emit the id
  the trap object holds at that moment; `InformLaws.RetryIdExactly` and `InformLaws.StaleRetry`.
- A trap with more varbinds than the pool has slots for is documented to fail at build time and not to be sent
  (src/include/defs.h:348-351). A leaf without a slot is left out, and only a missing node or list makes the
  build fail, so between two slot counts an incomplete trap is built and sent; `Trap.BuildSlots` gives both,
  `Trap.PartialTrap` shows that the second is larger except for a version 1 trap without varbinds.
- A trap is documented to leave nothing stale between sends, with no double release (src/include/SNMPPacket.h:153-160,
  src/SNMPTrap.h:146-149). An inform that finds no place in the queue returns with its packet still set
  (src/SNMPInform.cpp:82-92). If a reset then frees slots of the tree and one the next delete gets to is granted
  again, that delete raises the alarm, or deletes what has been put there. `KeptTree.HarmlessIff` says exactly when,
  over every node of the tree. For a tree on one side of the permanent baseline its root decides
  (`KeptTree.RootDecides`). A tree may straddle the baseline, when its root fills a hole a removed handler or an early
  trap left below it, and then loses its upper children only (`KeptTree.Straddling`). `KeptTree.RequestBetween` and
  `KeptTree.TwoKept` are failing runs for the root.
- A trap sent before the first reset is documented to be covered by the automatic freeze
  (src/include/BER.h:155-162, src/SNMP_Embedded.cpp:257-262). The freeze comes with the reset of the send, when the
  first build of that trap already stands in the pool, so the baseline counts its slots for good; `Trap.EarlyTrap`.

## Model

| member | source | states |
|---|---|---|
| ZeroCopy.HandlePacketInPlace | src/SNMPZeroCopy.cpp:455-617 | For every buffer and whatever the slots of the decoded values held before: return code, response octets, handlers and inform callback equal the pure handler applied to the packet as it was on entry, although the response is written over the request; nothing at or beyond the capacity changes; the pool ends with exactly the slots it had on every path, with no double-release alarm; a request of primitive values never needs more than twice the varbind cap plus one extra slots |
| Agreement.EnginesAgree | src/SNMPParser.cpp:17-150 | On every canonical request of at most the varbind cap the two engines give the same code, octets, handlers and inform callback, whatever the slots of its values held before, if and only if the packet capacity does not fall between the length of the answer and the room the scope writer needs for it, and no varbind of a SET leaves octets nobody wrote in an opaque buffer or in an answered row; the parse tree of the classic engine has its slots and the copies it makes are taken to succeed |
| Agreement.EnginesAgreeOn | src/SNMPParser.cpp:17-150 | The same with the contents of the slots of both engines given: on a SET, the engines agree exactly when those contents coincide on the octets that stay visible; the further copies of the classic engine are taken to succeed |
| Agreement.MemoryEffect | src/ValueCallbacks.cpp:250-261 | What the slots held never changes the return code or the capacities that split the engines; it changes the outcome exactly when it shows in a handler or in an answered row of a SET |
| Agreement.ShortSetDiffers | src/ValueCallbacks.cpp:258-259 | The failing input: one opaque octet set into a buffer of two leaves, on either engine and at any capacity, the octet that engine found in its own slot |
| Unwritten.SetMemory | src/SNMPZeroCopy.cpp:292-358 | One SET with two contents of the slots: rows of the same shape, the same return code, and the same outcome exactly when every visible unwritten octet coincides |
| Unwritten.StrayExactly | src/ValueCallbacks.cpp:250-261 | No contents of the slots can make a difference if and only if no varbind too short for its buffer is answered with unwritten octets or is the last to write its handler |
| Unwritten.LastWriteIs | src/SNMPZeroCopy.cpp:292-358 | No varbind behind the one taken as the last to write a handler writes it |
| EndToEnd.PermissionIs | src/SNMPZeroCopy.cpp:507-524 | For NUL-free communities within the cap, read-write access exactly when the request's octets equal the read-write community, read-only access exactly when they equal the read-only one, which is not empty, and not the other, and none otherwise |
| EndToEnd.SeenAs | src/SNMPZeroCopy.cpp:507-524 | Any other community counts as the octets before its first NUL, one beyond the cap as the empty one; so do the agent's own communities |
| EndToEnd.ReadOnlySet | src/SNMPZeroCopy.cpp:565-573 | From the octets of a SET under the read-only community: every handler stays as it was, and the answer reads back as status 6, index 0 and no rows, given room for it |
| EndToEnd.SetAnswered | src/SNMPZeroCopy.cpp:292-358 | From the octets of a SET of different names under the read-write community: one row a name, which says what the handler of that name did with the value; unnamed handlers stay as they were; last error and its index in the header |
| EndToEnd.GetAnswered | src/SNMPZeroCopy.cpp:175-207 | From the octets of a GET to those of its answer: each name with the value of exactly its handler, an empty value and status 5 if that has none, tag 0x80 for any other name; nothing changes |
| EndToEnd.GetsPlanned | src/SNMPZeroCopy.cpp:155-173 | A GET or GETNEXT is planned exactly if each of its rows has a name of at most 127 octets within its buffer |
| EndToEnd.NextAnswered | src/SNMPZeroCopy.cpp:175-207 | The same for GETNEXT on a sorted roster: the least name after the one asked for, or tag 0x82 under the name asked for |
| EndToEnd.BulkAnswered | src/SNMPZeroCopy.cpp:209-290 | The same for a version 2c GETBULK: all its rows, or status 1 |
| EndToEnd.BulkRowsAre | src/SNMPZeroCopy.cpp:209-250 | Its first rows, as many as the non-repeater count says or there are names, carry the value of the next name under the name asked for; the rest are repeated GETNEXTs; both counts unsigned |
| EndToEnd.NonRepeaterSays | src/SNMPZeroCopy.cpp:222-246 | One such row |
| EndToEnd.WalkEnds | src/SNMPZeroCopy.cpp:258-287 | The row a walk ends with: status 5 and NULL for a handler without a value, tag 0x82 behind the last name |
| EndToEnd.OtherAnswered | src/SNMPZeroCopy.cpp:575-583 | Any other request, a version 1 GETBULK among them, is refused with status 5 and changes nothing |
| EndToEnd.AnswerIs | src/SNMPZeroCopy.cpp:585-616 | Whatever is planned reaches the manager under the last error and its index, with code 2 to 5 by request type, or status 1 does with code 6, or nothing with code -2 |
| EndToEnd.Dropped | src/SNMPZeroCopy.cpp:465-484 | A packet that is not a well-formed request is dropped with code -4 |
| EndToEnd.WellFormedIs | src/SNMPZeroCopy.cpp:465-484 | Well-formed is: accepted by the walk, at most the cap of varbinds, every value decodes, and a buffer for the answer |
| EndToEnd.Stranger | src/SNMPZeroCopy.cpp:519-528 | A request under neither community is dropped with code -3 |
| EndToEnd.Acknowledged | src/SNMPZeroCopy.cpp:486-493 | A GetResponse under any community gives its unsigned id, and whether its status is 0, to the callback: code 7, no answer |
| Agreement.EnginesDiffer | src/SNMPZeroCopy.cpp:411-451 | The promise of identical wire output is not met everywhere: for every canonical request with a planned answer shorter than 130 octets there is a capacity, the exact length of the answer, on which the engines differ, whatever the slots held |
| Agreement.GapIsNarrow | src/include/BERView.h:205-244 | The capacities on which the engines can differ lie within eight octets of the length of the answer |
| Agreement.GapIsReal | src/include/BERView.h:205-244 | Every message shorter than 130 octets is split by a capacity equal to its length |
| HandlingLaws.StoreFrame | src/SNMPZeroCopy.cpp:86-114 | A handler changes only under a SET with the read-write community after every request value decoded, and only if it is settable and some varbind names exactly it with its own type; its name, type and access never change |
| HandlingLaws.SetsEffect | src/SNMPZeroCopy.cpp:292-358 | A handler that exactly one varbind names ends up with that value if it is settable and of that type, and unchanged otherwise, whatever the other varbinds do |
| HandlingLaws.GetServes | src/SNMPZeroCopy.cpp:175-207 | GET answers one row a varbind under the requested name: the value of the handler of exactly that name, genErr if it has none to give, noSuchObject for any other name |
| HandlingLaws.NextServes | src/SNMPZeroCopy.cpp:175-207 | On a sorted roster GETNEXT serves the least registered name after the requested one under its own name, with its value or genErr if its handler has none to give, or echoes the requested name with endOfMibView |
| HandlingLaws.ResponseReadsBack | src/SNMPZeroCopy.cpp:372-451 | Every response is accepted by the packet walk as a GetResponse with the version, request id and community of the request, and either the planned names and values in order under the last error or no rows under a global error with index 0 |
| HandlingLaws.ReplyReadsBack | src/SNMPZeroCopy.cpp:372-451 | Any reply that fits reads back field by field, whatever stands behind it |
| HandlingLaws.NormalReadsBack | src/SNMPZeroCopy.cpp:411-451 | The same for a planned response: last-error status and index, row count, names and value TLVs |
| HandlingLaws.LastErrorRange | src/SNMPZeroCopy.cpp:136-152 | The reported index is that of the last row in error, no later row is in error, and the status is that row's |
| HandlingLaws.AlwaysAnswered | src/SNMPZeroCopy.cpp:585-616 | A well-formed permitted request goes unanswered exactly when the capacity is below 36 octets plus the community TLV; so 40 octets plus a community of at most 256 octets are always enough |
| HandlingLaws.VersionOneStatus | src/SNMPZeroCopy.cpp:530-583 | A version 1 answer carries a status above genErr exactly when a SET is refused under the read-only community |
| HandlingLaws.SetThenGet | src/ValueCallbacks.cpp:150-164 | A value set without error is what a read then serves if and only if it is a string without NUL, an opaque value that fills its buffer, or of another type |
| SetLaws.SetSucceeds | src/ValueCallbacks.cpp:150-323 | When a value of the handler's type is taken: by a settable integer or counter always, by a string buffer exactly if it is longer than the value, by an opaque buffer exactly if it is at least as long; otherwise status 4, 8, 6 or 5 and an unchanged binding. A taken value is in the binding, and the flag is up unless a counter had it already |
| SetLaws.Statuses | src/include/defs.h:527-548 | The numbers of the error statuses in use |
| SetLaws.SetRowSays | src/SNMPZeroCopy.cpp:292-358 | The row of one varbind of a SET: no handler, wrong type, not settable, refused or set, with status 17, 7, 4, 8, 6, 5 or 0, in version 1 2, 3, 4, 5 or 0; a value exactly if the status is 0; no other handler changes |
| SetLaws.SetsSay | src/SNMPZeroCopy.cpp:292-358 | The same for each row of a SET of different names, against the handlers before and after all of it |
| SetLaws.SetsApply | src/SNMPZeroCopy.cpp:292-358 | A SET goes through its varbinds in order and undoes nothing: all of them, or up to and including the first whose name cannot be held |
| SetLaws.ServedAs | src/ValueCallbacks.cpp:166-305 | What a read serves of each kind of binding, strings and opaque values cut at their caps |
| BulkLaws.BulkNeverTruncates | src/SNMPZeroCopy.cpp:209-290 | GETBULK stages the whole iterated GETNEXT when that has at most the varbind cap of rows and tooBig otherwise, never a shortened list |
| BulkLaws.RepeatIsGetNext | src/SNMPZeroCopy.cpp:248-289 | On a sorted roster a repeater with its resume index returns the rows of GETNEXT iterated from the start of the roster, all of them or none |
| BulkLaws.NextRowsAreSlice | src/SNMPZeroCopy.cpp:258-287 | Those rows are a contiguous slice of the roster: up to the repetition count, or up to the first handler without a value and one genErr row for it, or up to the end of the roster and one endOfMibView row under the last name; at most one row more than there are handlers for any 32-bit repetition count |
| PoolLaws.Enough | src/include/defs.h:257-290 | With more than twice the varbind cap of free slots the outcome of a request of primitive values does not depend on the pool |
| PoolLaws.NeverDry | src/include/defs.h:380-388 | With the derived pool size and a permanent baseline within the handler cap, such a request is handled as with any larger pool |
| Ber.LengthFaithful | src/BEREncode.cpp:19-35 | The length octets both writers emit read back as that length exactly below 65536 |
| Ber.PeekWrap | src/include/BERView.h:58-74 | One encoded TLV is recognised with its tag, contents and remainder whatever follows it |
| Ber.PeekLocal | src/include/BERView.h:58-74 | What is recognised depends on the octets of the TLV alone |
| Ber.PeekNeedsAll | src/include/BERView.h:58-74 | No proper prefix of a TLV is accepted |
| DecodeLaws.Tags | src/include/BER.h:276-310 | The numbers of the value and PDU tags |
| DecodeLaws.LengthForms | src/include/BERView.h:41-54 | A length in one to four octets, minimal or not, is read if it is below 2^31 |
| DecodeLaws.LengthRefused | src/include/BERView.h:41-54 | The indefinite form, more than four length octets and a field that reaches the end are refused |
| Ber.PeakBounds | src/include/BERView.h:203-244 | Writing a tree through scopes needs at least its encoding and at most two octets a nesting level more |
| Writer.BerWriter.constructor | src/include/BERView.h:128 | A fresh writer stands at the start and has not failed |
| Writer.BerWriter.PutByte | src/include/BERView.h:135-140 | Appends one octet exactly when it fits and nothing failed before; nothing at or beyond the capacity changes |
| Writer.BerWriter.PutBytes | src/include/BERView.h:141-147 | The same for a run of octets, all or none |
| Writer.BerWriter.PutTLVHeader | src/include/BERView.h:148-160 | Tag and length octets for contents below 65536, exactly when they fit; a failed writer writes nothing more |
| Writer.BerWriter.PutLength | src/include/BERView.h:150-160 | Length octets below 65536 exactly when they fit; what was written before stays |
| Writer.BerWriter.PutTLV | src/include/BERView.h:161-168 | Succeeds exactly when the whole TLV fits; a failure leaves nothing behind except, from 128 octets of contents on, the header of a TLV that is one octet too long, and from 65536 on, where there is no length form, the tag |
| Writer.BerWriter.PutInteger | src/include/BERView.h:181-189 | INTEGER with exactly four content octets, exactly when the six octets fit |
| Writer.BerWriter.PutNull | src/include/BERView.h:190-192 | An empty TLV, exactly when its two octets fit |
| Writer.BerWriter.BeginScope | src/include/BERView.h:205-217 | Reserves a four-octet header at the cursor and returns its marker |
| Writer.BerWriter.EndScope | src/include/BERView.h:218-244 | Leaves everything before the marker as it was and turns the rest into one finished TLV, so enclosing markers stay valid |
| Writer.BerWriter.Backfill | src/include/BERView.h:225-238 | The length octets over the placeholder, nothing else changed |
| Writer.BerWriter.Slide | src/include/BERView.h:239-242 | The content moved left over the unused length octets |
| Writer.MoveLeft | src/include/BERView.h:240 | memmove of a block to the left |
| Writer.BerWriter.WriteTree | src/include/BERView.h:203-244 | Any properly nested use leaves exactly the encoding of its tree, and succeeds exactly when the peak of the tree fits |
| Containers.PutLength | src/BEREncode.cpp:19-35 | Definite-form length octets at an offset |
| Containers.SerialiseHeader | src/BEREncode.cpp:49-61 | Tag and length octets, written before the room test |
| Containers.SerialisePrim | src/BEREncode.cpp:63-147 | A leaf serialises to its encoding, reporting its length exactly when that is allowed |
| Containers.ShiftRight | src/BEREncode.cpp:206-210 | A block moved up in place, last octet first |
| Containers.Serialise | src/BEREncode.cpp:212-244 | The right-shifting serialiser leaves the same encoding as the scope writer and reports its length exactly when that is within the limit |
| Containers.SerialiseKids | src/BEREncode.cpp:221-233 | The child loop: the children encoded one behind the other, or a failure exactly when they cannot fit |
| Containers.CloseComplex | src/BEREncode.cpp:235-243 | The content shifted right for a longer length form, then the length |
| Containers.ReadInteger | src/BERDecode.cpp:227-259 | The integer loop with its 16-bit counter: sign-extended contents of up to three octets, the low 32 bits of longer ones |
| Containers.ReadCounter64 | src/BERDecode.cpp:364-380 | Contents of any length modulo 2^64 |
| DecodeLaws.IntReads | src/BERDecode.cpp:227-259 | Every integer in the range of one to four octets of two's complement is read as itself, sign included |
| DecodeLaws.BothRead | src/BERView.cpp:56-69 | By the walk and by the container decoder |
| DecodeLaws.LongInt | src/BERView.cpp:56-69 | Of longer contents the last four octets count, and no contents are 0 |
| DecodeLaws.LongContent | src/BERDecode.cpp:227-259 | So they do in the container decoder for contents of up to 65535 octets, all of them used |
| DecodeLaws.IntWritten | src/BEREncode.cpp:76-87 | Integers go out as four octets of two's complement and are read as themselves |
| DecodeLaws.Counter64Reads | src/BERDecode.cpp:364-380 | Counter64 contents of up to eight octets are an unsigned number, of longer ones the last eight count |
| DecodeLaws.ValueReads | src/SNMPZeroCopy.cpp:101-111 | The value of a request from the octets of its TLV, type by type; strings beyond the caps and IpAddress values are refused |
| DecodeLaws.ValuesAt | src/SNMPZeroCopy.cpp:86-114 | Each value of a request is decoded on its own |
| DecodeLaws.DecodedCapped | src/BERDecode.cpp:430-469 | No accepted structure has more children than the cap or a child of an unknown tag; 0xA4 is unknown |
| Containers.PrimFromBuffer | src/BERDecode.cpp:192-380 | fromBuffer of every primitive container: the value and the octets it counts, or an error |
| Containers.DecodedPrim | src/BERDecode.cpp:227-380 | Whatever a primitive decoder accepts is within the caps and of the tag asked for |
| Containers.ContentRoundTrip | src/BEREncode.cpp:63-147 | Contents of every primitive except IpAddress decode to the value they encode |
| Containers.DecodeTree | src/BERDecode.cpp:430-469 | fromBuffer on the encoding of any tree within the caps rebuilds its value and uses exactly its octets, whatever follows, if the pool has a slot a node |
| Containers.SerialiseRoundTrip | src/BERDecode.cpp:192-469 | fromBuffer of what serialise wrote is the value again, with exactly its length used |
| ContainerPool.FromBuffer | src/BERDecode.cpp:430-469 | The recursive decoder against the pool: success exactly when the pure decoder succeeds with the free slots there are, then one owned slot a node, and partial children left to the caller otherwise |
| ContainerPool.Child | src/BERDecode.cpp:443-462 | One child: created for its type, decoded, and given back in full if that fails |
| BerView.BerDecodeLength | src/include/BERView.h:41-54 | The length loop with its signed 32-bit wrap, refusing indefinite, over-long and overrunning fields |
| BerView.BerPeek | src/include/BERView.h:58-74 | One TLV at the front of a window of the buffer |
| BerView.Scope.Next | src/BERView.cpp:44-50 | The next child of a window, and the window behind it |
| BerView.ViewDecodeInteger | src/BERView.cpp:56-69 | Two's complement contents of any length |
| BerView.DecodeVarbind | src/BERView.cpp:75-103 | Exactly two children, a name starting with 1.3 within the cap and a value, as slices of the packet |
| BerView.PeekPacket | src/BERView.cpp:105-169 | The in-place walk accepts and records exactly what the pure walk of the packet does |
| BerView.PeekRoot | src/BERView.cpp:113-132 | Version, community and PDU of the root |
| BerView.PeekPdu | src/BERView.cpp:134-168 | The PDU and its varbind list |
| BerView.PeekInts | src/BERView.cpp:137-149 | request-id, error-status and error-index |
| BerView.PeekList | src/BERView.cpp:151-166 | The varbind loop, exact count past the view table |
| BerView.PeekEntry | src/BERView.cpp:157-166 | One varbind recorded, or only skipped beyond the table |
| BerView.RootAlone | src/BERView.cpp:105-111 | A buffer is accepted exactly when it holds the whole root TLV and that TLV alone is accepted; no packet cut short inside it is |
| BerView.WalkSound | src/BERView.cpp:105-169 | Everything recorded lies inside the packet and its envelope, and the varbind TLVs tile the list exactly, one a count |
| BerView.ListTiles | src/BERView.cpp:157-166 | The same for the list loop from any varbind on |
| BerView.WalkStrict | src/BERView.cpp:105-156 | What an accepted packet is made of, tag by tag, with version 0 or 1 and a PDU type from 0xA0 to 0xA7 |
| BerView.VarbindStrict | src/BERView.cpp:75-103 | A varbind is accepted exactly if it is a name of tag 0x06 within the cap that starts with 1.3, and one TLV up to the end |
| BerView.MessageRoundTrip | src/BERView.cpp:105-169 | Every encoded message is accepted and read back exactly |
| Oids.RecurseLongform | src/BEREncode.cpp:3-11 | The high octets of an arc, most significant first |
| Oids.EncodeLongform | src/BEREncode.cpp:13-17 | The base-128 encoding of an arc |
| Oids.ShortArc | src/BEREncode.cpp:158 | An arc below 2^31 takes at most five octets, so the scratch never overflows |
| Oids.GenerateData | src/BEREncode.cpp:149-184 | The encoding of the arcs after 1.3, refused exactly when it does not fit the data buffer |
| Oids.DecodeLongform | src/BERDecode.cpp:149-161 | The decoder reads one arc back, uses exactly its octets and stays within 32 bits |
| Oids.ArcRoundTrip | src/BERDecode.cpp:149-161 | An encoded arc decodes to itself whatever arcs follow |
| Oids.ArcsRoundTrip | src/BEREncode.cpp:3-17 | The concatenated encodings of any arcs decode back arc by arc |
| Oids.SubIdentifier | src/ValueCallbacks.cpp:340-343 | The inner decoder of the comparison reads the same arcs |
| Oids.SortOids | src/ValueCallbacks.cpp:325-354 | The comparison is the lexicographic order of the decoded arcs, with an empty name last |
| Oids.PrefixAgrees | src/include/BER.h:515-519 | Octet prefix and arc prefix are the same relation on encoded names |
| Oids.OctetOrderDiffers | src/ValueCallbacks.cpp:325-354 | Plain octet order is a different order |
| Oids.LexPrefix | src/ValueCallbacks.cpp:82-93 | An extension stands after its ancestor and before everything after the ancestor that is not an extension |
| Oids.LexTransitive | src/ValueCallbacks.cpp:325-354 | Lexicographic order of arcs is transitive |
| Oids.LexTrichotomy | src/ValueCallbacks.cpp:325-354 | And irreflexive, asymmetric and total |
| Roster.BeforeIsStrictTotal | src/ValueCallbacks.cpp:325-354 | On well-formed names the comparison is a strict total order |
| Roster.ExtensionBlock | src/ValueCallbacks.cpp:90-93 | The descendants of a name form one block right behind it |
| Roster.SortedIsUnique | src/ValueCallbacks.cpp:360-363 | Two sorted rosters of the same names are equal, whichever way they were sorted |
| Roster.SameOid | src/include/BER.h:502-505 | equals is equality of the encoded names |
| Roster.IsSubTreeOf | src/include/BER.h:515-519 | isSubTreeOf is proper octet prefix |
| Roster.FindCallback | src/ValueCallbacks.cpp:39-71 | The owning lookup is the pure lookup on the names, with the index found |
| Roster.FindCallbackForSlice | src/ValueCallbacks.cpp:95-130 | The slice lookup is the same pure lookup |
| Roster.GetIsExact | src/ValueCallbacks.cpp:52-61 | GET finds the first handler of exactly that name, or none has it |
| Roster.NextIsSuccessor | src/ValueCallbacks.cpp:95-130 | From a registered name or an ancestor of one a walk lookup finds the least registered name after it; from any other name it finds nothing |
| Roster.HintIsSpeedUp | src/ValueCallbacks.cpp:95-130 | A lookup resumed at the handler just served finds what the lookup from the start finds, the handler after it |
| Roster.WalkVisitsAll | src/ValueCallbacks.cpp:95-130 | Repeated GETNEXT from an unregistered common ancestor visits every handler exactly once, in order, then ends |
| Roster.RemoveHandler | src/ValueCallbacks.cpp:365-385 | Removes the first occurrence, keeps the order of the rest and clears the freed slot |
| Roster.ValueCallback.SetTypeWithValue | src/ValueCallbacks.cpp:177-323 | The status and the new binding of every kind of handler, unwritten octets included, and the flag the counters clear |
| Roster.ValueCallback.SetValue | src/ValueCallbacks.cpp:150-164 | setValueForCallback: status, binding and flag |
| Roster.SetCallback | src/ValueCallbacks.cpp:150-164 | Setting one handler leaves every other handler of the roster as it was |
| Roster.SetKeepsOk | src/ValueCallbacks.cpp:177-323 | A well-formed value leaves a well-formed handler |
| Pool.StepInv | src/include/BER.h:86-172 | Alloc, release, freeze and reset each keep: occupied slots at most usedCount at most capacity, no occupied slot bulk-freed, alarms equal latched slots |
| Pool.RunInv | src/include/BER.h:86-172 | And so after any sequence of them from the empty pool |
| Pool.AllocIff | src/include/BER.h:122-147 | A request succeeds exactly when it fits a slot and usedCount is below the capacity, and gets the lowest free slot |
| Pool.GrantIs | src/include/BER.h:122-147 | What a grant changes: that slot, the count and the peak |
| Pool.ReleaseIs | src/BERDecode.cpp:62-106 | What releasing a live slot changes: that slot, without grace, and the count |
| Pool.FreezeIs | src/include/BER.h:86-94 | The baseline ends with the last live slot, and the count is cut down to it |
| Pool.Permanent | src/include/BER.h:86-108 | A slot live at the first freeze stays live through every later operation until it is itself released |
| Pool.ResetReclaims | src/include/BER.h:151-172 | A reset frees every slot at or above the baseline and none below |
| Pool.StaleDelete | src/BERDecode.cpp:73-92 | Deleting a pointer a reset took away changes nothing and raises no alarm until its slot is handed out again |
| Pool.DoubleRelease | src/BERDecode.cpp:75-103 | A second release raises one alarm, and never again for that slot |
| Pool.ASNPool.constructor | src/BERDecode.cpp:15-22 | A fresh pool |
| Pool.ASNPool.FreezePermCount | src/include/BER.h:86-94 | The freeze loop is the freeze step |
| Pool.ASNPool.AutoFreezePermCountOnce | src/include/BER.h:103-108 | Freezes once, then never again |
| Pool.ASNPool.RawAlloc | src/include/BER.h:122-147 | The first-fit loop is the alloc step, with the slot it grants |
| Pool.ASNPool.ReleaseSlot | src/BERDecode.cpp:62-106 | Release with its double-release latch is the release step |
| Pool.ASNPool.ResetAll | src/include/BER.h:151-172 | The reset loop is the reset step |
| Pool.ASNPool.New | src/include/BER.h:175-196 | A container of any type and size takes one slot exactly when one is left; the peak follows |
| Pool.ASNPool.Delete | src/BERDecode.cpp:108-115 | Deleting an owned slot gives back that slot alone, without an alarm |
| Pool.ASNPool.DeleteTree | src/include/BER.h:624-632 | Deleting a tree that is owned gives back each of its slots exactly once and nothing else |
| Pool.ASNPool.AsnDelete | src/BERDecode.cpp:62-115 | asn_delete of any slot of the pool computes the pure deletion: the children of an occupied slot first, no destructor for a free one |
| Pool.DeletedIs | src/include/BER.h:624-632 | Deleting a tree from which a reset has at most taken slots is silent and touches no other slot; a tree that is all there gives back each slot once |
| Staging.ResponsePlan.constructor | src/SNMPZeroCopy.cpp:134 | An empty plan |
| Staging.ResponsePlan.Add | src/SNMPZeroCopy.cpp:136-152 | Appends a row while there is room and keeps status and index of the last row in error |
| Staging.AddRow | src/SNMPZeroCopy.cpp:155-173 | A row is planned exactly when its name fits the plan and there is room; otherwise its value is given back |
| Staging.GetValue | src/ValueCallbacks.cpp:133-148 | A value takes a slot, or there is none to serve; an unusable value is given back at once |
| Staging.StageGet | src/SNMPZeroCopy.cpp:175-207 | The GET and GETNEXT loop stages the pure rows, slots and all |
| Staging.StageNonRepeaters | src/SNMPZeroCopy.cpp:222-246 | The non-repeater loop |
| Staging.StageRepeater | src/SNMPZeroCopy.cpp:252-287 | The repetition loop with cursor and resume index |
| Staging.StageRepeaters | src/SNMPZeroCopy.cpp:250-288 | The repeater loop |
| Staging.StageGetBulk | src/SNMPZeroCopy.cpp:209-290 | GETBULK stages the pure rows, both counts taken as unsigned |
| Staging.SetAndRead | src/SNMPZeroCopy.cpp:296-351 | One varbind of a SET: status, new handler, and the value read back |
| Staging.StageSet | src/SNMPZeroCopy.cpp:292-358 | The SET loop stages the pure rows and leaves the pure handlers |
| Staging.DecodeRequestValues | src/SNMPZeroCopy.cpp:86-114 | Every request value decoded before anything else, one owned tree each, or failure with what was decoded still owned |
| Staging.DropValues | src/SNMPZeroCopy.cpp:480 | The destructor of the decoded values gives back every slot of every tree |
| Staging.DropPlan | src/SNMPZeroCopy.cpp:530 | The destructor of the plan gives back every planned value |
| PlanFacts.StageWell | src/SNMPZeroCopy.cpp:175-358 | Every staged row has a well-formed name that fits the plan and a value that fits a pool slot, there are at most the cap of them, and handlers stay well-formed |
| PlanFacts.DecodedTyped | src/SNMPZeroCopy.cpp:101-111 | A decoded value has the type it was decoded for and is within the caps |
| ResponseWriter.ReplyPeak | src/SNMPZeroCopy.cpp:372-451 | The room a reply needs: 36 octets, the community TLV and the peak of its rows |
| ResponseWriter.WriteEnvelopeHeader | src/SNMPZeroCopy.cpp:372-391 | The open envelope, exactly when it fits |
| ResponseWriter.CloseEnvelope | src/SNMPZeroCopy.cpp:444-449 | Closing the three scopes leaves the encoded message |
| ResponseWriter.WriteErrorResponse | src/SNMPZeroCopy.cpp:393-409 | The error response is written exactly when it fits and is the encoded message |
| ZeroCopy.WriteValue | src/SNMPZeroCopy.cpp:360-370 | The value's own serialisation copied out |
| ZeroCopy.WriteRow | src/SNMPZeroCopy.cpp:425-442 | One varbind, exactly when its peak fits |
| ZeroCopy.WriteRows | src/SNMPZeroCopy.cpp:425-442 | All planned varbinds in order, exactly when they fit |
| ZeroCopy.WriteNormalResponse | src/SNMPZeroCopy.cpp:411-451 | The planned response is written exactly when it fits and is the encoded message |
| ZeroCopy.WriteResponse | src/SNMPZeroCopy.cpp:585-616 | Planned response, else the small error response, else nothing |
| ZeroCopy.StageRequest | src/SNMPZeroCopy.cpp:535-583 | The switch over the PDU types stages the pure answer |
| ZeroCopy.DispatchInPlace | src/SNMPZeroCopy.cpp:486-616 | Everything after the decode pass equals the pure dispatch; who may do what is `EndToEnd.PermissionIs` |
| ZeroCopy.ReadsFromWalk | src/SNMPZeroCopy.cpp:89-99 | Every slice of an accepted packet lies inside the buffer and reads what the walk saw |
| ClassicEngine.SNMPPacket.constructor | src/include/SNMPPacket.h:39 | An empty packet |
| ClassicEngine.SNMPPacket.EmplaceBack | src/include/SNMPPacket.h:112-123 | Appends exactly while there is room |
| ClassicEngine.SNMPPacket.PopBack | src/include/SNMPPacket.h:133-142 | Drops the last varbind, if any |
| ClassicEngine.SNMPPacket.Clear | src/include/SNMPPacket.h:144-150 | Drops all varbinds and nothing else |
| ClassicEngine.SNMPPacket.ParsePacket | src/SNMPPacket.cpp:42-161 | The state machine over a container tree is the pure parser |
| ClassicLaws.ParseIs | src/SNMPPacket.cpp:42-161 | The parser accepts exactly the trees of its grammar, as far as they go, and reads what stands there; missing fields are zero, a constructed value is NULL |
| ClassicEngine.ParseInto | src/SNMPPacket.cpp:163-184 | The packet buffer decoded against the pool, then parsed: success exactly when the pure parser succeeds with the free slots there are; every slot taken is owned by the tree; every parsed value is within the caps; its header containers and clones take no slots here |
| ClassicEngine.SNMPPacket.AddResponse | src/SNMPResponse.cpp:3-6 | Appends a row, or drops it in silence when the packet is full |
| ClassicEngine.SNMPPacket.AddErrorResponse | src/SNMPResponse.cpp:8-17 | The same, and takes over its error with the index it would have, even when the packet is full |
| ClassicEngine.SNMPPacket.SetGlobalError | src/SNMPResponse.cpp:19-25 | Overwrites the error when told to or when there is none |
| ClassicEngine.SNMPPacket.Build | src/SNMPPacket.cpp:193-310 | The response tree, no list longer than the child cap; a value, which takes no slots here |
| ClassicEngine.AppendResponseVarBind | src/SNMPPDUHandler.cpp:29-41 | Appends a row exactly while there is room |
| ClassicEngine.HandleGetRequestPDU | src/SNMPPDUHandler.cpp:43-76 | The owning GET and GETNEXT loop is the pure one |
| ClassicEngine.HandleSetRequestPDU | src/SNMPPDUHandler.cpp:78-124 | The owning SET loop is the pure one, rows and handlers |
| ClassicEngine.HandleGetBulkRequestPDU | src/SNMPPDUHandler.cpp:126-208 | The owning GETBULK loops are the pure ones; failure is overflow |
| Classic.RepeatersInsideIff | src/SNMPPDUHandler.cpp:159-165 | The index of the repeater loop, computed with wrapping unsigned arithmetic, stays inside the varbind list exactly when the non-repeater count is not negative as an int |
| ClassicEngine.BulkNonRepeaters | src/SNMPPDUHandler.cpp:129-157 | Its non-repeater loop |
| ClassicEngine.BulkRepeaters | src/SNMPPDUHandler.cpp:159-205 | Its repeater loop, each name taken at the wrapping index |
| ClassicEngine.BulkRepeater | src/SNMPPDUHandler.cpp:163-204 | Its repetition loop, the name replaced after every row |
| ClassicEngine.BuildResponse | src/SNMPParser.cpp:107-120 | Rows or a global error into the response object and its tree; values, which take no slots here |
| ClassicEngine.HandlePacket | src/SNMPParser.cpp:17-150 | handlePacket on the buffer: code, response octets, handlers and inform callback are the pure classic handler's with the free slots there are; the pool ends with exactly the slots it had, with no double-release alarm; that is the parse tree alone, the clones, response rows and response tree of the code take no slots here |
| Agreement.ClassicParses | src/SNMPPacket.cpp:42-184 | The classic parser reads every canonical message, whatever follows it |
| Agreement.ZeroCopyDecodes | src/SNMPZeroCopy.cpp:86-114 | The zero-copy decode pass takes the same values from it |
| Agreement.StagesAgree | src/SNMPPDUHandler.cpp:43-208 | From the same slot contents both engines stage the same rows, or the same global error, and leave the same handlers |
| Agreement.SameLastError | src/SNMPResponse.cpp:8-17 | Both report the same last-error status and index |
| Agreement.ReplyTree | src/SNMPPacket.cpp:193-310 | The classic response tree is the message the zero-copy engine writes |
| Agreement.AnswersAgree | src/SNMPParser.cpp:122-149 | From one staged answer both make the same code and octets exactly outside the gap |
| Inform.InformQueue.constructor | src/SNMPInform.cpp:13-36 | An empty queue |
| Inform.InformQueue.RemoveMatching | src/SNMPInform.cpp:13-36 | Two-index compaction leaves exactly the items that do not match, in order, with a null tail, and counts the removed ones |
| Inform.InformQueue.QueueAndSendTrap | src/SNMPInform.cpp:62-113 | Replacement, the queue-full and build failures, the ids drawn and the item queued |
| Trap.BuildSlots | src/SNMPPacket.cpp:193-229 | A trap is built exactly from one number of free slots on and whole exactly from another on, at most 15 and 3 a varbind; in between something is left out |
| Trap.PartialTrap | src/SNMPTrap.cpp:68-160 | With one slot too few the trap is still built, and it is not the whole tree |
| Trap.ReserveIsEnough | src/include/defs.h:334-388 | With the derived pool size, a trap of at most the reserved varbinds and a permanent baseline within the handler cap, the tree is always whole |
| TrapWire.VersionOneSent | src/SNMPTrap.cpp:44-66 | With 15 slots and three a handler, the octets of a version 1 trap: tag 0xA4, enterprise, agent address, generic, specific, time, then each handler's name and value |
| TrapWire.VersionTwoSent | src/SNMPTrap.cpp:68-160 | The octets of a version 2c trap or inform likewise |
| TrapWire.VersionTwoReads | src/SNMPTrap.cpp:68-160 | A receiver's walk reads them as 0xA6 for an inform and 0xA7 otherwise, with its id, status and index 0, then 1.3.6.1.2.1.1.3.0 with the time, 1.3.6.1.6.3.1.1.4.1.0 with the trap's name, and each handler's name and value in order |
| Trap.SNMPTrap.SendTo | src/SNMPTrap.h:150-189 | From any pool: a reset, the deletion of whatever the packet points to, then the encoding of the tree the free slots allow, under the old id on a retry and a new one otherwise; afterwards the trap has no tree and the pool is as it was after that deletion but for the slots of a PDU that could not be finished. In a settled pool that is the permanent baseline, and an alarm is raised exactly when the packet was dangling: its slot free, by no reset, and not warned about |
| Trap.SNMPTrap.BuildAndSend | src/SNMPInform.cpp:62-113 | What the packet points to is deleted; the first build succeeds by the slots free then; the packet sent is that of a second build, an inform's under the id drawn first and a plain trap's under another; an inform without a place in the queue is not sent and keeps its tree and its packet. Only the deletion can raise an alarm |
| TrapQueue.QueueAndSendTrap | src/SNMPInform.cpp:62-113 | Queue, trap object and pool together: the queue takes the step of a send that builds exactly when the slots free after the deletion of the old packet allow a tree; it logs a send exactly when sendTo runs, under the id the trap then holds, with which the octets on the wire were built; nothing goes out otherwise |
| TrapQueue.CarriesId | src/SNMPPacket.cpp:193-229 | However incomplete, a version 2c tree that is built carries the id it was built with |
| TrapQueue.Resend | src/SNMPInform.cpp:137-143 | A retry logs and puts on the wire the id the trap holds, and leaves it |
| TrapQueue.HasRoom | src/SNMPInform.cpp:76-86 | The room left for an inform once a replacing send has dropped those of its trap |
| Trap.SNMPTrap.DeletePacket | src/BERDecode.cpp:73-103 | Deletes whatever stands at the slot the packet points to: the trap's own tree, nothing, or what has been put there since; what comes of it is `Trap.DeleteOutcome` |
| Trap.SNMPTrap.Rebuild | src/SNMPTrap.h:136-144 | Deletes what the packet points to and builds the new tree with the slots free then; a version 1 trap without its name is not built and keeps its old packet |
| Trap.DeleteOutcome | src/BERDecode.cpp:62-115 | The three outcomes of deleting a packet: a live tree, whosever it is, is given back whole; a free slot is silent if a reset freed it or it was warned about; else one alarm |
| Trap.ResetAndDelete | src/SNMPTrap.h:150-156 | In a settled pool a reset and the deletion of a packet leave exactly the baseline, with an alarm exactly for a dangling one |
| Trap.BetweenBuilds | src/SNMPTrap.h:150-156 | The reset under a first tree and its stale deletion are silent and leave the baseline of a settled pool; in a pool never frozen before, the baseline grows by the slots of the tree |
| Trap.EarlyTrap | src/include/BER.h:151-172 | After a trap sent before the first reset, every later reset sets the count in use to a baseline that includes the slots of its tree beside everything that was live, unless the baseline is frozen again explicitly |
| KeptTree.HarmlessIff | src/SNMPInform.cpp:82-92 | A live tree is kept; after any run of the pool its packet is deleted, whatever stands in the slots it lost. That is silent and gives back only slots that are still the tree's if and only if every node the deletion gets to still has its slot, or lost it to a reset and the slot was not granted since, or has a free slot that was already warned about |
| KeptTree.RootDecides | src/SNMPInform.cpp:82-92 | For a tree the baseline does not cut through, and of which nobody else releases a slot, the same with the history of the root slot alone; while the root has its slot the whole tree is there and exactly it is given back |
| KeptTree.Straddling | src/include/BER.h:163-170 | With a root below the baseline and a child above it the root alone does not decide: after a reset the child's slot is granted, and deleting the packet, whose root slot nobody took, gives back the value that stands there, or raises an alarm once it has gone |
| KeptTree.OwnIff | src/include/BER.h:122-172 | A slot is still the tree's exactly when no reset swept it and nothing released it |
| KeptTree.ReclaimedIff | src/include/BER.h:122-172 | It is free for a silent delete exactly when some reset took it and it was not granted since |
| KeptTree.RequestBetween | src/SNMPInform.cpp:82-92 | The failing run: a kept tree right above the baseline, a reset, one value granted and given back; the next delete of the packet raises an alarm, after any number of further resets too |
| KeptTree.TwoKept | src/BERDecode.cpp:75-103 | With two kept trees whose roots had one slot, deleting the first packet gives back the second tree, and deleting the second is then an alarm |
| Trap.BuildEnvelope | src/SNMPPacket.cpp:193-229 | The tree the free slots allow, each slot owned once; a PDU without its varbind list is owned by nobody and its slots are lost until the next reset |
| Trap.AddList | src/SNMPTrap.cpp:68-160 | The varbind list the free slots allow; one that cannot be finished is given back in full |
| Trap.AddCallbacks | src/SNMPTrap.cpp:111-160 | The loop over the attached handlers |
| Trap.AddBind | src/SNMPTrap.cpp:113-157 | One varbind: its node or a failure; name and value each left out when no slot is free |
| Trap.AddCopy | src/SNMPTrap.cpp:124-157 | The copy of a served value, which needs a second slot while the served one is alive |
| Inform.InformQueue.InformCallback | src/SNMPInform.cpp:115-123 | An acknowledgement removes every item of that id |
| Inform.InformQueue.MarkTrapDeleted | src/SNMPInform.cpp:149-153 | A deleted trap takes its items with it |
| Inform.InformQueue.InformPendingWithId | src/SNMPInform.cpp:50-56 | True exactly when an item of that id is queued |
| Inform.InformQueue.HandleInformQueue | src/SNMPInform.cpp:125-147 | The poll loop: 32-bit unsigned time, resend, count down, drop |
| InformLaws.WithoutIs | src/SNMPInform.cpp:13-36 | Compaction keeps exactly the non-matching items, each once |
| InformLaws.WithoutInOrder | src/SNMPInform.cpp:13-36 | And in order |
| InformLaws.StepInv | src/SNMPInform.cpp:62-153 | Every operation keeps: attempts and remaining retries of a queued inform add up to one more than its budget |
| InformLaws.AtMostBudget | src/SNMPInform.cpp:125-147 | Over any run an inform with a budget of r >= 0 is sent at most 1 + r times |
| InformLaws.GivenUpExactly | src/SNMPInform.cpp:58-60 | An inform a poll gives up on was sent exactly 1 + r times; one with a negative budget is never given up |
| InformLaws.Unanswered | src/SNMPInform.cpp:125-147 | Over any run without its acknowledgement, the deletion of its trap or a send replacing it, an inform is sent once more at each poll that comes late while it has retries, and dropped at the next late poll, sent exactly 1 + r times |
| InformLaws.JustQueued | src/SNMPInform.cpp:88-107 | A send queues the inform with its own time, delay, retries, trap and id and sends it once |
| InformLaws.FirstRetry | src/SNMPInform.cpp:125-143 | The poll after a send resends the inform exactly when more than the delay has passed since the send, in unsigned 32-bit milliseconds, and it has retries |
| InformLaws.SentAndUnanswered | src/SNMPInform.cpp:62-147 | From the send on, over any run that leaves it alone: sent once and once more at each late poll up to its retries, and dropped at the next |
| InformLaws.SentAndEnded | src/SNMPInform.cpp:115-153 | Its acknowledgement or the deletion of its trap ends it after one send |
| InformLaws.NotSent | src/SNMPInform.cpp:65-92 | A send that does not build, or an inform that finds no place, logs nothing and takes no serial number; the id reported is 0 |
| InformLaws.GoneIsSilent | src/SNMPInform.cpp:115-147 | Once out of the queue an inform is never sent again, whatever follows |
| InformLaws.NothingAfterAck | src/SNMPInform.cpp:115-123 | In particular not after its acknowledgement |
| InformLaws.RetriesKeepTheirId | src/SNMPTrap.h:146-156 | If every send uses replacement and builds, every retry carries the id its inform was queued with |
| InformLaws.RetryIdExactly | src/SNMPTrap.h:150-156 | For an inform still queued after any run, the poll that resends it logs for it exactly one id, that of the last build for its trap in the run (the current one if there was none), and so the id it was queued with exactly when the two are equal |
| InformLaws.KeepsItsFields | src/SNMPInform.cpp:125-147 | A queued inform keeps its trap and its request id through any run |
| InformLaws.StaleRetry | src/SNMPInform.cpp:65-74 | It can go wrong: after a second send that fails to build, the retry of the first inform goes out under another id |

## Left out

- ZeroCopy.HandlePacketInPlace: null buffer and callback pointers, the log lines and the observability counters are not modelled.
- Staging.DecodeRequestValues: an OBJECT IDENTIFIER value with no contents is refused; the code looks at the octet behind it first.
- Containers.PrimFromBuffer: an IpAddress of fewer than four octets reads as zeros, where the code reads on in the buffer; the decoder counts none of its contents, so IpAddress is outside the round trips and the engine agreement. Lengths of 2^31 and more are refused.
- Containers.Serialise: the array has spare octets behind the limit, because the code writes a header before it tests for room; only the reported length is bounded by the limit.
- Roster.ValueCallback.SetTypeWithValue: when the buffer of an opaque handler is longer than the value container itself, the octets copied from behind the container count as unwritten like the rest. Two handlers bound to one variable, null bindings to only one half of a handler, and the divisor a subclass may give an integer handler are not modelled.
- Roster.SortedIsUnique: the sort itself is the standard library's; only what a sorted roster means is modelled.
- ClassicEngine.HandlePacket: the parse tree takes and gives back its slots; the slots of the header containers, the cloned names and values, the response rows and the response tree are not counted, these copies are taken to succeed (the code dereferences null on a dry pool), and the early returns of the code that leave such transient slots behind are not modelled. The buffer has six spare octets. Fields that a truncated PDU leaves unset read as zero, and TrapPDU messages fail to parse as in the code. A permitted GETBULK with a negative non-repeater count is excluded (next line).
- ClassicEngine.HandleGetBulkRequestPDU: a count negative as an int makes the code index past its varbind list, so it has no defined answer and is excluded by a precondition, here, in HandlePacket and in the agreement; `Classic.RepeatersInsideIff` shows that these are exactly the counts that leave the list. The zero-copy engine takes the count as unsigned.
- Agreement.EnginesAgree: requires the varbind cap within the child cap, as every default has it, names shorter than 128 octets, more free slots than twice the varbind cap for the zero-copy engine and, for the classic engine, slots for the parse tree; the other slots of the classic engine are not counted and its copies are taken to succeed.
- Oids.GenerateData: takes the arcs, not the dotted text; parsing and rendering of dotted names are not modelled (the rendering loses digits of longer arcs).
- Oids.DecodeLongform: arcs below 2^31 that end inside the data, the values for which no intermediate result leaves 32 bits and nothing behind the data is read.
- Oids.SubIdentifier: the same arcs; the names it compares come from the encoder, which only makes such ones.
- Oids.SortOids: the same arcs, for the same reason.
- Inform.InformQueue.QueueAndSendTrap: whether the trap builds and the item can be allocated are inputs, as are time and the ids drawn; `TrapQueue.QueueAndSendTrap` decides the build from the pool.
- Trap.SNMPTrap.SendTo: handlers fit the varbind list beside time and name, as the default caps have it; what stands at the slot the packet points to is an argument, a tree inside the pool; the outcome of the UDP exchange is an input.
- Handlers whose name failed to encode, the deprecated shared_ptr bridge, compile-time flag variants and arena placement.
- The agent loop, UDP, sketches, system-group registration and other thin wrappers over what is modelled.
- SET is not all-or-nothing, GETBULK rows are not interleaved, a successful non-repeater echoes the requested name, and GETNEXT from an unregistered name that is no ancestor ends the walk: the model follows the code and does not claim conformance to sections 4.2.2, 4.2.3 and 4.2.5 of RFC 3416.
