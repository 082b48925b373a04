# netdiag: verified models

A diagnostics library reads bytes that others wrote and keeps small statistics about them.  This project models
its two netlink decoders and two of its stateful diagnostics, and proves what they promise for every input and
every run.

**The decoders.**  `Attributes` and `Netlink` say what a buffer of attributes or messages is, independently of any
walker; both rest on the generic walk of `Walk`.  `NfctContext` and `Nl80211Context` are the programs: while loops
that advance an offset through a buffer, one for each nesting level, and a context with its ring of events. Each loop
is proved to compute a fold over the decomposition, `ConntrackMeaning` and `Nl80211Meaning` say what the nested folds
mean, and the other modules prove what follows: parsing undoes the tests' own encoders, built in place, fed and
drained (`ConntrackEncoder`, `ConntrackBuilder`, `Nl80211Encoder`, `Nl80211Builder`); messages laid out in numbers,
with any flag bits at every depth, are read as what they say (`Wire`, `ConntrackWire`, `Nl80211Wire`); feeding in
parts or at once offers the same events, truncation only loses the end, dispatch is unambiguous (`ConntrackStreams`);
padding and flag bits are never read, at any depth of any message of any buffer (`AttrPadding`, `ConntrackPadding`,
`Nl80211Padding`); whole runs of feeds, pops and resets conserve events, and splitting a feed changes no run
(`FeedRuns`, `ConntrackRuns`, `Nl80211Runs`); the forensics extractors return the addresses of the message
(`ConntrackForensics`).

**The queue.**  `EventQueue` proves that the ring refines a bounded list over every run of pushes and pops.

**The diagnostics.**  `ArpReconContext` and `TracerouteContext` are classes that carry the history of all calls made
since they were created; their fields are proved to be `Run(role, size, history)` after every call. `ArpReconRuns` and
`TracerouteRuns` prove what holds after every run: the spoof counter counts conflicting pairs of neighbours, the hop
tables conserve the global counters, events pushed agree with counters, timeouts never exceed requests.
`ArpReconHistory` and `TracerouteHistory` say what the state, the queue, the hop tables and the counters are off the
bytes and times of the calls alone.

Where a property fails, the model keeps the code, exhibits an input, and proves exactly when the property holds:

- The message walk does not end once it meets a message longer than 0xFFFFFFFC bytes (`LongBufferDiverges`,
  `HaltsExactlyWhen`).
- From 0x5443464E bytes on a buffer can be both a synthetic frame and a netlink message (`DispatchIsAmbiguousAbove`).
- With an IPv4 ORIG and an IPv6 REPLY the extractor answers with an all-zero address (`MixedFamiliesMislead`); what is
  extracted is exact iff both sides are of one family (`DecodedExtractionIsExactWithinOneFamily`).
- Types 2 and 4 of RATE_INFO share one field, so there order matters (`RateOrderMatters`).
- Beyond 64 replies the spoof counter misses pairs (`SpoofMissedAfter64`, `SpoofsAreCompleteExactlyWhen`).
- A deadline that wraps at 64 bits makes a fresh request overdue (`OverdueMeansLateExactlyWhen`).
- A framed nl80211 buffer cut inside its first message is taken for a bare stream, below 64 KiB always as an error, so
  that truncation does not only lose the end (`CutMessageIsOneError`, `TruncationLosesTheEndExactlyWhen`).
- Percentages wrap beyond 42949672 losses (`PercentExactlyWhen`, `LossBeyond`), and the average beyond 858993459 replies
  (`AverageExactlyWhen`, `AverageBeyond`).  The loss of a hop can be 200 and it can be negative
  (`HopLossBeyond`); two counters decide whether it is in 0..100 (`HopLossIsPercentageExactlyWhen`).
- An ARP reply always counts as 5 ms and a traceroute answer as 0 or 5 ms (`LatenciesAreDefault`,
  `LatenciesAreFlat`).

Where the code and its documentation disagree the model follows the code: the conntrack queue has 16 places by
default (`src/nfct.c:70`, while `include/nfct.h:26` says 32), and a full queue drops the newest event
(`src/nfct.c:77-86`, while `docs/decisions/002-event-model-timestamping-queue.md:26` says the oldest).

`dafny verify dfyconfig.toml` checks the whole project.

## Model

| member | source | states |
|---|---|---|
| `Bytes.Align4` | src/nfct.c:169-170 | rounding up to four in 32 bits is at least the argument up to 0xFFFFFFFC, and 0 above |
| `Bytes.Align4Is` | src/nfct.c:455 | the rounding is `(x + 3) mod 2^32` rounded down to a multiple of four, and it is the first multiple from `x` on unless it wraps |
| `Bytes.ReadLe32` | src/nfct.c:115-120 | reading a little-endian word back gives the word written, for every word |
| `Bytes.ReadBe32` | src/nfct.c:99-103 | the same for big-endian words |
| `Bytes.Byte8` | src/nl80211_parse.c:191-203 | every signed byte survives its one-byte two's-complement form |
| `Walk.ItemsShift` | src/nfct.c:141-172 | a walk that starts behind a prefix finds what it would find without it |
| `Walk.ItemsAppend` | src/nfct.c:384-456 | the walk of a buffer that ends exactly, followed by another buffer, is the two walks one after the other |
| `Walk.ItemsOfPrefix` | src/nfct.c:384-397 | a walk of a truncated buffer finds a prefix of the items |
| `Attributes.AttrsAreItems` | src/nfct.c:144-153 | the attribute decomposition is the generic walk over attribute headers |
| `Attributes.StateAfterIsFold` | src/nfct.c:144-171 | from every offset and state, a walker's loop ends in the fold of its step over the decomposition |
| `Attributes.FoldAppend` | src/nfct.c:144-171 | folding over two streams is folding over the first, then the second |
| `Attributes.FoldIgnores` | src/nfct.c:238-268 | an attribute that no state reacts to can be dropped from anywhere |
| `Attributes.FoldPermuted` | src/nl80211_parse.c:178-231 | a step for which attributes of different types commute folds every order of attributes of pairwise distinct types alike |
| `Attributes.LastIsLast` | src/nfct.c:238-268 | `Last` is the payload at the highest index with the type and enough bytes |
| `Attributes.LastNone` | src/nfct.c:238-268 | `Last` is None iff no attribute has the type and enough bytes |
| `Attributes.LastOfDistinct` | src/nfct.c:238-268 | with pairwise distinct types `Last` does not depend on the order |
| `Attributes.InsideOfDistinct` | src/nl80211_parse.c:233-266 | with pairwise distinct types the attributes inside a nest type are those of its one nest |
| `Attributes.AttrsAppend` | src/nfct.c:144-171 | decompositions of whole streams compose |
| `Attributes.EncAttrWhole` | tests/test_nfct_cta.c:41-55 | one encoded attribute decomposes into its type and payload, and the walk ends exactly behind its padding |
| `Attributes.FlagBitsAreStripped` | src/nfct.c:54-59 | whatever the two flag bits added to a type below 0x4000, the attribute is read under the plain type with its payload |
| `Wire.RawIsEncAttr` | tests/test_nfct_cta.c:41-55 | the encoder writes the length low byte first, the type, the flag bits 0x40 times their number, the payload and up to three zeros |
| `Wire.RawReads` | src/nfct.c:144-171 | so laid out, an attribute of any type below 256 and any flag bits reads as that type and that payload |
| `Wire.BigWord` | tests/test_nfct_cta.c:20-39 | big-endian words in the weights of their four bytes |
| `Attributes.EncAttrsAppend` | tests/test_nfct_cta.c:41-55 | appending attribute lists appends their bytes |
| `Attributes.AttrsUndoEncAttrs` | tests/test_nfct_cta.c:41-55 | the decomposition of the bytes of any list of attributes is that list, and the walk ends exactly at the last byte |
| `Attributes.EncodedAligned` | tests/test_nfct_cta.c:41-55 | encoded attributes end on a multiple of four |
| `Attributes.AttrsWithInsertion` | src/nfct.c:238-268 | inserting an encoded attribute between whole attributes inserts exactly it into the decomposition |
| `Netlink.MessagesStep` | src/nfct.c:384-402 | a walk finds the message at its offset and what lies behind its rounded length, or nothing |
| `Netlink.QueueAfterIsOneBurst` | src/nfct.c:384-456 | offering events message by message leaves the queue that offering all of them at once leaves |
| `Netlink.MessagesAppend` | src/nfct.c:384-456 | messages of a buffer that ends exactly, followed by another buffer, are the messages of both |
| `Netlink.MessagesOfPrefix` | src/nfct.c:384-397 | a truncated buffer holds a prefix of the messages |
| `Netlink.EventBound` | src/nfct.c:395-402 | a decoder that yields at most one event per message of 20 bytes or more yields at most `len / 20` |
| `Netlink.MessageReplaced` | src/nfct.c:384-456 | replacing one message by one of equal length that a decoder cannot tell apart, whatever its padding, leaves what it finds in any buffer |
| `Netlink.OneMessage` | src/nfct.c:384-456 | a message that gives its own length, with all or part of its padding, is found as itself |
| `Netlink.TurnAdvances` | src/nfct.c:395-402 | a turn of the loop advances iff the message length is at most 0xFFFFFFFC, and then by 16 or more |
| `Netlink.HaltsExactlyWhen` | src/nfct.c:384-456 | the walk ends iff it never reaches an in-bounds message longer than 0xFFFFFFFC |
| `Netlink.ShortBuffersHalt` | src/nl80211_parse.c:301-327 | it ends for every buffer of at most 0xFFFFFFFC bytes |
| `Netlink.HaltsIffWalkable` | src/nfct.c:384-456 | it ends iff each message it meets can be stepped over, which can be read off the buffer |
| `Netlink.LongBufferDiverges` | src/nfct.c:384-456 | above that bound there is, for every length, a buffer of that length on which it never ends |
| `EventQueue.Clamp` | src/nfct.c:68-75 | the capacity is between 1 and 32: the configured one if that is in range, the default for 0, and 32 for more |
| `EventQueue.OfferedAllKeepsPrefix` | src/nfct.c:77-86 | a burst keeps its longest prefix that fits: the newest events are dropped |
| `EventQueue.OfferedAllAppend` | src/nfct.c:77-86 | two bursts leave what their concatenation leaves |
| `EventQueue.AcceptedIsPoppedThenQueued` | src/nfct.c:77-97 | after every run, the accepted events are the popped ones followed by the queued ones, within capacity |
| `EventQueue.PushedIsAcceptedOrDropped` | src/nfct.c:77-86 | after every run, the pushed events are the accepted and the dropped ones, as multisets |
| `EventQueue.SlotIsModulo` | src/nfct.c:82-83 | slots are places modulo the capacity |
| `EventQueue.AdvanceIsSlot` | src/nfct.c:83-94 | advancing an index by one modulo the capacity is advancing one place |
| `EventQueue.Ring.constructor` | src/nfct.c:68-75 | a valid empty ring of the clamped capacity |
| `EventQueue.Ring.Reset` | src/nfct.c:337-343 | the capacity stays, everything else starts anew |
| `EventQueue.Ring.Push` | src/nfct.c:77-86 | appends iff there is room, drops the new event otherwise, and keeps the ring invariant |
| `EventQueue.Ring.Pop` | src/nfct.c:88-97 | takes the oldest event, None iff there is none |
| `EventQueue.Perform` | src/nfct.c:68-97 | a ring that performs any history of pushes and pops ends with the books of the bounded list, and accepted = popped + queued |
| `Conntrack.MagicAsLength` | src/nfct.c:348-397 | the big-endian magic of a synthetic frame is the little-endian length 0x5443464E |
| `NfctContext.ParseTupleIp` | src/nfct.c:141-172 | the loop computes the fold of its step over the decomposition, in at most a quarter as many iterations as bytes |
| `NfctContext.ParseTupleProto` | src/nfct.c:174-202 | the same one level beside |
| `NfctContext.ParseTuple` | src/nfct.c:204-228 | the same one level up, from a tuple that is cleared first; iterations of nested loops count as well |
| `NfctContext.ParseCtAttrs` | src/nfct.c:230-314 | the same at the outermost level, and then the two directions merged |
| `NfctContext.MergeTuples` | src/nfct.c:270-313 | the field-by-field merge is `Merge`: lan from ORIG, wan from REPLY with its ends swapped, one family |
| `NfctContext.StartOf` | src/nfct.c:407-432 | the type an event starts with, as the specification gives it; `TypeOnWire` says which bytes decide it |
| `NfctContext.ParseMessage` | src/nfct.c:402-454 | one message gives one event, within the work bound |
| `NfctContext.Nfct.constructor` | src/nfct.c:321-330 | an empty queue of the clamped size, 16 by default |
| `NfctContext.Nfct.Reset` | src/nfct.c:337-343 | empties the queue and keeps its capacity |
| `NfctContext.Nfct.TrySynth` | src/nfct.c:345-378 | takes exactly the frames of 32 bytes or more that start with the magic, and offers their event |
| `NfctContext.Nfct.ParseNetlink` | src/nfct.c:380-457 | on every buffer on which the walk ends: offers the events of all messages in order; `16 * turns + 4 * steps <= len` over all loops at all depths |
| `NfctContext.Nfct.FeedInput` | src/nfct.c:459-473 | for every synthetic frame and every buffer on which the walk ends: the queue is the old one offered all events of the buffer; the work bound holds for the feed |
| `NfctContext.Nfct.NextEvent` | src/nfct.c:475-482 | takes the oldest event and leaves the rest |
| `ConntrackMeaning.TupleMeaning` | src/nfct.c:204-228 | a tuple is the last sufficient payload of each leaf type over all its IP and all its PROTO nests: repeated nests merge field by field |
| `ConntrackMeaning.CtStepMeaning` | src/nfct.c:238-268 | one more attribute, ORIG and REPLY replacing the earlier tuple wholly, changes the meaning as it changes the parser's state |
| `ConntrackMeaning.DecodeMeaning` | src/nfct.c:230-268 | the three nested walks mean: last ORIG, last REPLY, last sufficient MARK, ZONE, ID and STATUS |
| `ConntrackMeaning.LaterDirectionReplaces` | src/nfct.c:238-250 | a direction replaces an earlier one of its kind wholly: taking the earlier attribute out of any stream changes nothing |
| `ConntrackMeaning.Ipv4ComesFirst` | src/nfct.c:279-309 | a direction with addresses of both families is reported by its IPv4 ones, on either side, and the event is IPv6 iff a side has IPv6 addresses only |
| `ConntrackMeaning.SidesAreReportedExactlyWhen` | src/nfct.c:270-314 | after every message body a side is reported iff its direction has an address, its ports are those of the direction seen from the right end or 0, its addresses are 0 without any, and the protocol is that of ORIG, else that of REPLY, else 0 |
| `ConntrackMeaning.OrderDoesNotMatter` | src/nfct.c:238-268 | permuting attributes of pairwise distinct types leaves the decoded state unchanged |
| `ConntrackMeaning.OrderInMessage` | src/nfct.c:402-454 | so does permuting them in a whole message |
| `ConntrackMeaning.OrderInsideTuple` | src/nfct.c:204-228 | permuting attributes of pairwise distinct types of a direction leaves its tuple unchanged |
| `ConntrackMeaning.OrderInsideIp` | src/nfct.c:141-172 | the same inside an IP nest, whatever earlier nests left behind |
| `ConntrackMeaning.OrderInsideProto` | src/nfct.c:174-202 | the same inside a PROTO nest |
| `ConntrackMeaning.UnknownIsTransparent` | src/nfct.c:238-268 | inserting an attribute of an unrecognised type, with any payload and flag bits, leaves the decoded state unchanged |
| `ConntrackMeaning.UnknownInsideDirection` | src/nfct.c:141-228 | nor does one inside a direction or inside either of its nests change what they decode to |
| `ConntrackMeaning.UnknownInMessage` | src/nfct.c:402-454 | for whole messages the event stays the same iff it is not a PARTIAL one, whose reason quotes the message length |
| `ConntrackStreams.DispatchExactlyWhen` | src/nfct.c:459-473 | for every synthetic frame: the message walk would find no event in it iff it is below 0x5443464E bytes |
| `ConntrackStreams.DispatchIsAmbiguousAbove` | src/nfct.c:459-473 | from 0x5443464E bytes on there is, for every length, a buffer that both paths would accept |
| `ConntrackStreams.SynthOnWire` | src/nfct.c:345-353 | a synthetic frame is 32 bytes or more that start with the letters NFCT |
| `ConntrackStreams.SynthIsNotItsMessages` | src/nfct.c:345-457 | whatever its length, the message walk would not find exactly the event that a synthetic frame is taken for, because byte 4 means different things to the two |
| `ConntrackStreams.EventsAppend` | src/nfct.c:384-456 | events of concatenated buffers are the events of both, if the first walk ends exactly |
| `ConntrackStreams.BatchingOffersTheSame` | src/nfct.c:459-473 | for every A that is a synthetic frame or whose walk ends exactly: feeding A ++ B offers what feeding A and then B offers iff A is a synthetic frame and B offers nothing, or else A is empty or B is no synthetic frame, for every B |
| `ConntrackStreams.BatchingLeavesTheSameQueue` | src/nfct.c:77-86 | then the queue ends up the same from every starting queue, full ones included |
| `ConntrackStreams.TruncationOnlyLosesTheEnd` | src/nfct.c:345-397 | for every buffer: the events of every prefix are a prefix of its events, on both paths |
| `ConntrackStreams.EventsFitTheBuffer` | src/nfct.c:459-473 | at most one event for every 20 bytes, on both paths |
| `ConntrackStreams.TypeOnWire` | src/nfct.c:407-432 | off the bytes: an event that is not PARTIAL is DESTROY iff the low byte of the message type is 2, UPDATE iff that byte is neither 0 nor 2 or it is 0 with flag 0x100 and without flag 0x400, and NEW otherwise |
| `FeedRuns.RunsConserve` | src/nfct.c:337-482 | over every run of feeds, pops and resets of either parser: events decoded since the last reset are those delivered, queued and lost, and delivered before queued in the order kept |
| `ConntrackRuns.SplittingAFeedChangesNoRun` | src/nfct.c:384-473 | anywhere in any run a buffer can be fed in two parts, joinable ones, at the end of a message or of a synthetic frame without any event being delivered, queued or lost differently, then or later |
| `FeedRuns.OfferInTwo` | src/nfct.c:77-86 | two bursts keep and lose what their concatenation keeps and loses, from every queue |
| `FeedRuns.SplittingAFeed` | src/nfct.c:459-473 | where two feeds offer the events of one, splitting it anywhere in any run changes nothing, then or later |
| `ConntrackRuns.Perform` | src/nfct.c:321-482 | a context that performs any calls whose walks end, from its creation on, delivers and queues exactly what the log of the run says |
| `ConntrackForensics.AtMostOneAnswers` | src/nfct.c:523-581 | at most one extractor returns 1 for any event, and one does iff it has a lan side and a protocol |
| `ConntrackForensics.ExtractionIsExactWithinOneFamily` | src/nfct.c:279-309 | with addresses on both sides, the extracted addresses are ORIG's source and REPLY's destination iff both are of one family; the ports and the protocol are exact in any case |
| `ConntrackForensics.MixedFamiliesMislead` | src/nfct.c:279-309 | for every record with an IPv4 ORIG of non-zero protocol and an IPv6 REPLY, feeding its message gives an event for which the IPv6 extractor answers with an all-zero lan address |
| `ConntrackForensics.DecodedIsWellFormed` | src/nfct.c:402-454 | every decoded event: four 16-byte IPv6 addresses; PARTIAL iff no address and not a DESTROY with an id, and then the reason quotes type and length; a reason iff no address; DESTROY keeps its id |
| `ConntrackForensics.DecodedExtractionIsExactWithinOneFamily` | src/nfct.c:523-581 | the same for the event of every message |
| `AttrPadding.AlikeAttrs` | src/nfct.c:144-171 | streams that differ only in padding and flag bits, at any depth, have attributes that differ only so |
| `AttrPadding.PaddingAndFlagsAreUnread` | src/nfct.c:54-59 | at any level: overwriting padding and flag bits of one attribute of a stream, whose padding may be missing if it is the last, gives a stream that differs only there |
| `AttrPadding.AlikeBody` | src/nfct.c:141-268 | the same for one attribute at any depth that a parser enters, whatever the padding of the nests around it |
| `ConntrackPadding.AlikeTuples` | src/nfct.c:204-228 | tuples that differ only in padding and flag bits, at any depth, decode alike |
| `ConntrackPadding.AlikeMessageBodies` | src/nfct.c:238-268 | so do message bodies |
| `ConntrackPadding.UnreadBytesDoNotMatter` | src/nfct.c:459-473 | whole buffers that differ only there, in the unread header fields and between messages offer the same events in the same order |
| `ConntrackPadding.OverwritingIsUnread` | src/nfct.c:384-455 | in any buffer, behind whole messages: overwriting the unread bytes of one message's header, body and padding, which may be missing at the end of the buffer, changes no event, unless the buffer is a synthetic frame |
| `ConntrackPadding.FlagsAndPaddingAreUnreadAnywhere` | src/nfct.c:141-268 | the same for the flag bits and the padding of any one attribute at any depth that the parser enters, before and behind anything |
| `ConntrackEncoder.RecordRoundTrip` | tests/test_nfct_cta.c:62-232 | decoding the message of any record gives the event of the record: lan is ORIG, wan is REPLY swapped |
| `ConntrackEncoder.DirectionRoundTrip` | tests/test_nfct_cta.c:74-105 | a direction survives its two nests |
| `ConntrackEncoder.BodyRoundTrip` | tests/test_nfct_cta.c:62-232 | all optional attributes of a record survive, present or absent |
| `ConntrackEncoder.SidesOfRecord` | src/nfct.c:279-309 | ORIG fills the lan side as it is and REPLY the wan side with its ends swapped |
| `ConntrackEncoder.RecordsRoundTrip` | src/nfct.c:380-457 | the messages of any list of records give the events of the records in order |
| `ConntrackEncoder.FeedingUndoesEncoding` | src/nfct.c:459-473 | so does one feed, for every list of records |
| `ConntrackEncoder.SynthRoundTrip` | src/nfct.c:345-374 | every field of a synthetic frame comes out as it went in, whatever follows the frame |
| `ConntrackWire.RawTupleReads` | src/nfct.c:204-228 | a direction laid out in numbers, type by type, with any flag bits on its nests and leaves, decodes to that direction in either family |
| `ConntrackWire.FeedingRawRecord` | src/nfct.c:230-268 | a record laid out in numbers, attribute by attribute, with any flag bits on every attribute at every depth, is fed as one event with every field of the record |
| `ConntrackBuilder.NlaPut` | tests/test_nfct_cta.c:41-55 | writes one attribute in place behind what is there and nothing behind its padding |
| `ConntrackBuilder.BuildDirection` | tests/test_nfct_cta.c:74-105 | the nests built in place are the encoded direction |
| `ConntrackBuilder.BuildRecord` | tests/test_nfct_cta.c:62-136 | the message built in place is the encoded record |
| `ConntrackBuilder.Drain` | src/nfct.c:475-482 | popping until empty gives the queued events in order |
| `ConntrackBuilder.FeedRecordsAndDrain` | src/nfct.c:459-482 | end to end: any list of records that fits the free slots, built in place, fed once and drained, comes out as what was queued followed by those records' events |
| `Nl80211Context.ParseRateInfo` | src/nl80211_parse.c:156-176 | the loop computes the fold of its step over the decomposition, in at most a quarter as many iterations as bytes |
| `Nl80211Context.ParseStaInfo` | src/nl80211_parse.c:178-231 | the same one level up; iterations of nested loops count as well |
| `Nl80211Context.ParseTopAttrs` | src/nl80211_parse.c:233-266 | the same at the outermost level |
| `Nl80211Context.Nl80211Parse.constructor` | src/nl80211_parse.c:103-113 | an empty queue of the clamped size, 16 by default |
| `Nl80211Context.Nl80211Parse.Reset` | src/nl80211_parse.c:120-126 | empties the queue and keeps its capacity |
| `Nl80211Context.Nl80211Parse.TrySynth` | src/nl80211_parse.c:133-154 | takes exactly the frames of 20 bytes or more that start with the magic, and offers their event |
| `Nl80211Context.Nl80211Parse.ParseBare` | src/nl80211_parse.c:278-299 | offers one STATION event, or one ERROR event if neither MAC nor signal was found, within the work bound |
| `Nl80211Context.Nl80211Parse.ParseFramed` | src/nl80211_parse.c:301-328 | on every buffer on which the walk ends: offers the STATION events of all messages that yield a MAC or a signal, in order; `16 * turns + 4 * steps <= len` over all loops at all depths |
| `Nl80211Context.Nl80211Parse.FeedInput` | src/nl80211_parse.c:330-344 | the three-way dispatch, for synthetic frames, bare streams and every buffer on which the walk ends: the queue is the old one offered all events of the buffer; the work bound holds for the feed |
| `Nl80211Context.Nl80211Parse.NextEvent` | src/nl80211_parse.c:346-354 | takes the oldest event and leaves the rest |
| `Nl80211Meaning.DecodeMeaning` | src/nl80211_parse.c:156-266 | the three nested walks mean: the last sufficient payload of each type over all nests of each level |
| `Nl80211Meaning.FramedAndBareAgree` | src/nl80211_parse.c:273-328 | a bare stream that is no synthetic frame, fed alone and fed behind a 20-byte header whose length neither wraps nor reads as the magic, offers the same events iff it yields a MAC or a signal; otherwise one ERROR against nothing |
| `Nl80211Meaning.TypedStreamsAreBare` | src/nl80211_parse.c:278-284 | every stream of 4 to 65535 bytes whose first type field is not zero is taken as bare |
| `Nl80211Meaning.FramedEvents` | src/nl80211_parse.c:301-328 | what one framed message offers, for every stream whose length neither wraps nor reads as the magic |
| `Nl80211Streams.IdentifiedExactlyWhen` | src/nl80211_parse.c:233-266 | a buffer identifies a station iff it holds an attribute 6 of 6 bytes or, inside an attribute 21, an attribute 7 of 1 byte |
| `Nl80211Streams.SynthOnWire` | src/nl80211_parse.c:133-141 | a synthetic station frame is 20 bytes or more that start with the letters 8211 |
| `Nl80211Streams.ErrorExactlyWhen` | src/nl80211_parse.c:278-344 | an ERROR is reported exactly for a buffer of 4 bytes or more whose first word is below 16 or beyond its end, which does not start with the magic of a synthetic frame of 20 bytes, and which identifies no station |
| `Nl80211Meaning.OrderDoesNotMatter` | src/nl80211_parse.c:233-266 | permuting top attributes of pairwise distinct types leaves the event unchanged |
| `Nl80211Meaning.OrderInsideStaInfo` | src/nl80211_parse.c:178-231 | permuting attributes of pairwise distinct types inside STA_INFO does the same to any event |
| `Nl80211Meaning.OrderInsideAnyStaInfo` | src/nl80211_parse.c:233-266 | permuting them inside any STA_INFO nest of a whole stream leaves its event unchanged |
| `Nl80211Meaning.RateOrderMatters` | src/nl80211_parse.c:169-173 | the two rate types share one field: exchanging them changes the event iff their values differ |
| `Nl80211Padding.BareBytesUnread` | src/nl80211_parse.c:278-299 | bare streams that differ only in padding and flag bits, at any depth, offer the same event if both are taken for bare |
| `Nl80211Padding.OverwritingIsUnread` | src/nl80211_parse.c:301-328 | in any framed buffer, behind whole messages: overwriting the unread bytes of one message's headers, body and padding changes no event |
| `Nl80211Padding.FlagsAndPaddingAreUnreadAnywhere` | src/nl80211_parse.c:156-266 | the same for the flag bits and the padding of any one attribute at any depth that the parser enters |
| `Nl80211Streams.CutMessageIsOneError` | src/nl80211_parse.c:278-299 | a framed buffer cut inside its first message offers one ERROR event if the head holds no attribute |
| `Nl80211Streams.ShortHeadsHoldNothing` | src/nl80211_parse.c:233-245 | which is so for every first message below 64 KiB |
| `Nl80211Streams.TruncationLosesTheEndExactlyWhen` | src/nl80211_parse.c:273-328 | the events of a cut framed buffer are a prefix of its events iff the cut leaves the whole first message, or fewer than 4 bytes, or a head that reads as the very station reported first |
| `Nl80211Streams.ShortTruncationLosesTheEndExactlyWhen` | src/nl80211_parse.c:273-328 | the last case is out for first messages below 64 KiB |
| `Nl80211Streams.BatchingExactlyWhen` | src/nl80211_parse.c:273-344 | with the walk of a non-empty A ending exactly and A no synthetic frame: feeding A ++ B offers what feeding A and then B offers iff B alone is reported as its messages are |
| `Nl80211Streams.BatchingOffersTheSame` | src/nl80211_parse.c:273-344 | it does if B is neither a synthetic frame nor a bare stream, and only then for B below 0x31313238 bytes |
| `Nl80211Runs.SplittingAFeedChangesNoRun` | src/nl80211_parse.c:330-344 | anywhere in any run a framed buffer can be fed in two parts at the end of a message, the second part being neither a synthetic frame nor a bare stream, without any event being delivered, queued or lost differently, then or later |
| `Nl80211Runs.Perform` | src/nl80211_parse.c:103-354 | a context that performs any calls whose walks end, from its creation on, delivers and queues exactly what the log of the run says |
| `Nl80211Meaning.UnknownIsTransparent` | src/nl80211_parse.c:156-266 | inserting an attribute of an unrecognised type at any level changes nothing |
| `Nl80211Encoder.BodyRoundTrip` | tests/test_nl80211_attrs.c:84-156 | decoding the nested encoding of any station gives that station, signs of the one-byte signals included |
| `Nl80211Encoder.FeedingUndoesEncoding` | src/nl80211_parse.c:330-344 | one feed of a station message offers exactly that station |
| `Nl80211Encoder.SynthRoundTrip` | tests/test_nl80211_attrs.c:54-82 | every field of a synthetic station frame comes out as it went in, signs included |
| `Nl80211Wire.FeedingRawStation` | src/nl80211_parse.c:156-266 | a station laid out in numbers, attribute by attribute, with either rate type and any flag bits at every depth, is fed as exactly that station, with its headers and without |
| `Nl80211Builder.PutNla` | tests/test_nl80211_attrs.c:35-52 | appends one attribute, or writes nothing and returns 0 iff it does not fit |
| `Nl80211Builder.BuildStation` | tests/test_nl80211_attrs.c:84-140 | the message built in place is the encoded station |
| `Nl80211Builder.FeedStation` | tests/test_nl80211_attrs.c:84-156 | end to end: a station built in place and fed once is the next event |
| `Diagnostics.OverdueMeansLateExactlyWhen` | src/arprecon.c:110 | being overdue means being more than a second old at every time iff the deadline fits 64 bits |
| `Diagnostics.PercentExactlyWhen` | src/traceroute.c:156-157 | a share of a total that fits 32 bits is in 0..100, and it is the exact share iff 100 times the part fits 32 bits too |
| `Diagnostics.PercentIsAtMost100ExactlyWhen` | src/traceroute.c:156-157 | for any two counters: the percentage is at most 100 iff their sum does not wrap, or wraps to a total large enough for the scaled part |
| `Diagnostics.SeenPush` | src/arprecon.c:33-36 | a push is seen once, whether the queue accepts or drops it |
| `ArpReconPairs.PairCountIsCardinality` | src/arprecon.c:89-97 | the incremental count of conflicts is the number of conflicting pairs of entries |
| `ArpReconPairs.PairCountFits` | src/arprecon.c:89-97 | at most n(n - 1)/2 pairs |
| `ArpReconPairs.NoPairsIffFunctional` | src/arprecon.c:89-97 | no pair conflicts iff the table gives each address to one station |
| `ArpReconPairs.PairCountOfPrefix` | src/arprecon.c:84-98 | cutting the table off loses no pair iff no entry behind the cut conflicts with an earlier one |
| `ArpReconPairs.PairCountOrder` | src/arprecon.c:89-97 | the count does not depend on the order of the entries |
| `ArpReconPairs.ScanCounts` | src/arprecon.c:90-97 | the scan adds the number of older entries in conflict with the newest, and changes nothing else but the queue |
| `ArpReconPairs.ScanPushes` | src/arprecon.c:90-97 | it pushes one event for each of them |
| `ArpReconRuns.SpoofsArePairs` | src/arprecon.c:69-98 | in every reachable state the counter is the number of conflicting pairs, at most 2016, and 0 iff the table is functional |
| `ArpReconRuns.NeighboursAreFirstReplies` | src/arprecon.c:84-88 | the table holds the first 64 replies since the last reset, in order |
| `ArpReconRuns.SpoofsIgnoreOrder` | src/arprecon.c:69-98 | up to 64 replies the counter is the same for every permutation of them |
| `ArpReconRuns.SpoofsAreCompleteExactlyWhen` | src/arprecon.c:84-98 | the counter counts all conflicting pairs of replies iff no reply behind the 64th conflicts with an earlier one |
| `ArpReconRuns.SpoofMissedAfter64` | src/arprecon.c:84-98 | for any two stations with one address: a run of 65 replies on the wire whose counter stays 0 although a pair conflicts |
| `ArpReconRuns.RolesKeepTheirSide` | src/arprecon.c:71-102 | a requester never waits or times out, a responder never counts a reply |
| `ArpReconRuns.RunsBalance` | src/arprecon.c:64-118 | after every run: one reply event for each reply heard, as many spoof and anomaly events as counted, and timeouts plus the pending one at most the requests heard |
| `ArpReconRuns.StampIsLastRequest` | src/arprecon.c:99-102 | the time stamp is that of the last stamped request, also across resets |
| `ArpReconRuns.TimeoutExactlyWhenLate` | src/arprecon.c:107-118 | processing times out iff a request is open and the time is behind its deadline, which is a second after the request if 64 bits hold that |
| `ArpReconRuns.RequestThenSilence` | src/arprecon.c:99-118 | a request followed by silence times out at exactly the times more than a second later iff the deadline fits 64 bits |
| `ArpReconRuns.LossIsAllOrNothing` | src/arprecon.c:132 | the loss of a requester is 0; that of a responder with timeouts is 100 iff there are at most 42949672 |
| `ArpReconRuns.LossBeyond` | src/arprecon.c:132 | a run of a responder after which 42949673 timeouts are reported as no loss |
| `ArpReconRuns.LatenciesAreDefault` | src/arprecon.c:74-81 | every reply of a requester counts as the default latency, whatever the times fed |
| `ArpReconRuns.AverageExactlyWhen` | src/arprecon.c:133 | the average is that latency iff the sum of as many latencies as are counted fits 32 bits, after every run |
| `ArpReconRuns.AverageBeyond` | src/arprecon.c:133 | a run of a requester after which 858993460 replies of the default latency are reported with an average of 0 |
| `ArpReconHistory.OnWire` | src/arprecon.c:64-76 | which bytes make a request or a reply, and where a reply keeps the addresses of its sender |
| `ArpReconHistory.StateFollowsCalls` | src/arprecon.c:64-118 | after every run, the time stamp, the open request and every push and pop of the queue, a reply before the spoofs it is found guilty of, are what the calls alone say |
| `ArpReconHistory.CountersFollowCalls` | src/arprecon.c:77-95 | after every run the table holds the first 64 addresses told, and the counters are, in 32 bits, the addresses told and the requests expired since the last reset |
| `ArpReconContext.ArpReconCtx.constructor` | src/arprecon.c:45-51 | the state of the empty run |
| `ArpReconContext.ArpReconCtx.Reset` | src/arprecon.c:55-58 | keeps the role, the capacity and the time stamp only |
| `ArpReconContext.ArpReconCtx.CountReply` | src/arprecon.c:72-82 | one reply: event, counters, and no longer waiting |
| `ArpReconContext.ArpReconCtx.Append` | src/arprecon.c:85-88 | one more entry in the parallel arrays of the table |
| `ArpReconContext.ArpReconCtx.ScanForSpoofs` | src/arprecon.c:90-97 | the loop computes the scan of the newest entry |
| `ArpReconContext.ArpReconCtx.FeedInput` | src/arprecon.c:64-105 | the fields are again those of the run, one call longer, for every frame of which only bytes that are there are read; -1 below 14 bytes |
| `ArpReconContext.ArpReconCtx.Process` | src/arprecon.c:107-118 | likewise for the timeout test |
| `ArpReconContext.ArpReconCtx.NextEvent` | src/arprecon.c:120-124 | the oldest event, None iff there is none |
| `ArpReconContext.ArpReconCtx.GetStats` | src/arprecon.c:126-137 | in 32 bits the replies are the addresses told to a requester and the timeouts the requests that have expired, the duplicates the conflicting pairs among the first 64; the loss is 0 or 100 up to 42949672 timeouts; maximum and minimum are 5 iff there was a reply, and the average is 5 iff the sum fits 32 bits |
| `TracerouteRuns.HopTablesCountProbes` | src/traceroute.c:139-150 | after every run each hop counter is, in 32 bits, the number of probes filed under that hop since the last reset, and each hop sum the time of the successful ones |
| `TracerouteRuns.HitsAddUp` | src/traceroute.c:139-150 | each probe is filed under exactly one hop |
| `TracerouteRuns.ProbesAreOwnOrExternal` | src/traceroute.c:67-107 | each probe is an event the context pushed, or was filed by a caller |
| `TracerouteRuns.RunsBalance` | src/traceroute.c:79-107 | after every run the global counters are, in 32 bits, the reply and timeout events pushed since the last reset |
| `TracerouteRuns.HopTablesConserve` | src/traceroute.c:79-150 | over every run the hop tables sum up, modulo 2^32, to the global counters plus the in-range external probes, and the hop counts equal the hop replies |
| `TracerouteRuns.RequesterFilesUnderHopZero` | src/traceroute.c:75-88 | a requester files each of its answers under hop 0 and no timeout anywhere |
| `TracerouteRuns.RolesKeepTheirSide` | src/traceroute.c:74-91 | a requester never waits or times out, a responder never counts a reply |
| `TracerouteRuns.TimeoutsWithinRequests` | src/traceroute.c:87-107 | timeouts plus the pending one are at most the requests heard since the last reset |
| `TracerouteRuns.StampIsLastPacket` | src/traceroute.c:69-70 | the time stamp is that of the last stamped packet of any kind, also across resets |
| `TracerouteRuns.TimeoutExactlyWhenLate` | src/traceroute.c:95-107 | processing times out iff a request is open and the time is behind the deadline of the last packet, which is a second after it if 64 bits hold that |
| `TracerouteRuns.LatenciesAreFlat` | src/traceroute.c:70-84 | since the last reset each stamped answer took 0 and each other one the default latency: so many events of each kind, and the sum, the maximum and the minimum accordingly |
| `TracerouteRuns.AverageExactlyWhen` | src/traceroute.c:129 | the average of fewer than 2^32 answers is exact, rounded down, iff the sum of their latencies fits 32 bits |
| `TracerouteRuns.AverageBeyond` | src/traceroute.c:129 | a run of a requester after which 858993460 answers of the default latency are reported with an average of 0 |
| `TracerouteRuns.HopLossExactlyWhen` | src/traceroute.c:152-158 | after every run: the loss of a hop whose probes fit 32 bits is in 0..100, and it is the share of lost probes iff there are at most 42949672 |
| `TracerouteRuns.HopLossIsPercentageExactlyWhen` | src/traceroute.c:152-158 | for any counters, wrapping ones included: the loss is in 0..100 iff the sum of the two does not wrap, or wraps to a total large enough for the scaled losses |
| `TracerouteRuns.CountersAreReached` | src/traceroute.c:139-150 | every pair of hop counters is reached by a run, of either role |
| `TracerouteRuns.HopLossBeyond` | src/traceroute.c:156-157 | for every context, a run after which the loss of a hop is 200, and a run after which it is negative |
| `TracerouteHistory.OnWire` | src/traceroute.c:67-92 | which bytes make an answer or an echo request, and where a request keeps its sequence number |
| `TracerouteHistory.StateFollowsCalls` | src/traceroute.c:67-108 | after every run, the time stamp, the open request, the sequence number and every push and pop of the queue with its event are what the calls alone say |
| `TracerouteHistory.HopTablesFollowCalls` | src/traceroute.c:139-150 | after every run the hop tables count what the calls file: an answer or an expired request under its sequence number modulo 32, an external probe under its hop |
| `TracerouteHistory.CountersFollowCalls` | src/traceroute.c:80-103 | after every run the counters are, in 32 bits, the answers heard and the requests expired since the last reset, and no duplicates |
| `TracerouteHistory.RequestThenSilence` | src/traceroute.c:67-108 | from any state of a responder, an echo request and then a processing more than a second later add one event with the number of the request, one timeout and one loss under that number modulo 32, and change nothing else; earlier than that, nothing is added and the request stays open |
| `TracerouteHistory.RequestThenSilenceInRun` | src/traceroute.c:67-108 | the same after any calls: the request expires iff more than a second has passed, and stays open otherwise |
| `TracerouteContext.TracerouteCtx.constructor` | src/traceroute.c:48-54 | the state of the empty run |
| `TracerouteContext.TracerouteCtx.Reset` | src/traceroute.c:58-61 | keeps the role, the capacity, the time stamp and the last sequence number only |
| `TracerouteContext.TracerouteCtx.Record` | src/traceroute.c:139-150 | one probe in the hop tables, nothing for hops out of range |
| `TracerouteContext.TracerouteCtx.RecordHop` | src/traceroute.c:139-150 | the fields are again those of the run, one external probe longer |
| `TracerouteContext.TracerouteCtx.HearAnswer` | src/traceroute.c:74-86 | one answer: event, counters, hop tables, and no longer waiting |
| `TracerouteContext.TracerouteCtx.FeedInput` | src/traceroute.c:67-93 | the fields are again those of the run, one call longer, for every packet of which only bytes that are there are read; -1 below 20 bytes; `StateFollowsCalls` says what that run is |
| `TracerouteContext.TracerouteCtx.Process` | src/traceroute.c:95-108 | likewise for the timeout test, whose effect `RequestThenSilence` gives in full |
| `TracerouteContext.TracerouteCtx.NextEvent` | src/traceroute.c:116-120 | the oldest event, None iff there is none |
| `TracerouteContext.TracerouteCtx.GetStats` | src/traceroute.c:122-133 | in 32 bits the replies are the answers heard by a requester and the timeouts the requests that have expired; the maximum is 5 iff an unstamped answer was heard, the minimum 0 iff a stamped one was or none at all; the average is exact iff the sum fits, for fewer than 2^32 answers; duplicates and loss are always 0 |
| `TracerouteContext.TracerouteCtx.HopLossPct` | src/traceroute.c:152-158 | -1 iff there is no such hop, else its loss as a signed integer, in 0..100 iff the two counters are proportionate |

## Left out

- NfctContext.Nfct.FeedInput: takes synthetic frames and buffers on which the message walk ends, every one of at most 0xFFFFFFFC bytes among them; on the others the call does not return.
- Nl80211Context.Nl80211Parse.FeedInput: the same, and bare streams of any length.
- ArpReconContext.ArpReconCtx.FeedInput: an ARP reply to a requester has at least 32 bytes; on a shorter one the code reads behind its end, except that 28 suffice once the table is full.
- TracerouteContext.TracerouteCtx.FeedInput: a packet of 20 bytes or more has at least 21, an echo request to a responder at least 30; on shorter ones the code reads behind their end.
- ConntrackBuilder.NlaPut: payloads of at most 0xFFFB bytes, the longest whose length with the header fits the 16-bit length field.
- Nl80211Builder.PutNla: the same.
- ConntrackBuilder.FeedRecordsAndDrain: the nests of a direction are built in buffers of their own, while the test reuses one.
- Nl80211Streams.BatchingOffersTheSame: for B of 0x31313238 bytes or more only one direction is stated, because such a frame may also hold messages that report the same; `BatchingExactlyWhen` has no such bound.
- TracerouteRuns.AverageExactlyWhen: is about fewer than 2^32 answers; beyond that the count wraps as well.
- TracerouteRuns.HopLossExactlyWhen: is about hops with fewer than 2^32 probes; beyond that the counters wrap, and `HopLossIsPercentageExactlyWhen` says what remains.
- Walkers take the bytes of their nest as a sequence and return the tuple or event they fill, so that pointers into the buffer and aliasing are not modelled; the encoders write into arrays in place.
- The lan and wan fields of an event are grouped, and the counters of a diagnostic are grouped where they are specified; `reason` is a value with the numbers that its text quotes, not a text.
- Fields that the parser never reads (sequence number, port id, the generic header) are arbitrary in the encoders; `seq`, addresses and flags of diagnostic events that are never set are not modelled, nor is `last_mac`, which nothing reads.
- Text output, `calloc` and `free`, NULL arguments and opaque casts.
- `ping.c`, `arping.c`, `dnsdiag.c` and `netdiag.c`: the same queue and counters with less state.
- `bwdiag.c` and `nmapdiag.c`, which are not built; eBPF placeholders, script accessors, fuzzers and examples.
- `traceroute_process_orig`, which does nothing, and the length guards that cannot fail (`src/nfct.c:438`, `src/nl80211_parse.c:319`).
