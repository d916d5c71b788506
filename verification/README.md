# Verification of a Z-Wave gateway's core

This project models the parts of the gateway whose correctness does not depend on devices or files, and
proves what they are for. Each module follows one source file, or one pair of them, and states its main
results in lemmas or method contracts marked "Main result". Stateful code is written as classes and loops
proved against functions on values, and the lemmas are about those functions.

- `HashTable`, `HashDeletion`, `HashMap`: the open-addressing hash map. It is a finite map with
  put-if-absent. Back-shift deletion compares indices by the half-table bit, so it can move an entry in front
  of its home, and it goes round a full table only once; `DeletionIsExact` gives the exact condition under
  which it goes wrong.
- `Chunks`, `QueueBuffer`: the segmented byte queue over linked segments, which is one byte sequence.
  With pre-allocation, trimming the head copies from the start of the second segment;
  `TrimHeadIsExact` says for which cuts that is right.
- `CrcTheory`, `CrcCode`, `Crc`: the nibble-table checksums are polynomial division. The comment in
  src/ayla/crc16.c:20-23 calls its code LSB-first with the IEEE polynomial; the code is MSB-first with
  polynomial 0x1021, and the code is what is modelled.
- `Checksums`, `SerialLink`: the byte-stuffed link, writer and reader. END is honoured in every state, so
  more than what a frame announced can be returned; `SegmentIsReadExactly` says what.
- `Frame`, `ConHandle`, `Session`, `SessionRuns`, `SessionLoss`, `Exchange`: framing at both ends of the
  serial line, retransmission, and the two ends together. A plain `char` receives the length byte, and
  what is allocated depends on it, so the signedness of `char` and the size of the frame header are
  parameters. Where the source writes outside its memory the receiver is `Broken` and the model ends; the
  theorems say when that happens. The session pops its queue twice at the end of a
  frame; what that loses is stated exactly.
- `TimerLists`, `Timers`, `AsyncOps`: the timer list and exactly-once completion on top of it. The clock is
  an arbitrary positive function that never goes back; what handlers do is an arbitrary script.
- `Lists`, `StateMachines`, `Api`, `Dispatcher`: the deque and queue, the table-driven state machine, and
  the dispatcher whose error handling re-enters itself. Command machines are arbitrary, may make calls of
  their own, and may have no states at all, as that of the soft reset.
- `ParseArgv`, `Hex`: the in-place tokeniser and the hex codec.
- `Conf`, `ConfTree`: the configuration tree, as a value and as nodes changed in place.

Inputs and outputs are sequences: bytes that arrive, bytes written, callbacks made. Whether memory is granted
is a parameter where the source handles the failure and a caller can go on. Times at which timers fire are
arbitrary.

## Model

| member | source | states |
|---|---|---|
| HashTable.IndexLeIsBitTest | src/ayla/hashmap.c:29-30 | the bit test on wrapped machine words is the cyclic "at most half a table ahead" comparison, for every table size dividing the word range |
| HashTable.LookupIsMembership | src/ayla/hashmap.c:97-125 | on a sound table probing finds a key and its data if and only if the pair is stored |
| HashTable.FreeMeansAbsent | src/ayla/hashmap.c:97-125 | a free slot met within the probe limit proves the key absent |
| HashTable.LimitMeansAbsent | src/ayla/hashmap.c:97-125 | running past the probe limit proves the key absent |
| HashTable.WindowBoundsFree | src/ayla/hashmap.c:97-125 | pigeonhole: a window of m occupied slots leaves at most n - m free ones |
| HashTable.StoreKeepsSound | src/ayla/hashmap.c:349-363 | storing a new key in the free slot where probing stopped keeps every probe chain intact and adds exactly that pair |
| HashTable.ShiftConserves | src/ayla/hashmap.c:132-173 | back-shifting, in every table and for every hash, rearranges entries and loses none |
| HashTable.RemovedConserves | src/ayla/hashmap.c:132-173 | deletion takes exactly the removed entry out of the multiset of slots, for every table and hash |
| HashDeletion.ShiftIsSound | src/ayla/hashmap.c:132-173 | from any point of the back-shift on, a run without an overlong stretch ends as a sound table |
| HashDeletion.ShiftStrands | src/ayla/hashmap.c:132-173 | from any point of the back-shift on, an overlong stretch ends with an entry that no lookup reaches |
| HashDeletion.DeletionIsExact | src/ayla/hashmap.c:132-173 | for every sound table and every hash, deletion leaves lookups agreeing with the map without that key if and only if the run behind the slot has no overlong stretch and the table is not full with an entry whose home the hole passes |
| HashDeletion.FullShiftExact | src/ayla/hashmap.c:132-173 | from any point of the back-shift in a table with no free slot on, and without an overlong stretch, the result is sound if and only if no entry whose path runs round the table has its home before the place where the hole comes to rest |
| HashDeletion.RingIsCircular | src/ayla/hashmap.c:149-170 | a full table of 8 with no overlong stretch: removing the entry in slot 0 loses the one in slot 1 |
| HashDeletion.HalfFullIsShort | src/ayla/hashmap.c:132-173 | a table at most half full has no overlong stretch, whatever the hash |
| HashDeletion.StaircaseIsOverlong | src/ayla/hashmap.c:29-30 | 17 entries in a table of 32, each in its home slot: removing the first one goes wrong |
| HashMaps.TableSizeCalc | src/ayla/hashmap.c:54-67 | the loop returns the least allowed power of two that holds the entries at a load of three quarters |
| HashMaps.ProbeMeetsFree | src/ayla/hashmap.c:97-125 | with more than half the table free no probe runs into the limit, whatever the hash |
| HashMaps.HashMap.constructor | src/ayla/hashmap.c:258-285 | an empty map of a size that holds the entries asked for |
| HashMaps.HashMap.EntryFind | src/ayla/hashmap.c:97-125 | the slot found, and what was passed on the way: the key, the first free slot, or the probe limit |
| HashMaps.HashMap.EntryRemove | src/ayla/hashmap.c:132-173 | the array afterwards is the old one with the back-shift applied; the count drops by one |
| HashMaps.HashMap.CopyAll | src/ayla/hashmap.c:180-226 | copying into an empty table carries over every entry, and always finds room when the entries are at most half the new size |
| HashMaps.HashMap.Rehash | src/ayla/hashmap.c:180-226 | keeps the map; succeeds whenever memory is granted and the entries fill at most half the new table; otherwise the old table stays |
| HashMaps.HashMap.FindOrGrow | src/ayla/hashmap.c:321-348 | one rehash suffices: with memory granted a slot is always found |
| HashMaps.HashMap.Put | src/ayla/hashmap.c:321-364 | put-if-absent on the map, for any hash; never fails with memory granted, and the load bound is kept |
| HashMaps.HashMap.Get | src/ayla/hashmap.c:369-381 | the map's value, or nothing |
| HashMaps.HashMap.Remove | src/ayla/hashmap.c:387-403 | the map without the key, valid again if and only if no stretch was overlong and no home was passed in a full table; always when at most half full |
| HashMaps.HashMap.Clear | src/ayla/hashmap.c:408-415 | the empty map, from any table of the right shape |
| HashMaps.HashMap.Reset | src/ayla/hashmap.c:420-437 | the empty map in the initial size, if memory is granted |
| HashMaps.HashMap.Iter | src/ayla/hashmap.c:455-463 | the first entry, or proof that there is none |
| HashMaps.HashMap.GetPopulated | src/ayla/hashmap.c:82-91 | the next entry from a slot on, with nothing skipped |
| HashMaps.HashMap.IterRemove | src/ayla/hashmap.c:485-500 | removes the entry pointed at and moves to the next one from that slot on |
| HashMaps.HashMap.RemoveMatching | inc/ayla/hashmap.h:165-183 | safe removal during iteration: one walk takes out exactly the entries that satisfy a predicate, each of them, and keeps all others; with all satisfying it the table ends empty |
| HashMaps.StoreAddsKey | src/ayla/hashmap.c:349-363 | filling the slot found is adding the key to the map |
| HashMaps.DeletionDropsKey | src/ayla/hashmap.c:132-173 | a sound result of deletion is the map without the key, and it is sound exactly under the condition of DeletionIsExact |
| Chunks.TrimHeadIsExact | src/ayla/buffer.c:280-344 | trimming the head keeps the wanted suffix for all data of a layout if and only if pre-allocation is off, the first segment is kept, or the cut falls between segments |
| Chunks.SafeCutKeepsSuffix | src/ayla/buffer.c:280-344 | with a safe cut the suffix is kept |
| Chunks.UnsafeCutGarbles | src/ayla/buffer.c:327-332 | with any other cut there is data of the same layout that comes out wrong |
| Chunks.TrimHeadGarbles | src/ayla/buffer.c:327-332 | two full segments of four bytes trimmed to the last two: the first two bytes of the second segment are left |
| Chunks.TrimmedHeadLength | src/ayla/buffer.c:280-344 | the length is right in either case |
| QueueBuffers.QueueBuf.constructor | src/ayla/buffer.c:184-196 | an empty queue, with a first segment of the minimum size if pre-allocation is on and memory is granted |
| QueueBuffers.QueueBuf.RemoveHead | src/ayla/buffer.c:42-50 | the linked list loses its first segment; the last pointer stays right |
| QueueBuffers.QueueBuf.RemoveSecond | src/ayla/buffer.c:51-59 | the linked list loses the segment behind the first |
| QueueBuffers.QueueBuf.FreeTail | src/ayla/buffer.c:149-166 | the list is cut behind a segment |
| QueueBuffers.QueueBuf.InsertHead | src/ayla/buffer.c:67-74 | a segment is put in front |
| QueueBuffers.QueueBuf.InsertTail | src/ayla/buffer.c:75-84 | a segment is put behind |
| QueueBuffers.QueueBuf.Splice | src/ayla/buffer.c:85-97 | two lists become one, the second empty |
| QueueBuffers.QueueBuf.Reset | src/ayla/buffer.c:223-248 | no bytes are left and the list is well-formed, whether or not memory is granted; if it is, pre-allocation leaves one segment of the minimum size |
| QueueBuffers.QueueBuf.Trim | src/ayla/buffer.c:250-278 | exactly the prefix is kept |
| QueueBuffers.QueueBuf.TrimHead | src/ayla/buffer.c:280-344 | the layout afterwards, and exactly the suffix when the cut is safe |
| QueueBuffers.QueueBuf.Put | src/ayla/buffer.c:397-445 | appends, or refuses beyond the maximum and stores nothing; without memory, exactly the prefix that fits the last segment is stored |
| QueueBuffers.QueueBuf.PutHead | src/ayla/buffer.c:464-482 | prepends; the maximum length is not looked at; there must be something to allocate, as the assertion at line 113 demands |
| QueueBuffers.QueueBuf.SetMaxLen | src/ayla/buffer.c:206-214 | keeps the prefix that fits; a limit of zero drops everything |
| QueueBuffers.QueueBuf.Concat | src/ayla/buffer.c:346-359 | joins two queues and empties the second, or leaves both alone; a queue joined to itself loses everything |
| QueueBuffers.QueueBuf.Coalesce | src/ayla/buffer.c:361-395 | the contents stay and lie in one array |
| QueueBuffers.QueueBuf.CopyOut | src/ayla/buffer.c:511-524 | exactly the slice asked for, as far as there is one, and nothing else is written |
| CrcTheory.RegisterIsRemainder | src/ayla/crc8.c:34-44 | a shift register fed with a message holds the remainder of polynomial division |
| CrcTheory.BurstDetected | src/ayla/crc8.c:34-44 | messages that differ within a window as long as the register have the same checksum if and only if they are equal |
| CrcTheory.LongerBurstMissed | src/ayla/crc8.c:34-44 | one bit more and an error shaped like the generator is missed: the bound is sharp |
| CrcCode.CrcIsDivision | src/ayla/crc32.c:26-36 | for a byte step that is faithful to the register the checksum of every message is the remainder |
| CrcCode.CrcChains | src/ayla/crc32.c:26-36 | a checksum is continued over concatenation |
| CrcCode.CrcLinear | src/ayla/crc32.c:26-36 | XOR-linear in message and initial value |
| CrcCode.CrcDetectsBurst | src/ayla/crc32.c:26-36 | different messages that differ only within as many consecutive bits as the register is wide have different checksums |
| Crc.Faithful8 | src/ayla/crc8.c:25-44 | the nibble-table step of crc8 is eight steps of division, most significant bit first |
| Crc.Faithful16 | src/ayla/crc16.c:15-34 | the nibble-table step of crc16 is eight steps of division, most significant bit first |
| Crc.Faithful32 | src/ayla/crc32.c:15-36 | the nibble-table step of crc32 is eight steps of reflected division, as in section 8 of RFC 1952 |
| Crc.ComputeCrc8 | src/ayla/crc8.c:34-44 | the loop computes the checksum of the buffer |
| Crc.Crc8Means | src/ayla/crc8.c:34-44 | crc8 of a message is the remainder of its division, and messages of equal length that differ only within one consecutive byte have the same checksum if and only if they are equal |
| Crc.Crc16Means | src/ayla/crc16.c:24-34 | crc16 of a message is the remainder of its division, and messages of equal length that differ only within two consecutive bytes have the same checksum if and only if they are equal |
| Crc.Crc32Means | src/ayla/crc32.c:26-36 | crc32 of a message is the remainder of its division, and messages of equal length that differ only within four consecutive bytes have the same checksum if and only if they are equal |
| Crc.ComputeCrc16 | src/ayla/crc16.c:24-34 | the loop computes the checksum of the buffer |
| Crc.ComputeCrc32 | src/ayla/crc32.c:26-36 | the loop computes the checksum of the buffer |
| Crc.GeneratorsShow | src/ayla/crc32.c:26-36 | the checksum of a message whose last bit alone is set is the generator: 0x07, 0x1021 and 0xedb88320 |
| Checksums.SingleChange | ref/SerialLink.c:228-249 | one changed byte always changes an XOR checksum |
| Checksums.XorCountsBits | product/zwave/src/frame.c:107-122 | bit k of the checksum is that of the initial value, turned over once for every byte that has it |
| SerialLink.CalculateCrc | ref/SerialLink.c:228-249 | the loop computes the XOR over type, length and payload |
| SerialLink.CheckCountsBits | ref/SerialLink.c:228-249 | bit k of the check byte is set if and only if an odd number of the type, the two length bytes and the payload have it |
| SerialLink.EncodedLayout | ref/SerialLink.c:194-222 | on the wire a message is 0x01, bytes none of which is below 0x10 but an 0x02 in front of one that is not, and 0x03; unstuffed they are type, length with the high byte first, check byte and payload |
| SerialLink.Port.TxByte | ref/SerialLink.c:262-274 | an ordinary byte goes out stuffed, as far as the port takes it |
| SerialLink.Port.WriteMessage | ref/SerialLink.c:194-222 | what goes out is the encoding of the message, cut off where writing fails |
| SerialLink.StuffedByte | ref/SerialLink.c:117-122 | unstuffing undoes stuffing, at any place of a frame |
| SerialLink.FrameIsReadExactly | ref/SerialLink.c:80-180 | from any state of the reader, a frame with room for its payload is returned at its last byte, as sent, if and only if its check byte is right |
| SerialLink.PartialFrameIsSilent | ref/SerialLink.c:80-180 | a frame cut off before its end returns nothing |
| SerialLink.DamagedFrameIsRejected | ref/SerialLink.c:107-115 | a frame damaged in one payload byte is never returned |
| SerialLink.RoundTrip | ref/SerialLink.c:80-180 | from any state, a concatenation of encodings is read back as the list of messages |
| SerialLink.MessagesAfterNoise | ref/SerialLink.c:80-180 | noise in front changes nothing about the messages behind it |
| SerialLink.BufferNeverOverrun | ref/SerialLink.c:141-167 | over every input nothing is written past the maximum |
| SerialLink.SegmentIsReadExactly | ref/SerialLink.c:92-175 | whatever stands between START and END and whatever came before, END returns what the reader holds, new fields where they came and old ones where not, if and only if the check byte held is right for it |
| SerialLink.UnannouncedExactly | ref/SerialLink.c:107-115 | END returns a message that no frame announced exactly when a field is missing, the length was refused or payload is missing, and the check byte held is right for what older fields and memory fill in |
| SerialLink.SecondEndRepeats | ref/SerialLink.c:107-115 | each further END returns the last message once more |
| SerialLink.BadEndIsIgnored | ref/SerialLink.c:107-115 | an END that returns nothing is as good as absent |
| SerialLink.NothingAfterEnd | ref/SerialLink.c:125-128 | behind an END that returns a message nothing that is held changes before the next START |
| SerialLink.RefusedIsReturned | ref/SerialLink.c:107-151 | a message whose length was refused can still be returned |
| SerialLink.Link.ReadMessage | ref/SerialLink.c:80-180 | the reading loop is the reader function, up to the byte that completes a message |
| SerialLink.Link.Receive | ref/SerialLink.c:92-175 | one turn of the loop, with its static variables |
| Frames.FirstSendRight | product/zwave/src/frame.c:386-406 | the first transmission carries the right checksum if and only if the length field already had the right low byte, since the sum is taken before the field is corrected |
| Frames.SumCountsBits | product/zwave/src/frame.c:107-122 | bit k of the checksum is set if and only if an even number of the bytes from the length to the end of the payload have it |
| Frames.VersionRequest | product/zwave/src/frame.c:386-433 | the request 0x15 without payload is 0x01 0x03 0x00 0x15 0xE9 |
| Frames.HuntAnswers | product/zwave/src/frame.c:204-257 | while hunting 0x06, 0x15 and 0x18 acknowledge, refuse and cancel, 0x01 begins a frame, and nothing else does anything |
| Frames.LengthsAccepted | product/zwave/src/frame.c:260-264 | the length bytes from 2 to 232 are accepted, and no others |
| Frames.LateExactly | product/zwave/src/frame.c:352-367 | a frame that stops coming is reported late with what has come of it, and the receiver hunts again |
| Frames.OtherTypeIsLate | product/zwave/src/frame.c:287-302 | a frame of any type but 0 and 1 is given up at its type byte |
| Frames.ResendSame | product/zwave/src/frame.c:370-449 | every later transmission repeats the bytes of the first |
| Frames.DataFrame.Calculate | product/zwave/src/frame.c:107-122 | the loop computes the XOR over length, type, command and payload |
| Frames.DataFrame.ChecksumValid | product/zwave/src/frame.c:93-105 | compares against a sum taken once |
| Frames.DataFrame.Emit | product/zwave/src/frame.c:386-433 | the bytes written and the fields afterwards |
| Frames.RxKeeps | product/zwave/src/frame.c:193-367 | for every byte and timeout: a partial frame exists exactly from type to checksum, the timer runs exactly when not hunting, and what is stored lies within what was allocated, unless the event is a length byte for which less than the header is allocated, or the first payload byte of a frame with no room for one; then the invariant is lost for good |
| Frames.LengthExactly | product/zwave/src/frame.c:261-281 | by the size asked of malloc, an accepted length byte leaves a frame, or no frame and no timer when the size has wrapped around, or a header written over the end of its block |
| Frames.LengthsOnLp64 | product/zwave/src/frame.c:261-281 | with 64-bit pointers and a signed char, the lengths from 128 to 202 do the second and those from 203 to 232 the third |
| Frames.WrappedAllocation | product/zwave/src/frame.c:261-290 | SOF and 0x80 leave the type state without a frame or a timer, and the next byte is written through NULL |
| Frames.PayloadFitsExactly | product/zwave/src/frame.c:260-317 | behind an accepted length byte everything written lies within what was allocated, whatever bytes follow until something is reported, if and only if at least 3 was stored of it |
| Frames.ShortFrameNeverEnds | product/zwave/src/frame.c:306-317 | a frame with a smaller stored length reports nothing, and its first payload byte is written outside its memory |
| Frames.ShortFrameBreaks | product/zwave/src/frame.c:260-317 | behind an accepted length byte stored as less than 3, memory is overwritten by the first payload byte at the latest, for every header size |
| Frames.FrameIsReceivedExactly | product/zwave/src/frame.c:193-350 | a hunting receiver reports a frame whose length it carries exactly at its last byte, with the fields sent, without error if and only if the checksum byte is right |
| Frames.FrameIsReportedExactly | product/zwave/src/frame.c:260-317 | of the frames whose length byte is accepted, those whose length is carried are reported, and the others, stored as negative, overwrite memory and report nothing |
| Frames.FrameComesThroughExactly | product/zwave/src/frame.c:193-350 | for every payload and type the frame is reported with the fields sent if and only if the type is one of the two and the length is carried: 3 to 232, or to 127 where char is signed |
| Frames.DamageIsReported | product/zwave/src/frame.c:318-336 | one changed command, payload or checksum byte is reported as a checksum error |
| Sessions.FrameLayer.Send | product/zwave/src/frame.c:370-449 | refused while busy; otherwise the frame is in flight, its bytes written and its timer running |
| Sessions.FrameLayer.TakeVerdict | product/zwave/src/frame.c:451-467 | the frame in flight is marked, counted and released |
| Sessions.FrameLayer.ReceiveStep | product/zwave/src/frame.c:193-350 | one byte: the receiver's step, the ACK it writes, and the frame its verdict is about |
| Sessions.FrameLayer.ReceiveTimer | product/zwave/src/frame.c:352-367 | the partial frame is reported late and hunting resumes |
| Sessions.Session.Send | product/zwave/src/session.c:67-77 | a frame joins the queue and goes out at once if the sender is idle |
| Sessions.Session.SendOver | product/zwave/src/session.c:79-124 | retry below four tries, else the end of the frame |
| Sessions.Session.Finish | product/zwave/src/session.c:83-91 | two pops, the next transmission and the callback |
| Sessions.Session.ReceiveStep | product/zwave/src/session.c:131-134 | one byte through frame layer and session is one step of the sender machine, bytes written included |
| Sessions.Session.ReceiveTimer | product/zwave/src/frame.c:352-367 | the receive timer is one step of it |
| Sessions.Session.SendTimerFires | product/zwave/src/frame.c:451-467 | the send timer is one step of it |
| SessionRuns.StepByVerdict | product/zwave/src/session.c:79-124 | an event acts on the sender through its verdict and in no other way |
| SessionRuns.TallyBounds | product/zwave/src/session.c:93-108 | a stop-and-wait sender never exceeds its attempts and gives up only after the last |
| SessionRuns.OneFrameIsStopAndWait | product/zwave/src/session.c:67-124 | over every sequence of bytes and timeouts, one frame is sent and reported exactly as by the textbook stop-and-wait sender: always the same bytes, at most four times, one report, then idle; nothing lost |
| SessionRuns.FourTries | product/zwave/src/session.c:93-108 | a frame not tried before goes out at most four times; it is reported acknowledged if and only if an ACK comes before the fourth other verdict, and as failed if and only if four others come first, with the fourth as the verdict |
| SessionRuns.ControlVerdicts | product/zwave/src/frame.c:209-254 | over control bytes and send timeouts each event is the verdict it names |
| SessionLoss.FramesConserved | product/zwave/src/session.c:67-124 | over every run each frame handed over is held, reported or thrown away, exactly once |
| SessionLoss.FramesInOrder | product/zwave/src/session.c:67-124 | over every run frames leave in the order in which they were handed over, those reported and those thrown away each in their order |
| SessionLoss.OnlyFlightIsSent | product/zwave/src/session.c:67-124 | every transmission is of the frame then in flight, and one taken from the queue starts with no tries |
| SessionLoss.FinishedLoses | product/zwave/src/session.c:84-86 | the end of a frame throws one away exactly when its own entry has left the queue and others wait |
| SessionLoss.CarefulLosesNothing | product/zwave/src/session.c:84-86 | handing over at most one frame behind a frame that still stands in the queue never loses any |
| SessionLoss.LossExactly | product/zwave/src/session.c:84-86 | no continuation loses a frame if and only if at most one waits, behind a frame whose entry is still queued |
| SessionLoss.ThirdFrameLost | product/zwave/src/session.c:84-86 | three frames and two ACKs: the third is never sent |
| ConHandle.ConKeeps | ref/conhandle.c:171-277 | for every byte: the state tells how much is held, the buffer holds it, and the running checksum is that of what is held |
| ConHandle.UpdateKeeps | ref/conhandle.c:157-301 | the same over all input and timeouts of ConUpdate |
| ConHandle.UpdateAnswers | ref/conhandle.c:157-301 | over all input the first byte that gives a result decides; without one a wait at its limit gives a transmission timeout, else a frame whose next byte is late gives a reception timeout, ticks counted in 16 bits |
| ConHandle.SentExactly | ref/conhandle.c:184-196 | a frame is reported sent if and only if the first byte that gives a result is an ACK read while hunting and waiting, and as unanswered if and only if that byte is such a NAK or there is none and the wait has reached its limit |
| ConHandle.HeaderExactly | ref/conhandle.c:199-219 | after SOF a length from 3 to 180 is accepted, then a type of 0 or 1 |
| ConHandle.FrameIsTakenExactly | ref/conhandle.c:157-301 | a frame of up to 177 payload bytes is answered at its last byte: ACK and the frame in the buffer if and only if its checksum byte is right, else NAK, or CAN when frames are not wanted |
| ConHandle.Module.TxFrame | ref/conhandle.c:106-141 | the frame sent, or sent again without a buffer; an ACK is awaited |
| ConHandle.Module.Compose | ref/conhandle.c:124-137 | the loop puts out the frame with the right checksum |
| ConHandle.Module.ReceiveByte | ref/conhandle.c:171-277 | the fall-through switch |
| ConHandle.Module.ReadLoop | ref/conhandle.c:165-279 | the reading loop, up to the first result |
| ConHandle.Module.Update | ref/conhandle.c:157-301 | the reading loop and the timeouts |
| Exchange.HostTakesFrame | product/zwave/src/frame.c:193-350 | a frame arriving at the session: delivered with one ACK if and only if its checksum is right, and the sender side untouched |
| Exchange.ModuleFrameIsExchanged | ref/conhandle.c:106-141 | what ConTxFrame sends the host takes and answers with one ACK, which ends the module's wait as sent |
| Exchange.DamagedIsNaked | ref/conhandle.c:245-270 | a damaged copy is refused with NAK and hunting resumes |
| Exchange.HostFrameIsExchanged | product/zwave/src/session.c:67-124 | with fewer damaged copies than attempts, each is refused with NAK and the first good one taken with ACK; fed with these answers the host sends exactly that many copies and reports the frame acknowledged, once |
| TimerLists.AdvanceFiresInOrder | src/ayla/timer.c:75-97 | whatever handlers set and cancel, the list stays sorted, timers fire in the order of deadline and arming and only when due, and the result is -1 exactly when none is left, else the positive delay to the first |
| TimerLists.ArmingsConserved | src/ayla/timer.c:75-97 | every arming ends in exactly one way: fired, taken out, or still waiting |
| TimerLists.ActKeeps | src/ayla/timer.c:22-56 | setting and cancelling keep the list sorted, first come first served, with one entry a timer |
| Timers.TimerHead.Cancel | src/ayla/timer.c:22-37 | the timer's entry leaves the list and no other changes |
| Timers.TimerHead.Set | src/ayla/timer.c:39-56 | the entry goes behind those due no later |
| Timers.TimerHead.FindPlace | src/ayla/timer.c:49-53 | the place in front of the first entry due later |
| Timers.TimerHead.Reset | src/ayla/timer.c:58-64 | the same as setting, whatever the timer was before |
| Timers.TimerHead.Advance | src/ayla/timer.c:75-97 | the loop over the linked list is the value-level one, with a timer active exactly while it is in the list |
| AsyncOps.StepKeeps | src/ayla/async.c:21-107 | a timer is queued only for an active operation, and an active operation has its callback |
| AsyncOps.EveryStartIsCalledOnce | src/ayla/async.c:52-98 | over any interleaving of starts, finishes and timeouts each successful start is followed by exactly one call of its own callback before the next start, or is still open |
| AsyncOps.StartsBalanceCalls | src/ayla/async.c:52-98 | starts equal calls plus one if active |
| AsyncOps.StepMatches | src/ayla/async.c:52-98 | in every step an operation has exactly one entry in the timer list while a start with a timeout is pending, due at the clock reading of that start plus the timeout, and what is called back, with which result, is what the events ask for |
| AsyncOps.RunMatches | src/ayla/async.c:52-98 | the same over every run |
| AsyncOps.FromTheStart | src/ayla/async.c:52-98 | and so from the initialisation of the operations on |
| AsyncOps.FirstIsEarliest | src/ayla/timer.c:75-97 | the timer that fires is that of the pending start due first |
| AsyncOps.ActExactly | src/ayla/timer.c:22-56 | after setting a timer the list holds the entries of the others and one for it, due at the clock reading plus the time given; after cancelling only the others |
| AsyncOps.AsyncOp.Start | src/ayla/async.c:52-69 | refused while active; else active, with a timer if a timeout is given, for which there must be a timer list, as the assertion in it demands |
| AsyncOps.AsyncOp.Finish | src/ayla/async.c:75-98 | the callback to be called, the timer cancelled, the operation idle |
| AsyncOps.AsyncOp.Timeout | src/ayla/async.c:21-27 | finishing with the timeout result |
| Lists.List.PushFront | src/list.c:10-31 | the linked deque gains an element in front |
| Lists.List.PushBack | src/list.c:33-54 | the linked deque gains an element behind |
| Lists.List.PopFront | src/list.c:56-85 | the first element, and the rest |
| Lists.List.PopBack | src/list.c:87-117 | the last element, and the rest |
| Lists.List.Peek | src/list.c:120-154 | the element at an end, without change |
| Lists.LockQueue.Push | src/lockqueue.c:10-14 | joins the queue behind |
| Lists.LockQueue.Pop | src/lockqueue.c:15-24 | the element waiting longest |
| Lists.LockQueue.PopBack | src/lockqueue.c:25-34 | the element pushed last |
| Lists.Fifo | src/lockqueue.c:10-24 | over every sequence of pushes and pops, what was popped and what is left is what was pushed, in order |
| StateMachines.ChosenIsUnique | product/zwave/src/statemachine.c:34-45 | with distinct states, the handlers called are those of the first entry for the event in the one state of that name |
| StateMachines.StateMachine.Choose | product/zwave/src/statemachine.c:27-45 | the two nested search loops |
| StateMachines.StateMachine.Reset | product/zwave/src/statemachine.c:10-18 | initial state, and every state's parameter cleared |
| StateMachines.StateMachine.SearchState | product/zwave/src/statemachine.c:76-85 | the first state of a name, or proof that there is none |
| Dispatchers.TableMeans | product/zwave/src/api.c:1641-1661 | what the table of smApi calls in every state for every event |
| Api.PlainCalls | product/zwave/src/api.c:2499-2712 | every handler moves calls and loses none, and leaves the state idle or running |
| Api.HandledCalls | product/zwave/src/api.c:2287-2310 | so does a whole turn, with its nested turns |
| Api.CallsConserved | product/zwave/src/api.c:2175-2222 | over every run, whatever the command machines do, each call made, from outside or by a machine in the middle of a turn (lines 3018-3022), is in exactly one place, and the main state is idle or running |
| Api.EveryCallIsSomewhere | product/zwave/src/api.c:2175-2222 | from the start on, qSend, qSendBack and what was handed to session_send are together all the calls made |
| Api.HandledShaped | product/zwave/src/api.c:2287-2310 | frames wait only in qRecv and calls put aside only in qSendBack |
| Api.ErrorsHandleOne | product/zwave/src/api.c:2566-2576 | however many errors have queued up, the first handles them all and exactly one event more, the first behind them, in the running state; then the state is idle |
| Api.RestoredByErrors | product/zwave/src/api.c:2566-2576 | any number of errors bring as many of the oldest calls back from aside, each with a beat; behind other events they all wait in the sending queue, and with nothing else there the oldest is handled at once, going out or aside again |
| Api.GivenPlaces | product/zwave/src/api.c:2214-2222 | where each of these calls stands: in order, with a beat behind each |
| Api.RestoredByError | product/zwave/src/api.c:2570-2576 | a single call put aside waits in the sending queue again if and only if some event behind the error is not another error |
| Api.RestoredBehind | product/zwave/src/api.c:2570-2576 | in the other case it stands behind all events that came before it |
| Api.FailureStrands | product/zwave/src/api.c:2332-2347 | after a refused frame or a timeout, which posts two errors, a call put aside that the machine does not take stays aside over every run in which no other call is made |
| Api.CompletionReleases | product/zwave/src/api.c:2586-2596 | the end of a command brings the oldest call put aside back behind everything that waits |
| Api.RestoredByCompletion | product/zwave/src/api.c:2654-2665 | with no other call in front, it goes out as soon as what waits in front of it has passed |
| Api.IdleTakesFirstCall | product/zwave/src/api.c:2287-2310 | an idle dispatcher takes up the first call that waits and passes over everything in front of it |
| Api.PutAsideStays | product/zwave/src/api.c:2287-2310 | over every run without a new call, an idle dispatcher with no call waiting sends nothing and leaves what is put aside where it is |
| Api.StaleExactly | product/zwave/src/api.c:2566-2622 | over every run, a machine is attached while the dispatcher is idle if and only if an error left it there, or the ACK that attached it found it to have no states, and since then no call was taken up and no send timer came |
| Api.ErrorLeavesExactly | product/zwave/src/api.c:2566-2606 | which errors leave one: those that meet a machine, unless the event behind them is an ACK that ends it, and those that meet none, if that event is an ACK that starts one |
| Api.MachineSurvivesError | product/zwave/src/api.c:2578-2606 | a machine that was attached when the command failed takes the ACK of the next call as its own step |
| Api.AckAfterFailure | product/zwave/src/api.c:2578-2606 | whatever the machines do, the ACK of the call after a failed command starts that call's machine if and only if no machine was attached when it failed |
| Api.AckStartsMachine | product/zwave/src/api.c:2578-2622 | over every run from the start, when a call is taken up, the first ACK handled while its command goes on starts its machine, whatever the machines do, if and only if no machine was left attached before |
| Api.StatelessStays | product/zwave/src/api.c:2578-2606 | a machine without states, once attached, stays over every run without the send timer |
| Api.SoftResetStays | product/zwave/src/api.c:1552-1558 | the ACK of a soft reset leaves the dispatcher idle with that machine attached though no error came, and until the send timer comes no other machine is started |
| Api.MachineFollowsReplies | product/zwave/src/api.c:2578-2681 | over every run the machine attached is the one started by the last ACK that found none, in the state to which its moves on the ACKs and data handled since lead |
| Api.ReplyAdvances | product/zwave/src/api.c:2583-2600 | a reply moves the machine attached to the state it chooses, with its calls behind the sending queue in order; at 9999 the command ends and the oldest call put aside comes back |
| Api.DataWithoutMachine | product/zwave/src/api.c:2666-2672 | data for a command without a machine end it |
| Api.RunningExactly | product/zwave/src/api.c:2499-2712 | after a turn a command is running if and only if a call was taken up, or it ran before and what was handled neither failed nor ended it |
| Api.ReceivedExactly | product/zwave/src/api.c:2111-2132 | a received frame is filed as data if and only if its command is that of the machine attached, or 0x49 for the machine of 0x60 |
| Api.AnswerIsHeard | product/zwave/src/api.c:2111-2132 | the answer of a running command moves its machine in the next turn, and any other frame changes nothing |
| Dispatchers.Dispatcher.HandlerOneEvent | product/zwave/src/api.c:2287-2310 | the re-entrant method terminates, by the number of errors queued, and does what the dispatcher function says |
| Dispatchers.Dispatcher.Step | product/zwave/src/statemachine.c:27-70 | the table look-up, the action, the transition and the setting of the state |
| Dispatchers.Dispatcher.Fail | product/zwave/src/api.c:2566-2576 | restore, beat, a nested turn in the running state, then idle |
| Dispatchers.Dispatcher.RunningAck | product/zwave/src/api.c:2578-2606 | the ACK of a call attaches its machine or steps it |
| Dispatchers.Dispatcher.RunningData | product/zwave/src/api.c:2648-2681 | data step the machine, and end the command when it ends |
| Dispatchers.Dispatcher.RunningCall | product/zwave/src/api.c:2687-2707 | a call while running goes out or aside |
| Dispatchers.Dispatcher.TransitionAck | product/zwave/src/api.c:2607-2622 | S_IDLE returned by an action looks like no answer, and the machine decides: one without states counts as none |
| Dispatchers.Dispatcher.RestoreCall | product/zwave/src/api.c:2214-2222 | the oldest call put aside rejoins the queue |
| ParseArgv.LineParsesBack | src/ayla/parse_argv.c:18-74 | however its words are quoted and spaced, a line parses back to their meanings, as many as there is room for |
| ParseArgv.QuotingIsUndone | src/ayla/parse_argv.c:18-74 | arguments wrapped in a quote they do not contain and joined by blanks come back |
| ParseArgv.PiecesTaken | src/ayla/parse_argv.c:44-63 | a word of plain and quoted pieces yields their meaning and stops at the blank |
| ParseArgv.OpenQuoteTakesRest | src/ayla/parse_argv.c:44-63 | behind a quote that is not closed everything to the end belongs to the word |
| ParseArgv.Take | src/ayla/parse_argv.c:37-64 | the copying loop: the word lies terminated at its start, what was before it and what is still unread are untouched |
| ParseArgv.SplitLoop | src/ayla/parse_argv.c:26-69 | every argument found so far is intact in the part already read, one behind the other |
| ParseArgv.Split | src/ayla/parse_argv.c:18-74 | the arguments are those of the text, each a string inside the buffer, and the list is ended if there is room |
| Hex.ParsedExactly | src/ayla/hex.c:66-118 | a text is accepted with these bytes and this delimiter if and only if it is their printed form up to letter case and there is room |
| Hex.RoundTrip | src/ayla/hex.c:66-156 | printing and parsing again gives the bytes, and for two or more the delimiter |
| Hex.DigitsAre | src/ayla/hex.c:16-30 | the digits are 0 to 9 and A to F, or a to f, the high nibble first |
| Hex.BytesExactly | src/ayla/hex.c:91-113 | the parsing loop yields some bytes exactly for their printed form |
| Hex.HexString | src/ayla/hex.c:134-156 | the printing loop writes the text and a NUL, or nothing when there is no room, as for no data with a delimiter, where the length wraps around |
| Hex.HexParseN | src/ayla/hex.c:66-118 | the bytes stored and the delimiter, or -1; nothing beyond the size is written |
| Hex.ParseLoop | src/ayla/hex.c:91-113 | the loop, with the room check shown never to fire |
| Conf.PathNames | src/ayla/conf_io.c:263-270 | a path joined from non-empty names without slashes is split into them |
| Conf.SlashesDoNotMatter | src/ayla/conf_io.c:263-270 | repeated, leading and trailing slashes make no difference |
| Conf.SetThenLookup | src/ayla/conf_io.c:283-346 | a set that succeeds can be looked up; code 1 means the value was already equal; a set that fails leaves the tree as it was; the handler is called exactly on change |
| Conf.SetExactly | src/ayla/conf_io.c:300-341 | a set is refused exactly for an empty path, a non-object on the way, or another type in the place |
| Conf.OtherPathsKeep | src/ayla/conf_io.c:283-346 | paths that neither lead to the place nor through it keep their values, whatever is set or deleted |
| Conf.PathsThrough | src/ayla/conf_io.c:251-274 | longer paths are looked up in the value found |
| Conf.DeleteExactly | src/ayla/conf_io.c:300-342 | deletion succeeds exactly when there is something to delete, and then it is gone; a deletion that fails leaves the tree alone if and only if no node on the way is missing |
| Conf.FailedDeletionCreates | src/ayla/conf_io.c:300-342 | deleting a/b in an empty tree fails and leaves an empty a |
| ConfTree.Node.FindPath | src/ayla/conf_io.c:251-274 | the walk down the nodes finds the item that the lookup function finds |
| ConfTree.Node.SetLast | src/ayla/conf_io.c:324-342 | one object node changed in place: the type check, the comparison, the setting or the deletion |
| ConfTree.Node.SetPath | src/ayla/conf_io.c:283-346 | walking and changing nodes in place leaves a well-formed tree whose value is that of the function on values, and touches no node outside the tree |
| ConfTree.Config.Set | src/ayla/conf_io.c:283-346 | the root, the result, and one call of the change handler exactly on change |
| ConfTree.Config.SetRoot | src/ayla/conf_io.c:95-142 | in any visiting order the handler is told each changed top-level key once, with its new value, and no other; nothing when there was no tree before |
| Conf.OtherKeysSame | src/ayla/conf_io.c:95-142 | no key outside both trees can have changed |

## Left out

- HashMaps.HashMap.Put: entries with NULL data, which a rehash skips (src/ayla/hashmap.c:203-206), are not modelled; key comparison is equality and the key copying functions are left out.
- SerialLink.Link.constructor: the check byte is computed over the announced length even when that length was refused, so the memory behind the message pointer is taken to be as long as a length can say.
- Sessions.Session.Send: a frame must not be in the sender's hands already; every caller hands over a new one.
- Sessions.FrameLayer.constructor: calls before initialisation, freeing and frame_receive_reset are not modelled, and a failing transport write is not seen by the source either.
- Frames.RxKeeps: malloc is taken to refuse a size that has wrapped around and to grant any other; a failure for lack of memory is not modelled. Nothing is claimed about what the source does once the receiver is Broken, although the sender's half of the model goes on.
- SessionRuns.OneFrameIsStopAndWait: frame_send also copies the frame into a buffer of 256 bytes for a log line (product/zwave/src/frame.c:391-429), which more than 251 payload bytes overrun; that copy is not modelled.
- ConHandle.Module.Update: tick readings are parameters, one a byte and one at the end.
- Timers.TimerHead.Set: does not model the wrap-around of 64-bit milliseconds; deadlines are unbounded.
- Timers.TimerHead.Advance: handlers called after the end of the script do nothing, since handlers that re-arm for now would keep the loop going for ever.
- Api.CallsConserved: no claim that a call put aside ever goes out; Api.FailureStrands and Api.PutAsideStays show when it does not.
- Dispatchers.Dispatcher.HandlerOneEvent: the send timer and the beat timer are events that may come at any time; which calls arm them is not modelled, nor is failure to allocate an event.
- Lists.LockQueue.Push: each queue operation is taken as atomic; threads and condition variables are left out.
- ParseArgv.Split: pointers are positions in the buffer.
- Hex.HexString: lengths stay below a quarter of the address range, so that only the empty case wraps around.
- ConfTree.Config.Set: an item handed over must be a tree of its own; nodes shared between trees, as reference counts allow, are not modelled. The walking loop is a call on the node below.
- ConfTree.Config.SetRoot: change handlers that call back into the configuration are not modelled, nor is the clearing of the old tree, which only matters for shared nodes.
- list_destroy, which reads through the freed head (src/list.c:156-181).
- hashmap_foreach, key allocation, hash quality and metrics.
- Files, serial devices, polling, logging, JSON text, ubus and OpenSSL.
- The machines of single Z-Wave commands and the decoding of their payloads: small finite tables.
