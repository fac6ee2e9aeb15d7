# Etherbone: a verified model

Etherbone carries Wishbone bus cycles over packets and streams. A sender queues operations in cycles and packs each
cycle into records; a receiver performs the records on its own bus and writes the reply over the request it is still
reading; the reply, served like any other request, lands in the sender's config space, where return addresses lead each
word to the cycle that waits for it. Sender and receiver are separate pieces of code that have to agree on record
boundaries, byte lanes, address forms and on which status bit belongs to which operation. This project models both and
proves that they do, together with the bookkeeping around them: cell allocation, the life of a cycle, the response
queue with its 16-bit addresses and deadlines, the map of local devices, and the self-describing bus table.

Words are natural numbers and wrap where the C types do; widths are 1, 2, 4 or 8 bytes; `WORD` is 2^64. List links are
sequences, `EB_NULL` positions in a list are its length.

The files, from the bottom up:

- `Options`, `Seqs`, `Words`, `Widths`, `Select`: sequences, machine words, width negotiation, select lines.
- `Operation`, `Validate`: queued operations, the cursor steps, and the checks made before packing.
- `Records`, `Slave`, `SlaveFacts`: the record codec, what a record asks for, what is answered, and how long replies are.
- `Packing`, `PackingFacts`, `Runs`: the records of a cycle, against a reference that treats one operation at a time, and
  how far each record goes.
- `Responses`, `RoundTrip`, `Exchange`: matching answers to cycles, and whole packets there and back.
- `Buffer`, `SlaveLoop`: the receiver as it works, in place in one buffer, refilling from a stream.
- `Planner`, `Emitter`, `Framing`, `Flushing`, `Fates`, `Promises`, `Headers`, `Master`: the sender as it works, from
  counting loops to the whole flush, what becomes of each cycle, and what the packet headers promise.
- `Sockets`, `Delivery`: the two-list response queue, deadlines and return addresses; a flush and all that follows it.
- `Link`, `Streams`: headers and probes, a flush over packets and over a stream, with all that it causes.
- `Memory`, `Accounts`, `Lifecycle`: the cell pool, who owns which cell, and the life of every cycle.
- `Handlers`, `ReadWrite`, `Dispatch`, `SdbRecords`, `Sdb`, `SdbScan`, `SdbWire`: local devices, dispatch down to their
  callbacks, and the bus table served, scanned, and scanned over the wire.

Some results turned out to hold only under a condition. Each condition is proved exact, and an input is shown that
fails it:

- config reads arrive as asked iff `PackingFacts.ReadableConfig` (`PackingKeepsAsked`; fails for `UnreadableConfig`);
- undoing an attach that finds no room restores the list iff nothing lies above the new device (`Handlers.CutRestores`;
  fails for `AttachLoses`);
- the SDB window is clear of every device iff `Handlers.Honest` (`WindowAlways`; fails for `AlignedWindow`, and for
  unaligned devices in `UnalignedWindow`);
- closing a device leaves the library in order iff it is refused or no cycle is open (`Library.CloseDevice`; fails with 256
  open cycles, as in `CloseWraps`);
- a packet header promises no reads iff, for that packet or one before it, nothing packed since its predecessor reads
  (`Headers.PromisesExact`); the promise is true of the first packet, and broken in `PromiseBroken`;
- a stream serves one cycle iff its first chunk holds a record header (`SlaveLoop.ServeStream`);
- a time is recovered from 16 bits iff it is near the clock (`Sockets.TimeoutExact`).

Where code and documentation disagree, the code is followed: `api/etherbone.h:503-504` says that a cycle whose status is
not OK was never sent, but timeouts, protocol failures and bus errors are reported after sending; `api/etherbone.h:389`
reserves addresses below 0x4000, which the attach code does not enforce; `spec/format.tex` describes an older header.

## Model

| member | source | states |
|---|---|---|
| `Link.FlushTravels` | api/format/master.c:57-564 | the whole exchange over packets, from eb_device_flush to the last callback: the messages the flush sends are served by the other end, headers and all, and their reply packets by this end; if the responses in flight wait on different addresses, the remote devices have performed every cycle sent, in order, each cycle that expects answers has had its one callback with its own results, and older responses still wait |
| `Streams.FlushStreams` | api/format/master.c:57-564 | the same over a stream that the network cuts where it likes in both directions, whenever both ends keep the link |
| `Streams.CyclesTravel` | api/format/slave.c:421-446 | if chunks do not run across cycles and the first of each cycle holds a record header, no link is dropped and everything sent is complete |
| `Streams.ServeLink` | api/format/slave.c:421-446 | however a stream is cut, if the link is kept all its records have been served once, in order, in runs that end where a cycle is closed, and the reply bytes are those of these runs |
| `Delivery.FlushRoundTrip` | api/format/master.c:122-555 | the payloads of any packet flush, delivered in order with their replies, complete every cycle sent and leave older responses as they were |
| `Delivery.DeliverCompletes` | api/format/slave.c:218-424 | the same for any list of packets of whole cycles, with older responses waiting before them |
| `Delivery.ClaimedApart` | api/format/master.c:527-529 | responses claimed within one period of return addresses all wait on different addresses |
| `Exchange.PacketRoundTrip` | api/glue/readwrite.c:38-136 | bytes to bytes: one packet encoded, served remotely, its reply bytes served by the sender; each read holds the remote value cut to its size, each bus operation of a checked cycle is flagged iff it failed, one callback per answered cycle in order, all other responses untouched |
| `Link.ServeMessage` | api/format/slave.c:119-446 | one message with its header: refused, answered as a probe, or its payload served in the width the header settles, with the reply behind the same header |
| `Link.ReadHeader` | api/format/slave.c:119-187 | magic, probe, probe response, version and widths are told apart as specified; only a probe is answered at once |
| `Link.HeardExactly` | api/format/slave.c:119-187 | which messages are refused, and what the others are: by magic, length, flag bits, version, the end that sent them, the tag they carry, and whether a width is left in common |
| `Link.ProbeRoundTrip` | api/glue/device.c:121-162 | a probe reaches the other end and its answer finds the device that asked, by the tag it carries |
| `Link.HeaderHeard` | api/format/slave.c:178-187 | the header of a flush is read as the width it was packed in by every end that supports it, and refused by every other |
| `Link.ReplyPromise` | api/format/slave.c:186-187 | the header of a reply is that of the request with the promise of no reads, and the reply keeps it |
| `Exchange.CycleCompletes` | api/glue/readwrite.c:113-132 | for one cycle: no answers iff none are expected; otherwise exactly one callback, on the last answer word, with EB_SEGFAULT iff some operation failed |
| `Exchange.OnlyItsOwn` | api/glue/readwrite.c:51-64 | answers to one return address change only the first response that has it |
| `Exchange.NoReadsNoReply` | api/format/slave.c:421-424 | a request that only writes config space gets no reply bytes, so answering an answer stops there |
| `RoundTrip.Journey` | api/glue/readwrite.c:67-132 | from any point of a cycle, the answers still to come complete its response on the very last of them and no earlier |
| `RoundTrip.GroupCount` | api/glue/readwrite.c:84-98 | at a status word the receiver counts exactly the bus operations the sender had put before it |
| `RoundTrip.StatusTells` | api/glue/readwrite.c:91-107 | the status word behind a group of bus operations holds, at the number of bus operations that followed each of them, whether that operation failed, whatever the register held before and after the cuts to the port width on both ends |
| `Packing.PackingKeepsMeaning` | api/format/master.c:258-508 | decoding the records of any valid cycle gives its operations in program order, with their address, size, value and space, and status reads exactly where a one-operation-at-a-time reference puts them |
| `Packing.RecordMeansSteps` | api/format/master.c:262-384 | the same for a single record and what it takes off the list |
| `Packing.TraceOfPlan` | api/format/master.c:370-379 | a record takes a prefix of the reference trace, never a status read too early or too late |
| `Packing.PlanProgress` | api/format/master.c:258-384 | every record takes operations or clears the count of operations awaiting a status, so packing ends |
| `Packing.ChainMeans` | api/format/master.c:287-332 | a chained write run, FIFO or ascending with wrap at 2^64, performs its operations one by one |
| `PackingFacts.PackingKeepsAsked` | api/format/slave.c:385-392 | the records perform exactly what the caller asked iff every config read in the cycle is readable: big-endian or full-word, and inside the address width |
| `PackingFacts.ConfigReadArrives` | api/format/slave.c:385-392 | a single config read arrives as asked exactly then |
| `PackingFacts.UnreadableConfig` | api/format/slave.c:385-392 | a valid read of one little-endian byte of config space arrives at another address than asked |
| `PackingFacts.GroupsAgree` | api/glue/readwrite.c:84-111 | sender and receiver split the bus operations of a checked cycle into the same groups, whatever config operations lie between |
| `PackingFacts.GroupsFitRegister` | api/format/master.c:247-252 | no group has more than 8 * stride operations, so the 64-bit register loses nothing |
| `PackingFacts.CycleClosedOnce` | api/format/master.c:437-456 | the cycle bit is set on the last record of a cycle and on no other |
| `PackingFacts.CycleWellFormed` | api/format/master.c:452-507 | counts stay at most 255 and every word fits its place on the wire |
| `PackingFacts.RecordWellFormed` | api/format/master.c:452-507 | the same for one record |
| `Planner.CountWrites` | api/format/master.c:262-338 | the counting loop finds exactly the planned write run |
| `Planner.ChainWrites` | api/format/master.c:295-332 | extending a run stops for the reasons the plan gives, at 255 operations or a full register |
| `Planner.CountReads` | api/format/master.c:340-368 | the counting loop finds exactly the planned read run |
| `Runs.WritesMaximal` | api/format/master.c:262-338 | how far the writes of a record go, in the fields of the operations: none iff a read comes first or the register is full, a FIFO iff the first two share their address, each at its place in the run, and the next operation could not continue it unless there are 255 or the register is full |
| `Runs.ReadsMaximal` | api/format/master.c:340-368 | the same for the reads behind them: none iff no read with the same format and low address bits comes next or the register is full, and the next operation could not join them unless there are 255 or the register is full |
| `Runs.StatusExact` | api/format/master.c:370-384 | a record reads the status iff it has no reads, full-word select lines, and operations that fill the register or end the cycle await one; it ends the cycle iff nothing is left to send or to read |
| `Runs.ReadsTogether` | api/format/master.c:357-367 | unchecked reads of one kind share their records, 255 in each |
| `Planner.PlanRecord` | api/format/master.c:258-440 | counts, FIFO flag, status read, last-record flag and awaiting count of the next record equal the plan whose meaning is proved |
| `Emitter.EmitRecord` | api/format/master.c:442-507 | writes exactly the encoding of the planned record behind wptr and nothing before it |
| `Emitter.EmitWrites` | api/format/master.c:462-478 | the write run: address, then data shifted into the selected bytes |
| `Emitter.PlanSelectIsMade` | api/format/master.c:442-457 | the shift and the select byte computed from the first operation are those of the plan |
| `Emitter.PlannedBytes` | api/format/master.c:381-385 | a record takes exactly the bytes reserved for it |
| `Records.EncodeLength` | api/format/master.c:71-71 | no record is longer than the buffer of 4104 bytes |
| `Buffer.Store` | api/format/master.c:45-51 | a word is stored most significant byte first and touches only its own bytes |
| `Master.MakeRoom` | api/format/master.c:387-432 | a stream with room sends nothing and a full one is flushed; in a packet the collected cycles are sent iff the record does not fit behind them, and a record that does not fit behind its own cycle is refused |
| `Master.PackCycle` | api/format/master.c:254-508 | packs a cycle behind the collected ones: fits iff its encoding does, answers are expected iff some will come, and on overflow tells the operation at which room ran out |
| `Master.FlushCycle` | api/format/master.c:142-235 | one cycle of the ready list gets the fate of Flushing.FlushOne |
| `Fates.FlushExplained` | api/format/master.c:142-235 | the callbacks and the cycles sent in any flush are those that the fates of its cycles tell, in order: out of memory, empty, refused with the first bad operation and its reason, without memory for a response, too long, sent with nothing to come back, or in flight |
| `Fates.StatusesExact` | api/format/master.c:142-235 | OK, OOM, OVERFLOW, a refusal, or no callback yet: each exactly under its condition on the cycle; OK iff the cycle is empty, or is acceptable, fits and nothing will come back |
| `Fates.ClosedIsChecked` | api/glue/cycle.c:171-188 | from closing to the wire: the records of a cycle read the error register iff it was closed with checking and holds a bus operation |
| `Master.SendCycle` | api/format/master.c:510-538 | a packed cycle is called back at once or registered with deadline, cursors and return address |
| `Master.Flush` | api/format/master.c:57-564 | the whole of eb_device_flush: callbacks, response queue, return address, messages and their no-reads bits equal the specification over the closed cycles, oldest first; on a broken link nothing is sent and nothing changes |
| `Master.Begin` | api/format/master.c:107-120 | a packet starts with magic, version, width and padding; a stream with nothing |
| `Master.End` | api/format/master.c:546-555 | what is left is sent unless it is an empty packet |
| `Headers.PromisesExact` | api/format/master.c:398-435 | the promises of no reads in the packet headers of a flush: there iff, for that packet or one before it, nothing packed since the packet before read; so true of the first packet, while later ones may hold reads packed before their predecessor was sent |
| `Headers.PromiseBroken` | api/format/master.c:405-406 | a write and a read in packets of their own: the second header promises no reads because the first did |
| `Flushing.FlushAccounts` | api/format/master.c:148-235 | every cycle flushed gets exactly one callback now or exactly one response in flight |
| `Flushing.OverflowExact` | api/format/master.c:418-430 | EB_OVERFLOW iff the cycle passes validation, has memory for its response and its encoding exceeds MTU minus header; it then leaves no bytes, claims no address and awaits nothing |
| `Fates.RoomRunsOut` | api/format/master.c:387-432 | the operation that an overflow names is the first of the first record that does not fit |
| `Fates.FlushFills` | api/format/master.c:398-430 | without an overflow, no packet could have taken the first cycle of the next one as well |
| `Flushing.FlushConserves` | api/format/master.c:387-432 | the messages hold exactly the encodings of the cycles sent: none lost, repeated, reordered or cut, none over length |
| `Flushing.FlushClaims` | api/format/master.c:527-529 | responses claim consecutive return addresses |
| `Framing.FramesConserve` | api/format/master.c:398-430 | read in order, the packets hold exactly the cycles that fit a packet, each whole; no packet is empty or too long |
| `Delivery.PacketsCarry` | api/format/master.c:398-430 | each packet is the encoding of consecutive whole cycles |
| `Validate.CheckAccepts` | api/format/master.c:166-215 | an operation passes iff some offered size is carried by the port, an endian is given where needed, the address is aligned and in range and the datum fits; the stored format is the widest such size |
| `Validate.CheckRefuses` | api/format/master.c:178-213 | a refusal names the first reason that applies, in the order width, endian, address, datum |
| `Validate.CheckAllFirstBad` | api/format/master.c:164-224 | a cycle passes iff all its operations do; otherwise the first bad one is reported with its reason |
| `Validate.CheckAllKeeps` | api/format/master.c:189-190 | validation rewrites formats and nothing else |
| `Validate.CheckStores` | api/format/master.c:169-190 | the format left in an operation is the widest offered size with the endian given, none for a full word; it is set as soon as size and endian are settled, and not before |
| `Validate.CheckAllStores` | api/format/master.c:166-215 | operations up to the first bad one are checked, those behind it are not touched |
| `Validate.CheckOperations` | api/format/master.c:166-215 | the checking loop computes that outcome |
| `Widths.RefineIsWidest` | api/glue/widths.c:47-62 | refining keeps the widest width offered and yields none iff none is offered |
| `Widths.NegotiationMeets` | api/glue/device.c:155-162 | the full masks: whichever end sees the other mask first, both settle on the same port width, the widest data and the widest address that both support, or both give up, exactly when they have no width in common |
| `Widths.HeaderKeepsWidth` | api/format/slave.c:181-183 | a header that names one port width is taken at its word by an end that supports it and refused by any other |
| `Widths.AlignmentFits` | api/format/master.c:86-95 | words are the shortest of 2, 4 and 8 bytes that hold any datum and address, and headers are 4 or 8 bytes |
| `Select.ScanIsDecode` | api/format/slave.c:238-257 | the shifts, masks and table lookup accept exactly the select bytes of aligned power-of-two sizes inside the port, and recover size and shift |
| `Select.MakeSelectIsTable` | api/format/master.c:457-457 | the sender makes exactly those select bytes |
| `Select.DecodeOfSelect` | api/format/slave.c:243-257 | what one end selects the other recovers |
| `Records.ParseOfEncode` | api/format/slave.c:231-276 | a record survives encoding, whatever follows it |
| `Records.ParseAllOfEncodeAll` | api/format/slave.c:222-279 | so do whole sequences of records |
| `Records.ParsedIsWellFormed` | api/format/slave.c:231-276 | any record read off the wire is one that could have been sent |
| `Records.WireLayout` | api/format/slave.c:227-231 | where the flags, the select byte, the counts, the padding and the two runs of a record are |
| `Records.RunLayout` | api/format/slave.c:309-350 | a run is its address and its words, each most significant byte first |
| `Slave.ReplyMeansAnswers` | api/format/slave.c:222-419 | for any request whatever, the reply, read as a request, performs exactly the answers to the accesses of the request, in order |
| `SlaveFacts.RespondFits` | api/format/slave.c:352-418 | the reply to any records, with the terminator, is no longer than the request |
| `SlaveFacts.ReplyIsRequest` | api/format/slave.c:360-379 | the reply to a packet of whole records that closes its cycle parses to its exact end and closes its cycle too: the peer never drops the link over it |
| `SlaveFacts.RespondClosed` | api/format/slave.c:413-418 | a reply leaves the cycle closed when the request does |
| `SlaveFacts.ConfigReadsInBounds` | api/glue/readwrite.c:204-217 | whatever the request, the 16-byte config register is never read beyond its end |
| `SlaveFacts.ConfigRegister` | api/glue/readwrite.c:175-218 | config reads are digits of the 128-bit number made of the error bits and the SDB pointer, and 0 beyond it |
| `SlaveFacts.FilterIsMask` | api/format/slave.c:202-205 | the address mask keeps the bits of the address width above the port width |
| `SlaveFacts.FilterOr` | api/format/slave.c:322-324 | or-ing the low address bits into a masked address adds them |
| `SlaveFacts.WritesAt` | api/format/slave.c:309-350 | write i of any record that arrives: refused for its select byte, or with its own address, bus forms and datum, wrapped at 2^64 and unmoved in a FIFO |
| `SlaveFacts.ReadsAt` | api/format/slave.c:374-407 | read i of any record that arrives, with the place its value goes to |
| `SlaveFacts.RefusedPerform` | api/format/slave.c:336-404 | a refused access of bus space fails and does nothing else, one of config space does nothing, and reads give 0 |
| `SlaveLoop.ServeWrites` | api/format/slave.c:309-350 | performs a write run straight from the buffer |
| `SlaveLoop.ServeReads` | api/format/slave.c:374-410 | performs a read run while overwriting the request with the answers: every word is read before its bytes are reused |
| `SlaveLoop.ServeRecord` | api/format/slave.c:231-418 | one record in place: accesses in order, reply bytes at wptr, no unread byte changed, wptr never past rptr |
| `SlaveLoop.ServePacket` | api/format/slave.c:207-446 | a packet in place: every whole record performed; the link is kept iff the packet is whole records with the cycle closed; the specified reply is sent iff there were reads and the packet does not end inside a record whose header is complete |
| `SlaveLoop.AwaitRecord` | api/format/slave.c:278-307 | on a stream, waits for the rest of a record without losing a byte of request or reply |
| `SlaveLoop.ServeStream` | api/format/slave.c:421-441 | a call that keeps the link has served the first records up to the end of a cycle, and left the rest to come; one cycle is served whole, however it is cut, iff its first chunk holds a record header |
| `Buffer.Channel.Recv` | api/format/slave.c:300-302 | receiving moves bytes from what is to arrive into the buffer and loses none |
| `Buffer.MoveDown` | api/format/slave.c:297-298 | memmove to a lower, possibly overlapping place |
| `ReadWrite.Write` | api/glue/readwrite.c:138-173 | the device at the big-endian address gets the write in the address form it wants; the error register takes the outcome |
| `ReadWrite.Read` | api/glue/readwrite.c:220-270 | the SDB window is served first, then as for writes |
| `ReadWrite.ReadRegister` | api/glue/readwrite.c:175-218 | the config register: error bits, then the SDB pointer, big-endian, 0 beyond |
| `ReadWrite.DispatchUnique` | api/glue/readwrite.c:147-152 | with a clear SDB window an access to an attached device reaches that device and no other, the table is read exactly in the window, and an access anywhere else fails |
| `Dispatch.WriteReaches` | api/glue/readwrite.c:138-173 | from the queued write to the callback: the device that has the address sought gets the operation's own address, size and datum if it has its endian or the write takes the whole port, else the address of the same bytes counted from the other end of the word; otherwise nothing is called and the write fails |
| `Dispatch.ReadReaches` | api/glue/readwrite.c:220-270 | the same for a queued read outside the SDB window, which is answered by the table |
| `Sockets.Socket.WriteWord` | api/glue/readwrite.c:38-136 | over the two lists, one word has exactly the effect the specification gives it on the queue first ++ reverse(last) |
| `Sockets.Socket.Find` | api/glue/readwrite.c:51-64 | the walk with its lazy flip finds the first match of the queue and keeps the queue |
| `Sockets.CountStatus` | api/glue/readwrite.c:91-96 | counts the bus operations of a status word |
| `Sockets.MarkStatus` | api/glue/readwrite.c:100-107 | hands out the bits, oldest operation first and highest bit first |
| `Sockets.MoveCursors` | api/glue/readwrite.c:66-111 | moves the cursors and fails exactly for a word that was not expected |
| `Responses.MarkGroup` | api/glue/readwrite.c:100-111 | each bus operation of a group gets exactly its own bit, and the cursor skips to the next group |
| `Responses.FailsExactly` | api/glue/readwrite.c:66-136 | a word ends its cycle with EB_FAIL, operations unchanged, iff none of its kind is expected; any other leaves the response waiting or completes it with EB_SEGFAULT iff some operation failed, else EB_OK |
| `Operations.FindBusFrom` | api/glue/operation.c:72-80 | the cursor step finds the next bus operation |
| `Operations.FindReadFrom` | api/glue/operation.c:82-90 | the cursor step finds the next read |
| `Sockets.Socket.Push` | api/format/master.c:527-533 | a new response goes to the end of the queue and claims its address |
| `Sockets.Flip` | api/glue/socket.c:158-171 | list reversal |
| `Sockets.FilterInflight` | api/glue/socket.c:228-257 | moves entries onto two lists, back to front |
| `Sockets.FilterPartition` | api/glue/socket.c:239-253 | the two sides hold every response once, each on its own side |
| `Sockets.Socket.KillInflight` | api/glue/socket.c:259-295 | the responses of a device time out in sending order; the others stay, in order |
| `Sockets.Socket.Timeout` | api/glue/socket.c:339-365 | the deadline of the oldest response, recovered from 16 bits |
| `Sockets.TimeoutExact` | api/glue/socket.c:356-361 | the 16-bit difference recovers a time iff it is within 2^15 seconds of the clock, on the circle of 32-bit times |
| `Sockets.Socket.Check` | api/glue/socket.c:386-412 | expires overdue responses from the front, oldest first, and stops at the first that is not overdue or when the front list is used up; then sets the clock |
| `Sockets.CheckedQueue` | api/glue/socket.c:386-412 | with deadlines near the clock, only overdue responses are expired, and if the loop stops at one that is not overdue nothing in the queue is |
| `Sockets.TimedPush` | api/format/master.c:522-522 | deadlines along the queue never decrease, because the clock does not |
| `Sockets.NextAddressValue` | api/format/master.c:528-529 | return addresses stay even and in 0x8000..0xFFFE |
| `Sockets.AddressPeriod` | api/format/master.c:528-529 | they repeat with period 16384 and not before |
| `Sockets.RepliesFindTheirOwner` | api/glue/readwrite.c:62-62 | over any run of a socket: while at most 16384 addresses have been claimed since the oldest response in flight, a reply address selects exactly the response that claimed it |
| `Sockets.TimeoutsAreTrue` | api/glue/socket.c:386-412 | over any run of a socket whose clock is not set back: deadlines along the queue never decrease, and for deadlines near the clock the 16-bit test holds exactly for those that are due |
| `Sockets.RoutesToOwner` | api/glue/readwrite.c:62-62 | if all responses in flight are among the last 16384 claims, a reply address, with or without bit 0, selects exactly its own |
| `Memory.Pool.New` | api/memory/array.c:38-51 | hands out a cell that was free, never EB_NULL; fails iff none is free and the array cannot grow; live cells keep their contents |
| `Memory.Pool.Free` | api/memory/array.c:53-57 | gives back a live cell and no other |
| `Memory.Pool.Expand` | api/memory/dynamic.c:41-70 | doubles the array up to 65536 cells, keeps the old cells and links the new ones |
| `Memory.LinkNew` | api/memory/dynamic.c:61-65 | the linking loop, with 16-bit links, makes one chain that ends |
| `Memory.OnlyWhenFull` | api/memory/dynamic.c:45-45 | at full size allocation fails only with 65407 cells live |
| `Accounts.DeadTag` | api/glue/cycle.c:196-207 | the operation field names the cycle itself iff the cycle ran out of memory |
| `Lifecycle.TagsTell` | api/glue/cycle.c:196-207 | in any valid library both doubly used fields are unambiguous: a cycle whose list names itself is out of memory, a device whose link names itself only serves |
| `Accounts.PassiveTag` | api/glue/device.c:305-317 | the link field names the device itself iff it only serves, and EB_NULL iff it has no ready cycle |
| `Accounts.AllEndOnce` | api/glue/cycle.c:48-140 | when no cycle is left each one ever opened has ended exactly once and all its cells are back |
| `Accounts.EndGood` | api/glue/cycle.c:85-99 | ending a cycle frees its cells and keeps every account in balance |
| `Accounts.FlyGood` | api/format/master.c:520-534 | so does putting it into flight |
| `Accounts.CloseGood` | api/glue/cycle.c:113-140 | so does closing it |
| `Lifecycle.Library.OpenCycle` | api/glue/cycle.c:48-83 | a new cell and token, or OOM, or FAIL on a device that only serves |
| `Lifecycle.Library.DoOperation` | api/glue/cycle.c:190-217 | adds in front; without memory the cycle loses its operations and stays dead |
| `Lifecycle.Library.CloseCycle` | api/glue/cycle.c:113-188 | program order; the first operation is marked iff the cycle is closed with checking, and nothing else in any operation changes; a place on the ready list |
| `Lifecycle.Library.AbortCycle` | api/glue/cycle.c:101-111 | the cycle ends without a callback, its cells freed once, its device counts one less, and nothing else changes |
| `Lifecycle.Library.Retire` | api/glue/cycle.c:85-99 | frees operations, cycle and response cells once each and logs one end |
| `Lifecycle.Library.FlushOldest` | api/format/master.c:142-235 | the response cell is allocated only for a valid cycle and given back when not needed; the fate is that of the flush specification |
| `Lifecycle.Library.FlushDevice` | api/format/master.c:122-561 | over the whole ready list: same callbacks, queue and addresses as the flush specification, one log entry per callback, every other cycle untouched |
| `Lifecycle.Library.Reply` | api/glue/readwrite.c:113-132 | a received word ends at most one cycle, the one it belongs to, with one callback |
| `Lifecycle.Library.Check` | api/glue/socket.c:386-405 | expired cycles end with one timeout each, oldest first; all others are as they were |
| `Lifecycle.Library.CloseDevice` | api/glue/device.c:305-388 | BUSY iff the number of open cycles is not a multiple of 256; otherwise every cycle of the device in flight or closed ends with one timeout, those in flight first, and no other is touched; the library stays valid iff it was BUSY or no cycle was open |
| `Lifecycle.Library.LoseLink` | api/format/slave.c:446-462 | a dropped link closes a device that only serves, and leaves one of the user without its link; no cycle ends |
| `Lifecycle.EndsOnce` | api/glue/cycle.c:48-140 | over any run: a cycle that was opened has ended exactly once if it is gone, and not at all if it is still there |
| `Lifecycle.AllGivenBack` | api/glue/cycle.c:85-99 | after the last cycle only device cells are in use and nothing is in flight |
| `Lifecycle.CloseWraps` | api/glue/device.h:45-45 | a valid library in which 256 cycles are open on a device whose count is zero, so that the guard against closing it passes |
| `Lifecycle.ReplyEffect` | api/glue/readwrite.c:66-132 | a word leaves all cycles in flight or finishes exactly one of them |
| `Lifecycle.OutcomeAlone` | api/format/master.c:142-235 | what becomes of a cycle does not depend on the cycles flushed before it, but for its return address |
| `Handlers.Map.Attach` | api/glue/handler.c:36-159 | accepted iff nothing overlaps and a window is found; where devices are spaced and end below the top, that is iff any window fits, and the lowest is taken; the list stays sorted and disjoint; refusals before the insertion change nothing; without room for a window the list is cut at the new device |
| `Handlers.Map.Detach` | api/glue/handler.c:161-184 | removes the first entry of the device, or reports EB_ADDRESS |
| `Handlers.Map.FindPlace` | api/glue/handler.c:94-117 | the insertion loop finds an overlap iff there is one |
| `Handlers.OverlapShares` | api/glue/handler.c:101-107 | devices overlap iff they share an address |
| `Handlers.CutRestores` | api/glue/handler.c:144-149 | the cut restores the list exactly when no device lies above the new one |
| `Handlers.WindowAlways` | api/glue/handler.c:131-157 | for every list of devices the window is clear iff the devices passed do not end in the last 8 bytes, the window ends inside the address space, and the first device that reaches it or beyond starts behind it |
| `Handlers.SearchComplete` | api/glue/handler.c:131-157 | for spaced devices below the top the search fails iff there are devices and no window fits anywhere, and else finds the lowest one that does |
| `Handlers.TopWraps` | api/glue/handler.c:139-149 | a device in the last 8 bytes makes the end wrap around, and the search never fails |
| `Handlers.AlignedWindow` | api/glue/handler.c:131-142 | an aligned device over the whole address space, which gets the window put over it |
| `Handlers.AttachLoses` | api/glue/handler.c:144-149 | an attach that finds no room and takes an older device with it |
| `Handlers.WindowClear` | api/glue/handler.c:131-157 | devices that start 8-aligned and end more than 8 bytes below the top leave a 64 KiB window disjoint from all of them |
| `Handlers.WindowExact` | api/glue/handler.c:131-157 | where no device starts in the bytes skipped behind the one before it, the window is clear iff there is a gap before some device, or no device, or the last one ends more than 8 bytes below the top |
| `Handlers.GapWraps` | api/glue/handler.c:136-137 | when the scan stops before a device that starts in the bytes skipped by alignment and reaches beyond them, the window is put over it |
| `Handlers.UnalignedWindow` | api/glue/handler.c:136-142 | two adjacent devices of which this is true |
| `Handlers.UniqueTarget` | api/glue/readwrite.c:147-152 | a device that has an address is the one found, wherever it stands |
| `SdbRecords.DeviceRoundTrip` | api/glue/sdb.c:82-102 | a device record decodes to the same device with its range moved by the bus address |
| `SdbRecords.InterconnectRoundTrip` | api/glue/sdb.c:56-80 | the header tells its magic and the number of records |
| `SdbRecords.RecordLayout` | api/glue/sdb.c:56-102 | where the fields of a served device record and of the header are, with the constants of the header |
| `SdbRecords.ComponentLayout` | api/glue/sdb.c:90-99 | where range, vendor, device, version, date, name and record type are |
| `Sdb.Serve` | api/glue/sdb.c:104-132 | every aligned word of the window is that word of the flat table, 0 behind its end |
| `Sdb.FillBlock` | api/glue/sdb.c:134-163 | fails for a read with an error, or one beyond the block; otherwise stores every read at its distance from the lowest address; reads that wrap around the address space are told apart as leaving the block |
| `Sdb.FilledIsTable` | api/glue/sdb.c:150-160 | true reads that cover a table put it together in any order, over any old contents |
| `SdbScan.Decode` | api/glue/sdb.c:178-289 | decodes every record, refusing a table longer than its block or with two interrupt masters, and computes the interrupt range that the callback gets |
| `SdbScan.OtherRecords` | api/glue/sdb.c:219-272 | bridges are moved by the bus address with their child table, interrupt masters are not, integration records have only a product, and other records are handed on as they are |
| `SdbScan.InterruptsRouted` | api/glue/sdb.c:240-285 | the interrupt range of a table, from the one master that takes part wherever it stands, and none without one |
| `SdbScan.ScanFails` | api/glue/sdb.c:134-289 | a scan fails iff a read failed or lies beyond the block, or its table is refused, and always with EB_FAIL |
| `SdbScan.TableRefused` | api/glue/sdb.c:208-252 | a table is refused iff it claims more records than the block holds or has two interrupt masters that take part |
| `Sdb.FillDecides` | api/glue/sdb.c:150-156 | the first read that leaves the block is refused, unless its end wraps around the address space |
| `SdbScan.TableScan.GotRecord` | api/glue/sdb.c:312-401 | splices the reads of one record in front, or keeps the failure; the last arrival decides the scan |
| `SdbScan.GatheredTrue` | api/glue/sdb.c:339-357 | whatever the order of arrival, the gathered reads are true and cover every record read |
| `SdbScan.GatherNext` | api/glue/sdb.c:355-357 | each arrival goes in front of the earlier ones |
| `SdbScan.ScanAll` | api/glue/sdb.c:312-401 | a run of arrivals, one for each record in any order, ends in one callback that describes the devices |
| `SdbWire.ScanOverTheWire` | api/glue/sdb.c:446-491 | a bus scanned over the wire, whatever state the remote devices are in at each read and in whatever order the callbacks come, describes exactly its attached devices |
| `SdbWire.RecordOverTheWire` | api/glue/sdb.c:481-489 | the packet that reads one record, served over the attached devices and their table, and its reply: one successful callback that holds the record as the table does |
| `SdbScan.ScanRoundTrip` | api/glue/sdb.c:41-401 | serve and scan: for fewer than 256 devices and any data width, reading all records with answers in any order describes exactly the attached devices, in list order, moved by the bus address |

## Left out

- Transports, sockets of the operating system, the event loop and the command-line tools: what arrives is a list of
  chunks, what is sent is a list of messages.
- The waiting and repeating of probes while a device is opened: Link.ProbeRoundTrip is one probe and its answer.
- Link.FlushTravels: packets are delivered in order and all of them, because lost and reordered packets end as timeouts.
  Return addresses in flight must differ, which Delivery.ClaimedApart gives for the last 16384 claims. The answers go to
  the abstract response queue; Sockets.Socket.WriteWord ties it to the two lists.
- Delivery.FlushRoundTrip: on payloads; Link.FlushTravels adds the packets around them.
- Streams.FlushStreams: both links have to be kept. The code drops a stream whose chunk ends inside the first record
  header of a cycle; which chunks of a stream of many cycles do is stated only for chunks that do not run across cycles
  (Streams.CyclesTravel).
- Master.Flush: whether a response can be allocated is a parameter per cycle; Lifecycle.Library.FlushDevice ties it to
  the pool. Lists have fewer than 65536 operations, as 16-bit handles imply, so the limit 2^32 - 1 of unchecked cycles
  is not reached.
- Lifecycle.EndsOnce: callbacks do not call back into the library.
- Lifecycle.Library.FlushDevice: bytes are left to Master.Flush; both follow Flushing.FlushAll.
- Sockets.CheckedQueue: deadlines further than 2^15 seconds from the clock are judged wrongly by the code
  (Sockets.TimeoutExact says which).
- Handlers.Map.Attach: the cells of the new entry, which the code frees, are not modelled.
- Sdb.FillBlock: where the code's sum wraps around the address space it would store outside the block; the model stops
  there and says so.
- SdbScan.ScanRoundTrip: the cells of a scan and the first read of the table's header are not modelled.
- The destination pointer of a read: its value is kept in the operation, without aliasing between operations.
- Blocking cycles, opening of sockets and devices, and the malloc and static memory variants.
