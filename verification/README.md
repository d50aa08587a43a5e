# ALTUS: a model of the reliable stream and of the certificate tools beside it

ALTUS carries byte streams over datagrams. The sender keeps a stream in a *window*, a chain of
4096-byte nodes recycled through a pool, and cuts packets of up to 488 bytes out of it. The
receiver puts packets, in whatever order they arrive, into a window of its own, and an application
reads the contiguous part. Sequence numbers have 32 bits and wrap around. The repository also
carries OpenSSL; five of its self-contained algorithms are modelled here as well.

The model has three layers.

* **Meaning.** `StreamBuffer` says what a window is on unbounded stream positions, without nodes:
  which bytes are known, up to where they are contiguous (`last`), how far they are read.
  `UnsequencedBlocks.Insert` does the same for the list of blocks that arrived early.
* **Code.** `UbList`, `NodeChains`, `WindowedQueue` and `Channel` are the mutable code: arrays of
  wrapped numbers, doubly linked nodes, the copy, commit and read loops, packet assembly. Each
  method is proved against the meaning, byte for byte, including which nodes move where.
* **Runs.** `Reassembly` and `Protocol` prove what holds over every run: arrivals in any order and
  any number of times, and sender, lossy wire and receiver together.

`Protocol.EndToEnd` is the main result: at every moment of every run in which at most 8801163 packets
have been emitted, the bytes the receiving application has read, followed by those it can read, are a
prefix of the data the sending application gave, and the steps of the runs are calls of the code
(`PerformUpstream`, `PerformEmit`, `PerformDeliver`, `PerformRead`). `Protocol.LapIsExact` shows that this number cannot be raised, and
`Protocol.ReceivedExactly` when everything that can be received has been: exactly when each packet up to
the first short one was accepted at least once, in whatever order.
`Reassembly.Reassembled`, `WindowedQueue.Window.Put`, `WindowedQueue.Window.Pop` and
`FileReceive.KeepsShapeExactly` are the results it rests on or stands beside.

| module | what it models |
|---|---|
| `SeqNum` | 32-bit numbers and their order |
| `UnsequencedBlocks` (UbList.dfy) | the list of early blocks |
| `StreamBuffer`, `Reassembly` | what a window means; whole runs of one window |
| `NodeChains`, `WindowSteps`, `WindowedQueue` | nodes, pool and window as linked structures |
| `Framing`, `Channel`, `Protocol` | packets, sending and receiving, the system of both sides |
| `FileReceive` | the block list of file streams |
| `PeerChannels` | allocation of channel ids |
| `CaPolicy`, `CertDatabase`, `Revocation` | the CA command: policy, database, revocation field |
| `SectionList`, `BinarySearch` | section lookup of the CMP command, binary search |

`dafny verify dfyconfig.toml` checks the project.

## Where code and intent part

The model follows the code. Where the code does not do what its comments or its design promise, the
failing inputs are named and the exact condition is proved.

* **A block far ahead is misplaced.** In the copy loop the room left in a node is unsigned and the
  offset has 16 bits (`ALTUS/windowedqueue.c:190-203`), so "skip this node" works only up to the
  first byte of the node after `safe_tail`. `WindowSteps.FirstWriteExact` gives the condition in both
  directions, `WindowSteps.FirstWriteOverwrites` a family that overwrites received bytes, and
  `StreamBuffer.TenthPacketFirst` an ordinary reordering that meets it. `Put` and `Receive` therefore
  require `Reaches`; in-order arrivals always satisfy it (`Channel.AppendReaches`).
* **The next packet in sequence can be refused.** With eight blocks tracked, `Put` turns it away
  unless it closes the whole gap before the first of them (`StreamBuffer.NextInSequence`).
  `Protocol.WaitedForRefused` is a run in which this happens to the first packet.
* **Numbers half the range away are misunderstood.** A number is taken for the right position if and
  only if that lies in (last - 2^31, last + 2^31]: `StreamBuffer.LocateOnly`.
* **A short packet ends the stream.** `Send` moves its cursor by 488 after every packet
  (`ALTUS/ALTUSPeer.cpp:290`), so what is missing from a short one is in no later packet of the lap:
  `Protocol.ShortPacketIsFinal` and, exactly, `Protocol.LimitExact`. Safety is not affected: `Protocol`
  lets the sender go on past the end of the stream and emit what its code then emits, which is stale
  memory or nothing (`Channel.Cut`).
* **The second lap is not safe.** The cursor is a 32-bit number that wraps after 8801163 packets. Packet
  number 8801163 is cut at position 248 and may bring bytes that a short packet left out; a packet cut
  from stale memory in the first lap can then become adjacent to them, and the receiver reads past the
  end of the stream. `Protocol.OnePacketTooMany` is such a run, one packet past the bound, and
  `Protocol.LapIsExact` states the bound in both directions.
* **A packet that drains the buffer across two nodes leaves the channel marked as updated**
  (`ALTUS/ALTUSPeer.cpp:284-289`), and `Send` then goes on past the stream. `Channel.StaysMarked` says
  after which packets the mark stays, and `Channel.Channel.Send` that it sends exactly as long as it does.
  `Channel.NinthStraddles` is such a packet: a stream of 4100 bytes ends in one.
* **Peek past the end** returns a negative length rather than 0 (`ALTUS/windowedqueue.c:294-299`).
  `WindowedQueue.Window.Peek` states its answer for every number, from the count of the node it lands in,
  and what that means up to the contiguous end and past it.
* **`headSeq` stays behind.** `altusWQPopNode` never advances it (`ALTUS/windowedqueue.c:85-96`), and Peek
  counts from it. So a number leads to the position it stands for if and only if the head node starts at
  `headSeq` (`StreamBuffer.PeekPosExact`); the same condition decides whether a packet carries the number
  of the position it was cut at (`Channel.Channel.EmitPacket`). In a window numbered from 0 that is: fewer
  than 4096 bytes have been read in all, modulo 2^32 (`Reassembly.PeekAfterRun`). After the first node is
  read, number 4096 leads to byte 8192: `StreamBuffer.SecondNodeSkipped`, and on the nodes themselves
  `WindowedQueue.ReadThenPeek`.
* **CheckUB** tests "different from" where it means "before", because a cast closes too late
  (`ALTUS/fileReceiveStream.cpp:241`). `FileReceive.KeepsShapeExactly` shows that this goes wrong for
  exactly one family of arrivals, and `FileReceive.RunsIntoNextExample` is one of them. Segments of a
  fixed size never belong to it (`FileReceive.GridRunKeepsShape`).
* `altusUBCheck` never answers that a block overlaps; a repeated early block is "malicious"
  (`UnsequencedBlocks.InsertVerdict`). The receiver asks for an acknowledgement whatever the flags say
  (`ALTUS/channel.cpp:161`, `Channel.Channel.Receive`).
* An expired certificate can still be revoked (`CertDatabase.RevokeSucceeds`). An unknown one stays in
  the database as valid when its revocation fails (`ALTUS/MyLibrary/openssl-master/apps/ca.c:2177-2192`):
  `CertDatabase.RevokeFailure` says exactly when, `CertDatabase.RevokedIntoValid` is an input.
* A separator at the very end of a section list makes `conf_get_string` look into the section with the
  empty name first; `SectionList.ConfGetString` states the result with it.

The bodies of `altusUBCheck` and `altusUBPop` are modelled as written in `ALTUS/ublist.c`, lines 6-78
and 80-98: `CheckBefore` lines 11-31, `CheckAdjacent` 35-58, `CheckPast` 59-76, `PushBack` line 4, `Merge`
and `PullForward` 45-53, `Pop` 80-98. That file is not UTF-8 text, so the rows below cite the declarations
in `ALTUS/ublist.h` and the caller. Packet, header and data size are 496, 8 and 488 as in
`ALTUS/channel.h`.

## Model

| member | source | states |
|---|---|---|
| `SeqNum.AfterIsOrder` | ALTUS/fileReceiveStream.cpp:201-216 | the cast comparison orders wrapped numbers as the positions they stand for, while these are less than 2^31 apart |
| `SeqNum.AfterFailsAtHalfRange` | ALTUS/windowedqueue.c:150 | at a distance of 2^31 the comparison no longer sees the order |
| `UnsequencedBlocks.Slot` | ALTUS/ublist.h:17 | the scan stops at the first block that does not end before the arrival |
| `UnsequencedBlocks.InsertExact` | ALTUS/ublist.h:11-17 | an accepted arrival leaves at most eight separated blocks that cover exactly the old positions and the new ones |
| `UnsequencedBlocks.InsertGrows` | ALTUS/ublist.h:11-17 | the same for all positions at once |
| `UnsequencedBlocks.InsertVerdict` | ALTUS/windowedqueue.c:161-180 | refused exactly on a conflict, full exactly when eight blocks are tracked and none can be extended, extended exactly when a block is touched; a refusal changes nothing |
| `UnsequencedBlocks.InsertWithin` | ALTUS/ublist.h:17 | bounds on all tracked positions survive every arrival within them |
| `UnsequencedBlocks.InsertEnds` | ALTUS/windowedqueue.c:217-218 | every block that results ends where the arrival or an old block ended |
| `UnsequencedBlocks.UbList.constructor` | ALTUS/windowedqueue.c:28 | a new list is empty |
| `UnsequencedBlocks.UbList.PushBack` | ALTUS/ublist.h:11-17 | entries from a slot on move up by one, the others stay |
| `UnsequencedBlocks.UbList.PullForward` | ALTUS/ublist.h:11-19 | entries after a slot move down by one, the others stay |
| `UnsequencedBlocks.UbList.Merge` | ALTUS/ublist.h:17 | two blocks that meet become one |
| `UnsequencedBlocks.UbList.CheckBefore` | ALTUS/ublist.h:17 | the branch for an arrival before a block decides and acts as `Insert` |
| `UnsequencedBlocks.UbList.CheckAdjacent` | ALTUS/ublist.h:17 | the branch for an arrival that continues a block decides and acts as `Insert` |
| `UnsequencedBlocks.UbList.CheckPast` | ALTUS/ublist.h:17 | the branch for an arrival beyond all blocks decides and acts as `Insert` |
| `UnsequencedBlocks.UbList.Check` | ALTUS/windowedqueue.c:161 | the scan over wrapped numbers gives the verdict and the list that `Insert` gives on positions; a refusal leaves the arrays untouched |
| `UnsequencedBlocks.UbList.Pop` | ALTUS/windowedqueue.c:247 | the first block, and only it, is dropped |
| `StreamBuffer.LocateExact` | ALTUS/windowedqueue.c:150-154 | the position meant by a wire number is recovered within half the range on either side of `last` |
| `StreamBuffer.LocateOnly` | ALTUS/windowedqueue.c:150-154 | the same in both directions: further away a number is taken for another position |
| `StreamBuffer.LocateGuards` | ALTUS/windowedqueue.c:150-159 | both guards of Put, computed modulo 2^32, decide on positions |
| `StreamBuffer.FitsBound` | ALTUS/windowedqueue.c:154-159 | what passes the window test ends less than 2^29 past the head node |
| `StreamBuffer.WindowBound` | ALTUS/windowedqueue.c:154-159 | the nodes up to safe_tail, with those any tracked block will add, never exceed the window size |
| `StreamBuffer.TenthPacketFirst` | ALTUS/windowedqueue.c:189-198 | a reordering that is accepted but out of reach of the copy loop |
| `StreamBuffer.CommitWf` | ALTUS/windowedqueue.c:217-250 | committing the first block when it meets `last` restores the invariant and forgets no byte |
| `StreamBuffer.PutKeepsWf` | ALTUS/windowedqueue.c:141-252 | every arrival, accepted or not, keeps the invariant of the buffer |
| `StreamBuffer.PutStores` | ALTUS/windowedqueue.c:141-147 | a refused arrival changes nothing; an accepted one adds exactly its bytes, at positions that were missing |
| `StreamBuffer.PutVerdict` | ALTUS/windowedqueue.c:150-180 | when each of the five answers is given, both directions, in terms of `last`, conflicts, touched blocks and their number, and the window of 131072 nodes |
| `StreamBuffer.NextInSequence` | ALTUS/windowedqueue.c:161-250 | exactly when the next packet in sequence is accepted, and how far `last` then moves |
| `StreamBuffer.FirstPacketRefused` | ALTUS/windowedqueue.c:161-166 | eight empty blocks keep the first packet out |
| `StreamBuffer.LastIsFirstGap` | ALTUS/windowedqueue.c:217-249 | `last` is the first missing position |
| `StreamBuffer.PutExtendsContents` | ALTUS/windowedqueue.c:141-252 | an arrival never disturbs what is already readable |
| `StreamBuffer.PutAppends` | ALTUS/windowedqueue.c:141-252 | in order, Put appends exactly its data, or reports a full window |
| `StreamBuffer.PopDrops` | ALTUS/windowedqueue.c:254-283 | reading removes exactly the front bytes |
| `StreamBuffer.PopTwice` | ALTUS/windowedqueue.c:258-281 | reading in two steps is reading at once |
| `StreamBuffer.PeekPosExact` | ALTUS/windowedqueue.c:286-293 | Peek goes to the position the number stands for if and only if the head node starts at headSeq |
| `StreamBuffer.PopShifts` | ALTUS/windowedqueue.c:85-96 | reading shifts every number by the nodes it retires; not at all exactly when no node is read to its end |
| `StreamBuffer.SecondNodeSkipped` | ALTUS/windowedqueue.c:85-96 | after the first node is read, number 4096 leads to position 8192 |
| `NodeChains.Pool.constructor` | ALTUS/windowedqueue.c:37-56 | a new pool holds one node |
| `NodeChains.Pool.Take` | ALTUS/windowedqueue.c:119-132 | the oldest recycled node, or a new one when only one is left; the pool stays a sound chain and is never empty |
| `NodeChains.Pool.Recycle` | ALTUS/windowedqueue.c:91-95 | the node becomes the end of the pool chain; links and count stay right |
| `NodeChains.MovedKeeps` | ALTUS/windowedqueue.c:99-139 | storing loses no node, and the chains gain only nodes past those the pool gave |
| `NodeChains.RecycledKeeps` | ALTUS/windowedqueue.c:254-283 | reading neither loses nor allocates a node |
| `NodeChains.CopyIn` | ALTUS/windowedqueue.c:204 | the copied range is replaced, nothing else |
| `WindowSteps.NodeRoom` | ALTUS/windowedqueue.c:190-208 | the unsigned room, the 16-bit offset and the end test are exact up to the end of the node |
| `WindowSteps.SafeDiff` | ALTUS/windowedqueue.c:221-222 | the commit loop measures the distance from the start of safe_tail exactly |
| `WindowSteps.FirstWriteExact` | ALTUS/windowedqueue.c:184-204 | the first copy stays in its node at the right place if and only if the block starts no later than the next node |
| `WindowSteps.FirstWriteOverwrites` | ALTUS/windowedqueue.c:190-204 | blocks 65536 bytes ahead are written over bytes of safe_tail |
| `WindowedQueue.Window.constructor` | ALTUS/windowedqueue.c:10-35 | a new window, numbered from 0, is valid and empty |
| `WindowedQueue.Window.NewNode` | ALTUS/windowedqueue.c:99-139 | one node, recycled or new, is linked at the end; both chains stay sound and disjoint |
| `WindowedQueue.Window.PopNode` | ALTUS/windowedqueue.c:58-97 | the head node moves to the end of the pool, except when it is safe_tail: then nothing changes |
| `WindowedQueue.Window.Round` | ALTUS/windowedqueue.c:189-213 | one round of the copy loop writes a further piece of the data at its place, or steps to the next node |
| `WindowedQueue.Window.CopyLoop` | ALTUS/windowedqueue.c:183-214 | the loop terminates; every byte of the data, and every byte known before, is then at its place; the node that holds the end exists |
| `WindowedQueue.Window.CommitUpTo` | ALTUS/windowedqueue.c:217-250 | the loop terminates and moves safe_tail to the node of the new end, over nodes that exist; every node before it is full |
| `WindowedQueue.Window.CommitFirst` | ALTUS/windowedqueue.c:217-250 | the contiguous end moves exactly when the first block meets it, and that block leaves the list |
| `WindowedQueue.Window.Store` | ALTUS/windowedqueue.c:183-251 | copy and commit together do what `StreamBuffer.Put` does |
| `WindowedQueue.Window.Put` | ALTUS/windowedqueue.c:141-252 | result and new contents are those of `StreamBuffer.Put`; links, counts and bytes of the chain stay valid; any other result than 0 changes nothing; in order, safe_tail stays the last node; nodes come from the front of the pool or are new |
| `WindowedQueue.Window.Consume` | ALTUS/windowedqueue.c:265-276 | reading part or all of the head node; a node read to its end goes to the pool |
| `WindowedQueue.Window.PopRound` | ALTUS/windowedqueue.c:259-276 | one round hands out the next bytes and nothing else |
| `WindowedQueue.Window.PopStep` | ALTUS/windowedqueue.c:258-281 | a round makes progress or the window is drained |
| `WindowedQueue.Window.Pop` | ALTUS/windowedqueue.c:254-283 | min(length, available) bytes, exactly the front ones, and the rest of the destination untouched; nodes only move from the front of the window to the end of the pool |
| `WindowedQueue.Window.Walk` | ALTUS/windowedqueue.c:286-293 | the loop finds the node and offset of a distance, or that the chain ends before it |
| `WindowedQueue.Window.Peek` | ALTUS/windowedqueue.c:285-300 | whether the position it goes to is the one meant, exactly; there, at `last` nothing; before it the bytes up to the end of the node or of the data; past it, in a window without later nodes, the negative length the code computes; and for every number what the count of its node makes of it |
| `WindowedQueue.ReadThenPeek` | ALTUS/windowedqueue.c:254-300 | reading one node and peeking at the next number hands out the bytes of position 8192 |
| `Reassembly.Perform` | ALTUS/windowedqueue.c:141-283 | a step of a run is a call of altusWQPut or altusWQPop: the same buffer and the same bytes handed out |
| `Reassembly.RunFaithful` | ALTUS/windowedqueue.c:141-283 | over every run of numbered arrivals and reads, all bytes held or handed out are those of the stream, at their positions |
| `Reassembly.Reassembled` | ALTUS/windowedqueue.c:141-283 | at every moment of every run, bytes read followed by bytes readable are the stream up to `last`, and `last` is the longest contiguous prefix accepted; the stream may be longer than 2^32 |
| `Reassembly.OrderDoesNotMatter` | ALTUS/windowedqueue.c:141-283 | two runs that accepted the same positions agree on everything readable |
| `Reassembly.PeekAfterRun` | ALTUS/windowedqueue.c:254-300 | after every run Peek finds a number at its own position if and only if fewer than 4096 bytes were read in all, modulo 2^32 |
| `Reassembly.QueueStepExact` | ALTUS/windowedqueue.c:141-283 | one append adds its data if it fits; one read hands out min(n, available) front bytes |
| `Reassembly.FirstInFirstOut` | ALTUS/windowedqueue.c:141-283 | over every in-order run, bytes handed out followed by bytes held are those of the beginning followed by exactly the data that fitted |
| `Framing.FrameRoundTrip` | ALTUS/channel.cpp:153-160 | receiving recovers number and payload for every length; padding is below 16, the packet not too long and a multiple of 16 |
| `Framing.HeaderOnTheWire` | ALTUS/ALTUSPeer.cpp:182-189 | the other side reads back the channel id, the flag and the number, each with the high byte first |
| `Framing.Bytes4RoundTrip` | ALTUS/channel.cpp:157-159 | network byte order is undone |
| `Channel.Channel.constructor` | ALTUS/channel.cpp:126-132 | a linked channel starts empty at number 0 |
| `Channel.Channel.CreateUpstream` | ALTUS/ALTUSPeer.cpp:229-239 | the stream grows by exactly the data, or not at all when the window is full; the channel is marked either way |
| `Channel.AppendReaches` | ALTUS/ALTUSPeer.cpp:235 | an in-order Put is always within reach of the copy loop |
| `Channel.Channel.Gather` | ALTUS/ALTUSPeer.cpp:261-277 | the two Peeks together offer the segment the packet should carry, across a node boundary too; past the stream a full packet of stale memory or nothing |
| `Channel.Channel.PeekBytes` | ALTUS/ALTUSPeer.cpp:262 | one Peek offers the bytes from a position to the end of its node or of the stream; past the stream, what the unsigned length makes of it |
| `Channel.Lengths` | ALTUS/ALTUSPeer.cpp:262-277 | two Peeks in a row suffice for a packet, and the second finds nothing exactly when the segment ends within its node |
| `Channel.Assemble` | ALTUS/ALTUSPeer.cpp:259-292 | header, pieces and padding form a packet of the format that is received |
| `Channel.Channel.EmitPacket` | ALTUS/ALTUSPeer.cpp:254-295 | the packet carries min(488, rest) bytes of the stream from the cursor, or past the stream a full packet of stale memory or nothing; the cursor moves by 488; exactly when the channel stays marked, and exactly when number and payload agree |
| `Channel.Channel.Receive` | ALTUS/channel.cpp:153-163 | the payload is put at the position its number stands for; an acknowledgement is always asked for |
| `Channel.Channel.Send` | ALTUS/ALTUSPeer.cpp:241-304 | at most sixteen packets, each cut at the cursor, exactly until one leaves the channel unmarked; final cursor and mark; the number of packets when the drain does not straddle two nodes; every frame carries the id of the channel |
| `Channel.UntilDrained` | ALTUS/ALTUSPeer.cpp:244-289 | from a cursor inside the stream, sending stops exactly at the draining packet, unless that one straddles two nodes |
| `Channel.CursorStraight` | ALTUS/ALTUSPeer.cpp:268-290 | within the stream the 32-bit cursor has not wrapped |
| `Channel.LastSegment` | ALTUS/ALTUSPeer.cpp:263-289 | which packet is the draining one, and how long it is |
| `Channel.NinthStraddles` | ALTUS/ALTUSPeer.cpp:272-289 | a stream of 4100 bytes is drained by a packet across two nodes that leaves the channel marked |
| `Protocol.ArrivalExact` | ALTUS/channel.cpp:157-160 | in the first lap a delivered packet is placed at its own position or dropped as old |
| `Protocol.StuckAtShort` | ALTUS/ALTUSPeer.cpp:290 | in every state of the first lap the receiver is not past the end of any short packet |
| `Protocol.PrefixSafe` | ALTUS/channel.cpp:153-162 | the invariant implies that read and readable bytes are a prefix of the stream |
| `Protocol.UpstreamExact` | ALTUS/ALTUSPeer.cpp:229-239 | the stream grows by exactly the data, or not at all when it does not fit; the channel is marked; nothing else changes |
| `Protocol.EmitExact` | ALTUS/ALTUSPeer.cpp:256-292 | one packet is added, with the number of the cursor and the bytes that were cut |
| `Protocol.ReadExact` | ALTUS/windowedqueue.c:254-283 | exactly as many front bytes as asked for are handed out |
| `Protocol.PerformUpstream` | ALTUS/ALTUSPeer.cpp:229-239 | a call of CreateUpstream on the sender's channel is that step of the system |
| `Protocol.PerformEmit` | ALTUS/ALTUSPeer.cpp:254-295 | so is the cut of a packet, which is a frame of that packet |
| `Protocol.PerformDeliver` | ALTUS/channel.cpp:153-163 | so is the receipt of such a frame |
| `Protocol.PerformRead` | ALTUS/windowedqueue.c:254-283 | so is a call of altusWQPop, which hands out the bytes of the step |
| `Protocol.StepInv` | ALTUS/ALTUSPeer.cpp:229-295 | every step within the first 8801163 packets keeps the invariant; packets sent only grow, and the stream grows by exactly what the step was given and could take |
| `Protocol.RunInv` | ALTUS/ALTUSPeer.cpp:229-295 | every state of every run with at most 8801163 packets satisfies it |
| `Protocol.StreamIsGiven` | ALTUS/ALTUSPeer.cpp:229-239 | over every run, of any length, the stream is the data given to CreateUpstream that fitted, in order |
| `Protocol.EndToEnd` | ALTUS/channel.cpp:142-163 | end-to-end safety at every moment of every run with at most 8801163 packets, under loss, repetition and reordering: read and readable bytes are the first ones the sending application gave |
| `Protocol.DeliveredAsFramed` | ALTUS/channel.cpp:153-160 | receiving the bytes of a packet is the delivery step of the system |
| `Protocol.EmittedAsCut` | ALTUS/ALTUSPeer.cpp:256-290 | the emission step is the packet Send cuts at its 32-bit cursor, and the cursors agree again afterwards |
| `Protocol.ShortPacketIsFinal` | ALTUS/ALTUSPeer.cpp:277-290 | after a short packet no later event of the first lap gets the receiver past its end |
| `Protocol.LimitExact` | ALTUS/ALTUSPeer.cpp:277-290 | in the first lap every byte before the end of the first short packet is in some packet, the position there in none, and the receiver is not beyond it |
| `Protocol.CatchUp` | ALTUS/channel.cpp:153-160 | delivering the remaining packets in order brings the receiver to exactly that limit, if it fits in the window |
| `Protocol.HeldExactly` | ALTUS/channel.cpp:153-160 | in the first lap a byte is held or read exactly when a packet that carries it was accepted |
| `Protocol.ReceivedExactly` | ALTUS/channel.cpp:153-160 | at every moment of the first lap, after deliveries in any order, the receiver is at the limit if and only if every packet up to the first short one (unless empty) was accepted at least once |
| `Protocol.WaitedForRefused` | ALTUS/windowedqueue.c:161-166 | a run of 17 packets in which the first one is turned away because eight empty ones came before |
| `Protocol.CursorInLap` | ALTUS/ALTUSPeer.cpp:268-290 | the cursor takes the multiples of 488 in turn for 8801163 packets, then 248 |
| `Protocol.OnePacketTooMany` | ALTUS/ALTUSPeer.cpp:256-290 | a run of 8801164 packets after which the receiver has 976 bytes of a stream of 488, past its first short packet |
| `Protocol.LapIsExact` | ALTUS/ALTUSPeer.cpp:256-290 | all states reachable with at most n packets are safe if and only if n is at most 8801163 |
| `FileReceive.ClassifyIsInsert` | ALTUS/fileReceiveStream.cpp:211-272 | outside the bad family, an accepted arrival has the effect of `Insert` |
| `FileReceive.KeepsShapeExactly` | ALTUS/fileReceiveStream.cpp:239-257 | the list stays sorted, separated, short, beyond lastSeq and within reach if and only if the arrival is not of the bad family (or is refused, or in sequence) |
| `FileReceive.VerdictsMean` | ALTUS/fileReceiveStream.cpp:195-272 | for every arrival: the covered set grows by exactly the arrival when added or extended, is unchanged otherwise; an overlap is already covered |
| `FileReceive.VerdictsExact` | ALTUS/fileReceiveStream.cpp:195-272 | when each of the seven verdicts is given, for every arrival and in both directions |
| `FileReceive.RunsIntoNextExample` | ALTUS/fileReceiveStream.cpp:241 | an arrival that leaves overlapping blocks |
| `FileReceive.RunKeepsShape` | ALTUS/fileReceiveStream.cpp:195-272 | over every run without a bad arrival the list keeps its shape and covers exactly the old positions and those of the arrivals that were added or extended a block |
| `FileReceive.GridRunClean` | ALTUS/fileReceiveStream.cpp:239-257 | if all arrivals start at multiples of a segment size and are no longer than it, no arrival of the run is a bad one |
| `FileReceive.GridRunKeepsShape` | ALTUS/fileReceiveStream.cpp:195-272 | over every run of such segments the list keeps its shape and covers exactly those that were added or extended a block |
| `FileReceive.FileRcvStream.constructor` | ALTUS/fileReceiveStream.cpp:15-18 | a new stream starts at 0 with no blocks |
| `FileReceive.FileRcvStream.Precede` | ALTUS/fileReceiveStream.cpp:215-232 | the branch for an arrival before a block |
| `FileReceive.FileRcvStream.Continue` | ALTUS/fileReceiveStream.cpp:239-257 | the branch for an arrival that continues a block, with the misplaced cast |
| `FileReceive.FileRcvStream.CheckUB` | ALTUS/fileReceiveStream.cpp:195-272 | on wrapped numbers, every comparison decides as on positions: verdict and list are those of `Classify`, and every block stays less than 2^26 past headSeq |
| `PeerChannels.Peer.NewChannel` | ALTUS/ALTUSPeer.cpp:160-174 | the scan terminates; the id is free and every id before it, counting up from the last one modulo 65536, is taken; -1 exactly when all 65536 are taken |
| `PeerChannels.EveryIdAhead` | ALTUS/ALTUSPeer.cpp:161-165 | the wrapping scan visits every id |
| `CaPolicy.NextIndex` | ALTUS/MyLibrary/openssl-master/crypto/x509/x509name.c:68-87 | the next entry of a type, or that there is none |
| `CaPolicy.FindEqual` | ALTUS/MyLibrary/openssl-master/apps/ca.c:1623-1649 | the jump-back loop terminates and finds an equal CA entry exactly when there is one |
| `CaPolicy.SatisfiedIs` | ALTUS/MyLibrary/openssl-master/apps/ca.c:1576-1655 | what one policy line asks, in the words of the configuration |
| `CaPolicy.ApplyRule` | ALTUS/MyLibrary/openssl-master/apps/ca.c:1585-1665 | one policy line succeeds exactly when it is satisfied and then adds the request's entries of its type |
| `CaPolicy.MatchPolicy` | ALTUS/MyLibrary/openssl-master/apps/ca.c:1575-1666 | a subject is built exactly when every type is known, every value is one of the three words, every supplied or matched type occurs, and every entry of a matched type is in the CA name; it is the request regrouped in policy order |
| `CaPolicy.OfTypeConcat` | ALTUS/MyLibrary/openssl-master/apps/ca.c:1586-1597 | the entries of a type are all of them, in the order of the request |
| `CaPolicy.RegroupConcat` | ALTUS/MyLibrary/openssl-master/apps/ca.c:1575-1666 | the groups follow each other in the order of the policy |
| `CaPolicy.RegroupCounts` | ALTUS/MyLibrary/openssl-master/apps/ca.c:1575-1666 | each entry of a listed type occurs as often as in the request, no other occurs |
| `CaPolicy.RegroupPermutes` | ALTUS/MyLibrary/openssl-master/apps/ca.c:1575-1666 | if all types are listed once, the subject is a permutation of the request |
| `Revocation.FindReason` | ALTUS/MyLibrary/openssl-master/apps/ca.c:2381-2386 | the first reason of the same spelling, or -1 |
| `Revocation.FoldsCase` | ALTUS/MyLibrary/openssl-master/apps/ca.c:2382 | the comparison ignores the case of letters and nothing else |
| `Revocation.JoinInBuffer` | ALTUS/MyLibrary/openssl-master/apps/ca.c:2430-2446 | the computed size never cuts anything off |
| `Revocation.MakeRevocationStr` | ALTUS/MyLibrary/openssl-master/apps/ca.c:2367-2449 | a field is written exactly for valid arguments, and is time, reason and argument joined |
| `Revocation.WrittenAs` | ALTUS/MyLibrary/openssl-master/apps/ca.c:2375-2423 | reason and argument written for each type, and when it is refused |
| `Revocation.ReasonWritten` | ALTUS/MyLibrary/openssl-master/apps/ca.c:2380-2391 | a CRL reason is one of the first eight names, in any case, and written as in the list |
| `Revocation.JoinedIs` | ALTUS/MyLibrary/openssl-master/apps/ca.c:2437-2446 | the format: time, reason and argument with commas between them |
| `Revocation.FindComma` | ALTUS/MyLibrary/openssl-master/apps/ca.c:2571-2579 | the first comma |
| `Revocation.UnpackRevinfo` | ALTUS/MyLibrary/openssl-master/apps/ca.c:2554-2663 | the field is split at its first two commas and interpreted, with every rejection |
| `Revocation.UnpackExact` | ALTUS/MyLibrary/openssl-master/apps/ca.c:2586-2646 | exactly which fields are accepted, and what they then say |
| `Revocation.SplitJoined` | ALTUS/MyLibrary/openssl-master/apps/ca.c:2571-2584 | splitting undoes joining |
| `Revocation.JoinedSplit` | ALTUS/MyLibrary/openssl-master/apps/ca.c:2571-2584 | joining undoes splitting |
| `Revocation.ReasonsDistinct` | ALTUS/MyLibrary/openssl-master/apps/ca.c:2342-2356 | no two reasons are spelled alike up to case |
| `Revocation.ReasonCodes` | ALTUS/MyLibrary/openssl-master/apps/ca.c:2342-2356 | each name has its place in the list, and the code of section 5.3.1 of RFC 5280 |
| `Revocation.RoundTrip` | ALTUS/MyLibrary/openssl-master/apps/ca.c:2554-2663 | whatever can be written is read back: time, reason code of section 5.3.1 of RFC 5280, argument |
| `Revocation.OtherTimesAreRejected` | ALTUS/MyLibrary/openssl-master/apps/ca.c:2586-2596 | a written field is readable if and only if its time is a UTC time |
| `CertDatabase.FindSerial` | ALTUS/MyLibrary/openssl-master/apps/lib/apps.c:1391-1399 | a row with the serial, leading zeros ignored, or that there is none |
| `CertDatabase.KeyStrips` | ALTUS/MyLibrary/openssl-master/apps/lib/apps.c:1381-1399 | leading zeros of a serial are ignored, and nothing else |
| `CertDatabase.IssueExact` | ALTUS/MyLibrary/openssl-master/apps/ca.c:1830-1953 | exactly when a certificate is issued, and the row that is added |
| `CertDatabase.MarkedValid` | ALTUS/MyLibrary/openssl-master/apps/ca.c:2153-2189 | marking a certificate valid is adding it like an issued one |
| `CertDatabase.InsertKeeps` | ALTUS/MyLibrary/openssl-master/apps/ca.c:1930-1953 | a row without a clash leaves a database that loads |
| `CertDatabase.RevokeKeeps` | ALTUS/MyLibrary/openssl-master/apps/ca.c:2119-2223 | revoking leaves a database that loads, and changes rows only as allowed |
| `CertDatabase.RevokeSucceeds` | ALTUS/MyLibrary/openssl-master/apps/ca.c:2152-2218 | exactly when a revocation succeeds |
| `CertDatabase.RevokeFailure` | ALTUS/MyLibrary/openssl-master/apps/ca.c:2153-2194 | a failed revocation changes the database exactly when the certificate was unknown and could be filed; it then stays as a valid row, and the argument was at fault |
| `CertDatabase.RevokedIntoValid` | ALTUS/MyLibrary/openssl-master/apps/ca.c:2153-2194 | a certificate revoked with a misspelt reason ends up valid |
| `CertDatabase.RevokeEffect` | ALTUS/MyLibrary/openssl-master/apps/ca.c:2207-2217 | the row of that serial, and only it, is revoked and reads back as what was given |
| `CertDatabase.ExpireExact` | ALTUS/MyLibrary/openssl-master/apps/ca.c:2308-2336 | row by row: of the first k rows exactly the due ones expire, and nothing else about them changes |
| `CertDatabase.DueCounts` | ALTUS/MyLibrary/openssl-master/apps/ca.c:2327-2330 | the count is the number of rows that change |
| `CertDatabase.ExpireAll` | ALTUS/MyLibrary/openssl-master/apps/ca.c:2308-2336 | in a database that loads every due row expires |
| `CertDatabase.ExpireKeeps` | ALTUS/MyLibrary/openssl-master/apps/ca.c:2308-2336 | expiring rows, in part or all, leaves a database that loads |
| `CertDatabase.ApplyKeeps` | ALTUS/MyLibrary/openssl-master/apps/ca.c:704-716 | every operation keeps the load check satisfied |
| `CertDatabase.SessionKeeps` | ALTUS/MyLibrary/openssl-master/apps/ca.c:704-716 | over every session serials stay unique, revocation data is exactly on revoked rows and readable, no row is lost, revoked rows never change, and status moves only from valid to expired or to revoked |
| `CertDatabase.Perform` | ALTUS/MyLibrary/openssl-master/apps/ca.c:2119-2340 | the operations of a session are calls of the code |
| `CertDatabase.RevokedIsFinal` | ALTUS/MyLibrary/openssl-master/apps/ca.c:2199-2206 | a revoked serial can be neither issued, marked valid nor revoked again |
| `CertDatabase.UniqueSubjects` | ALTUS/MyLibrary/openssl-master/apps/ca.c:1830-1839 | with unique subjects no two valid rows share a name |
| `CertDatabase.CaDb.Lookup` | ALTUS/MyLibrary/openssl-master/apps/ca.c:2152 | lookup by serial |
| `CertDatabase.CaDb.DoBody` | ALTUS/MyLibrary/openssl-master/apps/ca.c:1830-1953 | refused on a clash of name or serial, otherwise one valid row is added |
| `CertDatabase.CaDb.DoRevokeCert` | ALTUS/MyLibrary/openssl-master/apps/ca.c:2119-2223 | the recursion ends, and result and rows are those of `Revoke` |
| `CertDatabase.CaDb.DoUpdateDb` | ALTUS/MyLibrary/openssl-master/apps/ca.c:2292-2340 | row by row, a row expires exactly if it was valid, due and before the first unreadable date; the result is the number of rows that changed, or -1 exactly when a valid row has an unreadable date |
| `SectionList.WordsTake` | ALTUS/MyLibrary/openssl-master/apps/cmp.c:2083-2098 | a stretch without separators is the last name before its end |
| `SectionList.SeparatorsAre` | ALTUS/MyLibrary/openssl-master/apps/cmp.c:2086 | comma and the six characters isspace accepts separate names |
| `SectionList.CutIs` | ALTUS/MyLibrary/openssl-master/apps/cmp.c:2091-2098 | a name keeps its first 40 characters |
| `SectionList.PrevItem` | ALTUS/MyLibrary/openssl-master/apps/cmp.c:2074-2107 | each call moves strictly left and yields the last name, cut to 40 characters |
| `SectionList.ConfGetString` | ALTUS/MyLibrary/openssl-master/apps/cmp.c:2109-2121 | the loop terminates; the value is that of the last listed section that defines the name, but for a trailing separator |
| `SectionList.LastDefinedMeans` | ALTUS/MyLibrary/openssl-master/apps/cmp.c:2116-2120 | the value found is that of a listed section, and no later one has the name |
| `SectionList.WordsClean` | ALTUS/MyLibrary/openssl-master/apps/cmp.c:2084-2105 | names are not empty and contain no separator |
| `SectionList.WordsComplete` | ALTUS/MyLibrary/openssl-master/apps/cmp.c:2084-2105 | the names hold all other characters of the list, in order |
| `SectionList.WordsJoined` | ALTUS/MyLibrary/openssl-master/apps/cmp.c:2083-2106 | names joined by commas, spaces or both are read back as these names |
| `BinarySearch.Bsearch` | ALTUS/MyLibrary/openssl-master/crypto/bsearch.c:13-44 | found exactly when present; the leftmost match on request; otherwise, on request, a neighbour of the insertion point |

## Left out

- WindowedQueue.Window.Put: requires `Reaches`, that is, a block that would be accepted starts no later than the first byte of the node after `safe_tail`; beyond that the C code writes outside its node, and `WindowSteps.FirstWriteExact` proves that the bound is exact. Lengths stay below 2^31, as the callers' signed lengths do.
- WindowedQueue.Window.CopyLoop: requires the same start, for the same reason.
- WindowedQueue.Window.Store: requires the same start, for the same reason.
- Channel.Channel.Receive: requires the same, and a packet at least as long as its header and padding; the source does not look at the length, and a shorter packet would make it wrap around.
- Channel.Channel.EmitPacket: does not cover a cursor before the read position, nor one past the contiguous end of a window with nodes after `safe_tail`; a sending window is filled in order and has none.
- Channel.Channel.Send: requires a window filled in order, and a cursor that does not come back to bytes already read. One rdt_stream channel, one thread: the loop over the map of channels and the atomic update are not modelled.
- Channel.Channel.Gather: does not cover a cursor before the read position, like EmitPacket.
- Channel.Channel.PeekBytes: does not cover a number before the read position, like EmitPacket.
- Reassembly.Reassembled: is about runs in which every arrival is within `Reaches` and half the number range of `last`; both bounds are exact, by `WindowSteps.FirstWriteExact` and `StreamBuffer.LocateOnly`, and the same holds for RunFaithful and OrderDoesNotMatter.
- FileReceive.RunKeepsShape: is about runs without an arrival of the bad family; one such arrival breaks the shape, as `FileReceive.KeepsShapeExactly` proves.
- BinarySearch.Bsearch: requires at most 2^30 elements, so that the 32-bit sum of the bounds does not overflow.
- Protocol.EndToEnd: is about runs with at most 8801163 packets, the exact bound by `Protocol.LapIsExact`, and about deliveries within `Reaches`, beyond which the C code writes outside its nodes.
- Protocol.ShortPacketIsFinal: has the same bounds, and so do StepInv, RunInv, ArrivalExact, StuckAtShort, LimitExact, HeldExactly and ReceivedExactly.
- Protocol.CatchUp: delivers in order to a receiver with nothing tracked; with eight blocks tracked the next packet can be refused, as `StreamBuffer.NextInSequence` proves.
- Node counters are unbounded; they are bounded by the window size in every valid window, and the pool count by memory.
- Failed allocation, debug printing, and the functions that free windows and pools.
- `altusWQSanitize`, which gives `unsafe_len` another meaning.
- Acknowledgements and retransmission: the number acknowledged is never advanced, so nothing can be said about liveness.
- `FileRcvStream::Append`, `PutUnSeq`, `FlushNode` and the node pool of `NodeBase.cpp`: file input and output mixed with list code that does not follow its intent.
- The shared_struct, lossy_stream and file channels, look-up of a channel by id, and the failure of the channel constructor inside `newChannel`.
- Sockets, threads, handshake, keys and encryption.
- Clocks, the ASN.1 checks of times and object identifiers, and configuration lookup are parameters.
- The CA command's option parsing, certificate building, the preserve and e-mail options after the policy loop, confirmation prompts, and file formats; hash indexes are modelled as lookups, and a row's file field is dropped.
- The other programs and libraries of OpenSSL.
