# Verified models of the network and container core

The repository is a C++ and Go game-server toolkit: a reliable datagram transport, an object
serializer, pooled memory, hash dictionaries, an event loop with its trees, an HTTP parser, and
small schedulers. This project models the parts whose correctness is not visible in any one
function and proves what they promise, for all inputs and all runs. `dafny verify dfyconfig.toml`
checks all of it.

**Transport** (`Words`, `KcpWire`, `KcpModel`, `Kcp`, `KcpLink`, `KcpSystem`, `KcpMessages`,
`KcpTheorems`, `KcpProgress`, `KcpStuck`, `KcpCongestion`, `KcpTimers`, `KcpAcks`, `KcpNotice`). The
class `ControlBlock` is the control block of `ikcp.h` with its queues and counters, and every method
is proved to compute a function on values; what these functions do is stated apart from how, down
to when each segment goes out again and what each acknowledgement changes. Two such endpoints and a network are a state machine over `ikcp_send`, `ikcp_recv`, `ikcp_input`,
`ikcp_flush` and `ikcp_update`. The network is the set of all datagrams ever emitted: any of them
may arrive at any time, any number of times, or never. On this machine stand the safety theorems
(in order, once, nothing lost, windows kept, messages whole) and a progress theorem with its exact
condition: no sequence of losses leads to a state from which delivery has become impossible, if
and only if the receive window survives being announced in 16 bits. Sequence numbers are 32-bit
and compared by signed distance; a run stays in the half of the range where that agrees with their
order, and `StaleUnaDropsIff` says what one late acknowledgement does beyond it.

**Serializer** (`Varint`, `GraphModel`, `GraphRoundTrip`, `GraphTheorems`, `BBuffer`, `ZigZagCode`,
`CppVarint`). An object graph is written with the offset of each first occurrence as its name; the
reader tells a new object from a back reference only by comparing that offset with its own position. Arbitrary
graphs, cycles included, come back isomorphic. The Go and the C++ integer codecs are compared byte
for byte.

**Dictionaries** (`DictTable`, `Dict`, `DictTheorems`, `DictEx`, `DictExTheorems`). Chains, free
list and slots of the hash dictionary in arrays; the multi-key dictionary built on slots staying
equal across several of them. The invariant that survives a rolled-back add is not that the free
lists are equal, for they are not, but that the slots to come are.

**Trees** (`RbTree`, `RbHeap`, `SplayTree`, `SplayHeap`). The first of each pair has the shapes,
colours and orders; the second has the nodes in memory, where every rotation and splice is a series
of pointer writes proved to leave the tree it should, parent links included.

**HTTP bodies** (`HttpBody`, `HttpTheorems`, `HttpGrammar`, `HttpMessages`, `HttpParser`). The loop
with its marks is proved equal to a byte-by-byte machine, and what that machine accepts, reports and
refuses is described by the stream alone.

**Pooled memory** (`MemPool`), **framing** (`Framing`), **coroutines** (`Coroutine`).

What the code does not do as one might expect is proved with its exact condition:

- `KcpStuck.ArrivesIffOpen`: the receive window is announced in 16 bits. If modulo 2^16 it is less
  than 127 in message mode, or zero in stream mode, there is a run after which the rest of what was
  sent never leaves the sender, `Standstill`; otherwise there is none.
- `KcpTheorems.RefusedSendUnchangedIff`: in stream mode a send that is refused for its size may
  already have filled up the last queued segment; `RefusedSendGrows` is such a send.
- `Dict.UpdateAt`: the check for a key in use is skipped within a bucket, and the key is then there
  twice; `DictTheorems.RenameDoubles` does it.
- `HttpTheorems.CutsDoNotMatter` and `HttpGrammar.CutsFeltIff`: when a chunk does not end where its
  size says, what was received of it in the same call is never passed to `on_body`;
  `BrokenChunkDependsOnCut` is an example.
- `HttpMessages.FollowsStandardIff`: a response that must not have a body but announces one is
  taken to have it; `NoContentWithLength` is an example.
- `HttpTheorems.RefusedInSize`: the table of hexadecimal digits has 128 of its 256 entries written
  out, so that any byte from 128 on counts as the digit zero.
- `HttpTheorems.SizeIsExact`: chunk sizes from 2^64 - 16 on are refused although they fit.
- `CppVarint.SameBytesIff`, `CppReadsGo`, `GoReadsCppIff`: the two codecs are not exchangeable from
  2^63 on.
- `Framing.CutMattersIff`: a handler that answers with a positive number is given all payloads
  still in the buffer again with the next read, so that the cuts are felt; `PositiveAnswerRepeats`
  says how.

## Model

| member | source | states |
|---|---|---|
| `KcpWire.SegRoundTrip` | test_uv_3/ikcp.h:1159-1169 | one encoded segment, whatever follows it, decodes to the same header fields and payload, and leaves exactly what follows |
| `KcpWire.HeaderLayout` | test_uv_3/ikcp.h:1159-1169 | where each field of the 36-byte header is, least significant byte first |
| `KcpWire.DatagramRoundTrip` | test_uv_3/ikcp.h:1024-1046 | the read loop on a datagram made of encoded segments finds exactly those segments and stops with code 0 |
| `KcpWire.GoodBeforeBad` | test_uv_3/ikcp.h:1024-1051 | segments before something unreadable are read all the same, and the code says what it was |
| `KcpWire.DatagramsCarryExactly` | test_uv_3/ikcp.h:1206-1361 | for every segment list: the datagrams it is packed into are each at most mtu long, decode without error, and decoded in order give exactly the list |
| `Kcp.ControlBlock.constructor` | test_uv_3/ikcp.h:513-575 | a new block is the initial state of the model, counters equal to their (empty) queues |
| `Kcp.ControlBlock.Send` | test_uv_3/ikcp.h:742-809 | queue and code equal the model of sending, for every mode, length and queue; a negative length is -1 and changes nothing; counters stay the queue lengths |
| `Kcp.ControlBlock.AppendFragments` | test_uv_3/ikcp.h:786-806 | the loop appends exactly the fragments of the data, counted down in message mode and zero in stream mode |
| `Kcp.ControlBlock.PeekSize` | test_uv_3/ikcp.h:715-736 | the size of the first message, or -1 if none is complete |
| `Kcp.ControlBlock.Merge` | test_uv_3/ikcp.h:656-682 | the walk over the first message: how many segments it takes up, and its payload |
| `Kcp.ControlBlock.Recv` | test_uv_3/ikcp.h:632-709 | codes, data and new state equal the model of reading, for reads and peeks; counters stay the queue lengths |
| `Kcp.ControlBlock.Advance` | test_uv_3/ikcp.h:686-699 | the loop moves exactly the segments in sequence while the queue has room |
| `Kcp.ControlBlock.ParseUna` | test_uv_3/ikcp.h:864-878 | the loop drops exactly the leading segments below the cumulative acknowledgement |
| `Kcp.ControlBlock.ShrinkBuf` | test_uv_3/ikcp.h:832-841 | the first unacknowledged number is that of the buffer's head, or the next number if it is empty |
| `Kcp.ControlBlock.ParseAck` | test_uv_3/ikcp.h:843-862 | the loop removes the acknowledged segment, and only if its number is in flight |
| `Kcp.ControlBlock.ParseFastack` | test_uv_3/ikcp.h:880-896 | every segment below the highest acknowledged number is counted as overtaken once, and no other |
| `KcpCongestion.TimeoutFollowsRoundTrip` | test_uv_3/ikcp.h:815-830 | a round-trip sample moves the estimate towards itself and never past it; the timeout is within its bounds and, short of the upper one, at least an interval beyond the estimate |
| `KcpCongestion.SteadyTimeout` | test_uv_3/ikcp.h:815-830 | a steady round trip brings the timeout down to exactly one interval beyond it, within its bounds, after as many samples as the variation was large |
| `KcpCongestion.SampleWeights` | test_uv_3/ikcp.h:815-830 | a sample weighs an eighth in the estimate and its distance a quarter in the variation; the timeout is the estimate and four variations, or an interval if that is more |
| `KcpCongestion.RunKeepsCtl` | test_uv_3/ikcp.h:815-830 | in every run both ends keep the timeout between the lesser of its minimum and the initial value, and the maximum; the threshold is never below two |
| `Kcp.ControlBlock.ParseData` | test_uv_3/ikcp.h:946-1007 | a segment outside the window changes nothing; otherwise it is inserted in order unless there, and segments in sequence move on |
| `Kcp.ControlBlock.PushSegment` | test_uv_3/ikcp.h:1078-1103 | a data segment below the window's end is acknowledged, and stored if it is not below its start |
| `Kcp.ControlBlock.InputSegment` | test_uv_3/ikcp.h:1052-1121 | one segment of any command: new state equals the model |
| `KcpCongestion.GrowthIsBounded` | test_uv_3/ikcp.h:1132-1149 | an acknowledgement opens the congestion window by at most one segment, by exactly one in slow start, and never beyond what the peer announces |
| `KcpCongestion.GrowthKeepsCounts` | test_uv_3/ikcp.h:1132-1149 | the window counted in segments stays the one counted in bytes rounded down, in slow start and beyond it, while nothing overflows 32 bits |
| `KcpCongestion.GrowsByReciprocal` | test_uv_3/ikcp.h:1138-1147 | beyond slow start the byte count grows by the reciprocal of the window, and a sixteenth |
| `KcpCongestion.InputWindow` | test_uv_3/ikcp.h:1127-1150 | whatever arrives, the congestion window passes the window the peer announces only if it was beyond it before |
| `Kcp.ControlBlock.Input` | test_uv_3/ikcp.h:1013-1153 | for every byte string whose declared payload lengths are below 2^31: new state and code equal the model of input, including what a bad datagram leaves half done |
| `Kcp.ControlBlock.Conclude` | test_uv_3/ikcp.h:1127-1150 | overtaking is counted, and the window grows exactly if the first unacknowledged number moved on |
| `Kcp.ControlBlock.UpdateTick` | test_uv_3/ikcp.h:1393-1417 | clock, next flush instant, state and output equal the model under 32-bit wrap-around |
| `Kcp.ControlBlock.Check` | test_uv_3/ikcp.h:1429-1464 | the instant returned is at most one interval ahead; at every earlier instant an update would not flush and no resend time has come; and it is itself such an instant unless a whole interval ahead |
| `Kcp.ControlBlock.RunProbeTimer` | test_uv_3/ikcp.h:1220-1241 | the window probe timer after a flush equals the model |
| `Kcp.ControlBlock.PackAcks` | test_uv_3/ikcp.h:1206-1218 | all pending acknowledgements are packed in order and the list is emptied |
| `Kcp.ControlBlock.PackProbes` | test_uv_3/ikcp.h:1243-1265 | the probes asked for follow, with the header left over from the last acknowledgement, and the requests are cleared |
| `Kcp.ControlBlock.AdmitQueued` | test_uv_3/ikcp.h:1271-1293 | the loop numbers queued segments while the window has room |
| `Kcp.ControlBlock.Transmit` | test_uv_3/ikcp.h:1303-1335 | whether and why one segment is sent, and its new timers and counters |
| `Kcp.ControlBlock.ScanSegments` | test_uv_3/ikcp.h:1299-1355 | the pass over the unacknowledged segments: which are packed, in order, and what each becomes |
| `Kcp.ControlBlock.AdjustWindow` | test_uv_3/ikcp.h:1363-1384 | threshold and congestion window after the pass equal the model |
| `Kcp.ControlBlock.FlushNow` | test_uv_3/ikcp.h:1197-1384 | the datagrams handed out are those of the acknowledgements, the probes and the due segments, and the state left is the model's |
| `Kcp.ControlBlock.Flush` | test_uv_3/ikcp.h:1182-1385 | nothing happens before the first update; afterwards as above |
| `KcpModel.QuietMeansNoTimeout` | test_uv_3/ikcp.h:1309-1321 | at a quiet instant no segment would be sent again for its timeout |
| `KcpModel.QuietAt` | test_uv_3/ikcp.h:1429-1464 | before the flush instant and all resend times the endpoint is quiet |
| `KcpTimers.FlushesOncePerInterval` | test_uv_3/ikcp.h:1393-1417 | after an update that flushes, the next flush is between one tick and one interval away, exactly an interval after the last was due if that was less than an interval late; until then updates emit nothing, and then one flushes |
| `KcpTimers.UpdateFlushesIff` | test_uv_3/ikcp.h:1393-1417 | an update flushes unless the flush instant is ahead by at most ten seconds |
| `KcpTimers.FlushPasses` | test_uv_3/ikcp.h:1303-1340 | what a flush makes of every segment: one that is due goes out and is not due again before its wait is over (the timeout and an eighth at first, longer by the timeout or half of it after each timeout, as before after a fast resend, with the count of overtakings then zero); the others are left as they are |
| `KcpTimers.GoesOutIffDue` | test_uv_3/ikcp.h:1299-1350 | an unacknowledged segment goes out if and only if it is new, its time has come, or it was overtaken as often as the settings ask for |
| `KcpTimers.NotAgainBefore` | test_uv_3/ikcp.h:1303-1340 | once out, a segment stays in at every flush before its wait is over, unless it was overtaken often enough |
| `KcpTimers.FlushSends` | test_uv_3/ikcp.h:1271-1355 | the data of a flush: exactly the due segments in order and then those just numbered, with the time, room and receive position of this flush |
| `KcpTimers.FlushFillsWindow` | test_uv_3/ikcp.h:1267-1293 | a flush numbers segments exactly up to the send window, the announced window and, unless switched off, the congestion window |
| `KcpTimers.FlushAdjustsWindow` | test_uv_3/ikcp.h:1363-1384 | a timeout closes the congestion window to one and remembers half of the window in use; a fast resend halves what is in flight; otherwise the window stays, and is at least one |
| `KcpTimers.AsksIff` | test_uv_3/ikcp.h:1220-1252 | a flush asks for the window if and only if it is closed and the time to ask has come |
| `KcpTimers.AsksBackOff` | test_uv_3/ikcp.h:1220-1241 | the next question comes after seven seconds, then after half as long again each time, and never later than two minutes; an open window stops the asking |
| `KcpTimers.GivesUpIff` | test_uv_3/ikcp.h:1351-1353 | the connection is given up if and only if some segment has gone out as often as the settings allow |
| `KcpTimers.TimeoutsCounted` | test_uv_3/ikcp.h:1311-1313 | every resend for a timeout is counted |
| `KcpTimers.FirstFlush` | test_uv_3/ikcp.h:513-575 | the first update flushes at once, with the initial window, timeout and congestion window |
| `KcpTimers.RunsAreFit` | test_uv_3/ikcp.h:1182-1385 | what these statements ask of an endpoint holds in every state of every run |
| `KcpAcks.InputMeetsFlight` | test_uv_3/ikcp.h:1013-1150 | a datagram clears exactly the segments it acknowledges, cumulatively or singly, and counts as overtaken, once, exactly those that stay and have a number below one it acknowledges; nothing else of the flight changes |
| `KcpAcks.CountIsExact` | test_uv_3/ikcp.h:880-896 | in every run the count kept with a segment is the number of datagrams that overtook it since |
| `KcpAcks.FastResend` | test_uv_3/ikcp.h:1322-1328 | overtaken as often as the settings ask for, a segment is in the next flush although its time has not come |
| `KcpAcks.RunsAreFitSys` | test_uv_3/ikcp.h:1182-1385 | what these statements ask of the two ends holds in every state of every run |
| `KcpAcks.DataIsEchoed` | test_uv_3/ikcp.h:1078-1103 | data that arrives in the window is acknowledged by the next flush with its own number and time stamp |
| `KcpAcks.OnlyDataIsAcked` | test_uv_3/ikcp.h:1083-1084 | nothing else is acknowledged |
| `KcpAcks.FlushEchoes` | test_uv_3/ikcp.h:1206-1218 | a flush acknowledges exactly what is listed |
| `KcpAcks.EchoesOnce` | test_uv_3/ikcp.h:1218-1218 | and then nothing is left to acknowledge |
| `KcpAcks.MeasuresRoundTrip` | test_uv_3/ikcp.h:1056-1059 | the first estimate is the time between the sending and the arrival of its echo |
| `KcpAcks.NoAckNoSample` | test_uv_3/ikcp.h:1056-1059 | without an acknowledgement, or with one from the future, nothing is measured |
| `KcpAcks.GrowsWhenAcked` | test_uv_3/ikcp.h:1131-1149 | the congestion window grows only when the first unacknowledged number moves on, and then, in slow start, by one |
| `KcpNotice.ReadIsTold` | test_uv_3/ikcp.h:686-709 | after a read the next flush tells the window if and only if the read made room in a full queue or it was to be told anyhow, and what it tells is the new room |
| `KcpNotice.PeerLearns` | test_uv_3/ikcp.h:701-706 | after such a read and a flush the peer knows the room, having done nothing but take the datagram |
| `KcpNotice.AskedIsTold` | test_uv_3/ikcp.h:1104-1107 | a question has the same effect, and nothing else that arrives has |
| `KcpNotice.TellsIff` | test_uv_3/ikcp.h:1243-1265 | a flush tells the window exactly if it is to, in the header of the last acknowledgement |
| `KcpLink.StaleUnaDropsIff` | test_uv_3/ikcp.h:864-878 | what goes wrong outside the half range: a stale cumulative acknowledgement drops unacknowledged segments if and only if the first of them is more than 2^31 ahead of it |
| `KcpLink.InputSndOk` | test_uv_3/ikcp.h:1052-1061 | any honest segment keeps the sending half in order, and drops only what the receiver holds |
| `KcpLink.InputPushOk` | test_uv_3/ikcp.h:1078-1103 | any honest data segment, however late or repeated, keeps the receiving half in order, and all that gets acknowledged is held |
| `KcpLink.AdmitOk` | test_uv_3/ikcp.h:1271-1293 | numbering takes a prefix of the queue, keeps the flight within the send window, and loses nothing |
| `KcpLink.MoveReadyOk` | test_uv_3/ikcp.h:686-699 | moving up keeps queue, reorder buffer and window sound, and leaves nothing in sequence behind while there is room |
| `KcpLink.RecvOk` | test_uv_3/ikcp.h:656-699 | a read takes a prefix of the queue and keeps the receiving half in order |
| `KcpSystem.FlushHonest` | test_uv_3/ikcp.h:1182-1361 | everything a flush emits tells the truth about what was numbered and what is held |
| `KcpSystem.StepKeepsPair` | test_uv_3/ikcp.h:1013-1153 | every step of either endpoint keeps the invariant of both directions |
| `KcpSystem.RunKeepsPair` | test_uv_3/ikcp.h:1013-1153 | in every run over a network that loses, repeats and reorders, the invariant of both directions holds |
| `KcpMessages.FirstMessage` | test_uv_3/ikcp.h:715-736 | a queue that starts with fragments of a message reports a message exactly when all of them are there, and it is that message |
| `KcpMessages.FragCountIsLeast` | test_uv_3/ikcp.h:779-782 | no fewer fragments would hold the data |
| `KcpMessages.RunKeepsApp` | test_uv_3/ikcp.h:742-809 | in every run what was accepted, numbered, received and read stay parts of one sequence, as messages and as bytes |
| `KcpTheorems.DeliveredInOrderOnce` | test_uv_3/ikcp.h:946-996 | in every reachable state, what was read plus what is queued is a prefix, in order and without repeats, of what the sender numbered |
| `KcpTheorems.NothingIsLost` | test_uv_3/ikcp.h:843-878 | in every reachable state a segment has left the send buffer only if the receiver holds it or has passed it on |
| `KcpTheorems.DrainedMeansDelivered` | test_uv_3/ikcp.h:864-878 | once the send buffer is empty and the receive queue has room, everything numbered has arrived |
| `KcpTheorems.WindowsHold` | test_uv_3/ikcp.h:832-841 | in every reachable state: buffers strictly ascending and inside their windows, the first unacknowledged number equal to the buffer's head, flight and queue within their limits |
| `KcpTheorems.MessagesArriveInOrder` | test_uv_3/ikcp.h:632-709 | in message mode the messages read are a prefix of the messages accepted |
| `KcpTheorems.BytesArriveInOrder` | test_uv_3/ikcp.h:632-709 | in either mode the bytes read are a prefix of the bytes handed over |
| `KcpTheorems.PeekPredictsRead` | test_uv_3/ikcp.h:684-684 | the size reported ahead of a read is the size of what the read returns |
| `KcpTheorems.ReadRefusedIff` | test_uv_3/ikcp.h:632-650 | when a read is refused and with which code, and that it then changes nothing |
| `KcpTheorems.FullQueueHasMessage` | test_uv_3/ikcp.h:1514-1524 | a full receive queue always holds a complete message |
| `KcpTheorems.FlushEmitsExactly` | test_uv_3/ikcp.h:1206-1361 | every datagram of a flush fits the mtu, and decoded in order they are the pending acknowledgements, then the probes, then the due segments |
| `KcpTheorems.RefusedSendUnchangedIff` | test_uv_3/ikcp.h:749-782 | a refused send changes nothing if and only if there was no room left in the last queued segment in stream mode |
| `KcpTheorems.RefusedSendGrows` | test_uv_3/ikcp.h:749-782 | such a send, for every stream-mode configuration: refused for its size, it has filled up the segment queued before |
| `KcpProgress.EverythingCanStillArrive` | test_uv_3/ikcp.h:1182-1385 | from every reachable state, even with all that is in flight lost, there is a continuation in which all that was sent is delivered; in message mode the messages read are then exactly those accepted; for every window that exceeds, modulo 2^16, what can be waiting unread |
| `KcpProgress.AllArrive` | test_uv_3/ikcp.h:1182-1385 | the continuation: every segment, numbered or queued, reaches the receive queue or the application |
| `KcpProgress.MissingArrives` | test_uv_3/ikcp.h:1309-1321 | a numbered segment that is missing is sent again when due and moves the receiver on |
| `KcpProgress.ResendIsAnswered` | test_uv_3/ikcp.h:1083-1084 | a segment sent again is acknowledged, which empties the flight and tells the sender what the peer announces |
| `KcpProgress.AskIsAnswered` | test_uv_3/ikcp.h:1220-1252 | a sender facing a closed window asks when its probe is due, and learns from the answer what the peer announces |
| `KcpProgress.QueuedIsNumbered` | test_uv_3/ikcp.h:1267-1293 | with nothing in flight and an open window a queued segment gets its number |
| `KcpStuck.LooksClosedIff` | test_uv_3/ikcp.h:1163-1176 | an endpoint with room looks closed to its peer if and only if that room is a multiple of 2^16 |
| `KcpStuck.ClosedStaysClosed` | test_uv_3/ikcp.h:1267-1293 | facing a window that looks closed, no action of the sender numbers a segment |
| `KcpStuck.StuckForGood` | test_uv_3/ikcp.h:1182-1385 | once all that is numbered has arrived, nothing can be read and the window looks closed, every continuation without new data stays there |
| `KcpStuck.Standstill` | test_uv_3/ikcp.h:1514-1524 | for every pair of configurations whose window is too small modulo 2^16 there is a run that reaches such a state, with the last segment of a message unsent |
| `KcpStuck.ArrivesIffOpen` | test_uv_3/ikcp.h:1163-1176 | between two configurations, all that is sent can still arrive from every state of every run, if and only if the receive window modulo 2^16 is at least 127 in message mode and at least 1 in stream mode |
| `Varint.RoundTrip` | src/xx/xx_bbuffer.go:51-71 | every 64-bit value reads back from any position, whatever follows, using exactly the bytes written |
| `ZigZagCode.Bijection` | test_uv_4/xx_bytesutils.hpp:4-28 | the shifts and exclusive ors of the signed mapping are one-to-one and onto, for words of 16, 32, 64 or any number of bits, in both directions |
| `ZigZagCode.EncodeMeans` | src/xx/xx_bbuffer.go:74-76 | the bits computed are twice the value, or twice its magnitude less one if it is negative |
| `ZigZagCode.DecodeMeans` | src/xx/xx_bbuffer.go:77-80 | and back: half the word, negated and less one if it is odd |
| `Varint.ZigZagRoundTrip` | src/xx/xx_bbuffer.go:165-170 | every 32-bit value survives the widening, the mapping as computed on 64 bits, and the truncation |
| `CppVarint.VarWrite7` | test_uv_4/xx_bytesutils.hpp:120-139 | the loop writes exactly the encoding into the buffer, at most nine bytes, and nothing else |
| `CppVarint.VarRead7` | test_uv_4/xx_bytesutils.hpp:141-172 | the loop computes the decoding, or reports missing data |
| `CppVarint.RoundTrip` | test_uv_4/xx_bytesutils.hpp:120-172 | every 64-bit value reads back from any position, whatever follows, using exactly the bytes written |
| `CppVarint.SameBytesIff` | test_uv_4/xx_bytesutils.hpp:120-139 | the two encodings of a value are the same bytes if and only if it is below 2^63; above, the Go one is the nine bytes of the other and a one |
| `CppVarint.CppReadsGo` | test_uv_4/xx_bytesutils.hpp:141-172 | the C++ reader gets every value the Go writer wrote, but leaves the last byte of those from 2^63 on |
| `CppVarint.GoReadsCppIff` | src/xx/xx_bbuffer.go:58-71 | the Go reader takes what the C++ writer wrote, and no more, if and only if the value is below 2^63 |
| `GraphTheorems.GraphReadsBack` | src/xx/xx_bbuffer.go:419-476 | for every graph with any sharing and cycles, written at any place and followed by any bytes: reading succeeds if and only if no reached list is over the length limit, uses exactly the bytes written, and makes an isomorphic graph |
| `GraphTheorems.WrittenIsReached` | src/xx/xx_bbuffer.go:437-452 | the objects the writer meets are exactly those the root reaches |
| `GraphTheorems.SelfParentBytes` | src/bak/sim_pkg_gen.go:53-61 | the bytes, type numbers and offsets of an object that is its own parent |
| `GraphRoundTrip.RoundRef` | src/xx/xx_bbuffer.go:437-476 | a reference written in any state of the tables reads back in the matching state: a new object exactly where the writer first met it, a back reference everywhere else |
| `GraphRoundTrip.RoundName` | src/xx/xx_bbuffer.go:256-280 | a nullable string, first met or met before, reads back with its sharing |
| `GraphRoundTrip.RoundFoo` | src/bak/sim_pkg_gen.go:56-67 | the fields of an object read back in order, names and references included |
| `GraphRoundTrip.RoundRefs` | src/bak/sim_pkg_gen.go:249-267 | the elements of an object list read back in order |
| `GraphRoundTrip.RoundBody` | src/bak/sim_pkg_gen.go:113-131 | the content of every object type reads back, or the limit refuses it |
| `BBuffer.Buffer.WriteVarUInt64` | src/xx/xx_bbuffer.go:51-57 | the loop appends exactly the encoding |
| `BBuffer.Buffer.ReadVarUInt64` | src/xx/xx_bbuffer.go:58-71 | the loop computes the decoding, truncated to 64 bits, or panics |
| `BBuffer.Buffer.WriteIObject` | src/xx/xx_bbuffer.go:437-452 | buffer and pointer table equal the model of writing, for every heap |
| `BBuffer.Buffer.WriteNullableString` | src/xx/xx_bbuffer.go:256-268 | likewise for a string, interned by its text |
| `BBuffer.Buffer.ToBBuffer` | src/bak/sim_pkg_gen.go:56-61 | likewise for the content of every object type |
| `BBuffer.Buffer.WriteElements` | src/bak/sim_pkg_gen.go:249-254 | the loop over a list of objects |
| `BBuffer.Buffer.WriteRoot` | src/xx/xx_bbuffer.go:429-432 | a root goes to the end of whatever the buffer holds, with offsets counted from there |
| `BBuffer.Buffer.ReadIObject` | src/xx/xx_bbuffer.go:454-476 | value, position, table and created objects equal the model of reading, or both panic |
| `BBuffer.Buffer.ReadNullableString` | src/xx/xx_bbuffer.go:269-280 | likewise for a string |
| `BBuffer.Buffer.ReadText` | src/xx/xx_nullables.go:61-65 | likewise for the bytes of a string |
| `BBuffer.Buffer.ReadElements` | src/bak/sim_pkg_gen.go:255-267 | the loop over a list of objects |
| `BBuffer.Buffer.FromBBuffer` | src/bak/sim_pkg_gen.go:62-67 | likewise for the content of every object type |
| `BBuffer.Buffer.ReadRoot` | src/xx/xx_bbuffer.go:433-436 | likewise for a root |
| `Dict.Dict.constructor` | test_uv_4/xx_dict.hpp:5-16 | an empty dictionary with sound arrays |
| `Dict.Dict.Find` | test_uv_4/xx_dict.hpp:144-156 | the slot that holds the key, or -1 exactly if none does |
| `Dict.Dict.Add` | test_uv_4/xx_dict.hpp:29-85 | a new key takes the next slot, the first free one or the first never used; a key there is overwritten or refused, and nothing else changes; every live slot stays on exactly one chain |
| `Dict.Dict.TakeSlot` | test_uv_4/xx_dict.hpp:49-66 | the slot handed out is the head of the free list, or a new one after growing |
| `Dict.Dict.Grow` | test_uv_4/xx_dict.hpp:89-141 | growing keeps every row in its slot, with all chains rebuilt |
| `Dict.Dict.RemoveAt` | test_uv_4/xx_dict.hpp:159-183 | the row goes, its slot becomes the next to be reused, and the chains and the free list stay sound |
| `Dict.Dict.Remove` | test_uv_4/xx_dict.hpp:224-232 | the row with the key goes, if there is one |
| `Dict.Dict.TryGetValue` | test_uv_4/xx_dict.hpp:264-273 | the value stored under the key, exactly if it is there |
| `Dict.Dict.Clear` | test_uv_4/xx_dict.hpp:187-201 | no rows, no free slots, sound arrays |
| `Dict.Dict.UpdateAt` | test_uv_4/xx_dict.hpp:327-388 | the new key is refused if and only if another row has it in another bucket; the keys stay unique if and only if no other row has it in the same bucket; the rest is unchanged |
| `DictTheorems.DictIsAMap` | test_uv_4/xx_dict.hpp:27-201 | after every run of adds, overrides, removals, clears, growth and renamings to unused keys the dictionary holds exactly what a finite map would, and its free slots are exactly the dead ones |
| `DictTheorems.RenameDoubles` | test_uv_4/xx_dict.hpp:335-349 | two rows in one bucket: renaming the one to the key of the other succeeds, and the key is there twice |
| `DictEx.RollbackAligned` | test_uv_4/xx_dictex.h:113-132 | adding and taking back leaves the slots to come unchanged, although a slot never used is now a free one |
| `DictEx.UndoneInStep` | test_uv_4/xx_dictex.h:113-132 | after an undo all dictionaries are in step, whether they had accepted the row or never saw it |
| `DictEx.DictEx.constructor` | test_uv_4/xx_dictex.h:71-75 | empty dictionaries, in step |
| `DictEx.DictEx.Add` | test_uv_4/xx_dictex.h:94-132 | the row is stored under all its keys in one slot, or, exactly if one of them is taken, nothing is; rows, free lists and counts of all dictionaries equal the model of the runs below; the dictionaries stay in step |
| `DictEx.DictEx.AddOthers` | test_uv_4/xx_dictex.h:113-132 | the other dictionaries take the row in turn, and if one refuses, exactly those that had taken it give it back |
| `DictEx.DictEx.RemoveAt` | test_uv_4/xx_dictex.h:151-154 | the row goes from every dictionary and they stay in step |
| `DictEx.DictEx.Remove` | test_uv_4/xx_dictex.h:142-148 | the whole row goes, whichever key names it |
| `DictEx.DictEx.Find` | test_uv_4/xx_dictex.h:136-139 | the slot of the row with that key, exactly if there is one |
| `DictEx.DictEx.TryGetValue` | test_uv_4/xx_dictex.h:84-91 | the value of the row with that key, exactly if there is one |
| `DictExTheorems.RowsStayTogether` | test_uv_4/xx_dictex.h:83-148 | after every run of adds, refused at whichever key, and removals by whichever key, the dictionaries are in step and hold exactly the rows a plain set of rows would |
| `DictExTheorems.FoundThroughAnyKey` | test_uv_4/xx_dictex.h:83-91 | in every such state the slot found through any key leads to the value of the row added with that key |
| `RbHeap.Head.constructor` | libuv/include/uv/tree.h:303-308 | an empty tree is sound |
| `RbHeap.Head.Insert` | libuv/include/uv/tree.h:598-626 | search order, parent links, no red node under a red one and equal black height on every path are kept; the keys in order are the old ones and the new one; a key there changes nothing |
| `RbHeap.Head.Descend` | libuv/include/uv/tree.h:603-614 | the walk ends at the key or at the empty place where it belongs in the order |
| `RbHeap.Head.InsertColor` | libuv/include/uv/tree.h:407-449 | from any place where only a red parent is wrong, the repair ends with a sound tree, all links right and the same keys in order |
| `RbHeap.Head.InsertTurn` | libuv/include/uv/tree.h:411-447 | one turn: the trouble moves up two levels or is over, with the same keys in order |
| `RbHeap.Head.Rotate` | libuv/include/uv/tree.h:342-380 | the pointer writes of either rotation leave the rotated tree, with the parent links of all nodes around it |
| `RbHeap.Head.Remove` | libuv/include/uv/tree.h:530-595 | soundness is kept as for insertion, and the keys in order are the old ones without the removed one |
| `RbHeap.Head.TakeSuccessor` | libuv/include/uv/tree.h:540-578 | the leftmost node of the right subtree takes the place of the removed one, with the order of all other keys |
| `RbHeap.Head.FindSuccessor` | libuv/include/uv/tree.h:541-543 | the walk ends at the leftmost node of the right subtree |
| `RbHeap.Head.SpliceOut` | libuv/include/uv/tree.h:544-556 | a node with one child or none goes and its child hangs in its place, links in both directions included |
| `RbHeap.Head.Replace` | libuv/include/uv/tree.h:559-571 | a node takes over the links of another in both directions |
| `RbHeap.Head.RemoveColor` | libuv/include/uv/tree.h:451-528 | from any place that is one black short, the repair ends with a sound tree, all links right and the same keys in order |
| `RbHeap.Head.RemoveTurn` | libuv/include/uv/tree.h:456-525 | one turn: the shortage moves up or is made up, with the same keys in order |
| `RbTree.HeightIsLogarithmic` | libuv/include/uv/tree.h:61-61 | every tree that is sound in this sense is at most 2 lg (n + 1) high |
| `RbTree.RotateOk` | libuv/include/uv/tree.h:422-430 | with a black uncle one or two rotations and two colours restore balance |
| `RbTree.LowerParentOk` | libuv/include/uv/tree.h:460-464 | a red sibling is turned above the parent: the same black heights and keys, and the new sibling is black |
| `RbTree.DeepenOk` | libuv/include/uv/tree.h:465-471 | a sibling with black children turns red and the shortage moves to the parent |
| `RbTree.BorrowOk` | libuv/include/uv/tree.h:472-490 | a sibling with a red child makes up the shortage, at the colour the parent had |
| `SplayHeap.Head.constructor` | libuv/include/uv/tree.h:69-74 | an empty tree is sound |
| `SplayHeap.Head.Splay` | libuv/include/uv/tree.h:209-242 | for every non-empty tree the loop ends with the same keys in order and touches no node outside it; in a search tree the root is the key sought or one of its neighbours; and what hung below the place where the search ended is at most half as far from the root as before, and one |
| `SplayHeap.Head.Turn` | libuv/include/uv/tree.h:217-239 | one turn of the loop, to either side: the three parts stay apart, hold the same keys in order, and the search goes down one step, or two if the key is beyond the child |
| `SplayHeap.Head.Rotate` | libuv/include/uv/tree.h:88-98 | the writes of either rotation leave the turned tree, with the same keys in order, beside the two spines |
| `SplayHeap.Head.LinkRoot` | libuv/include/uv/tree.h:100-110 | the writes hang the root at the end of one of the two spines and leave its child as the part still to go, with all keys in order |
| `SplayHeap.Head.Reassemble` | libuv/include/uv/tree.h:112-117 | the four writes make one tree of the three parts, with the same keys in order |
| `SplayHeap.Head.Find` | libuv/include/uv/tree.h:128-137 | found if and only if the key is there, which is then the root |
| `SplayHeap.Head.Insert` | libuv/include/uv/tree.h:164-186 | exact insertion into the set of keys, in order; the key is then the root |
| `SplayHeap.Head.Remove` | libuv/include/uv/tree.h:188-207 | exact removal from the set of keys, in order |
| `SplayTree.StopIsNearest` | libuv/include/uv/tree.h:218-240 | where the descent stops, no key lies between the one sought and the root |
| `HttpTheorems.CutsDoNotMatter` | test_uv_4/http_parser.c:1842-2045 | however the stream is cut into calls the parser ends in the same state; the callbacks see the same events and body bytes if and only if no piece holds data of a broken chunk together with the byte that breaks it |
| `HttpTheorems.UnbrokenStreamIsCutFree` | test_uv_4/http_parser.c:1842-2045 | a stream without a broken chunk does not feel the cuts |
| `HttpTheorems.BrokenChunkDependsOnCut` | test_uv_4/http_parser.c:1976-2005 | a chunk that runs past its size: in one call its bytes are never reported, in two they are |
| `HttpTheorems.SizeIsExact` | test_uv_4/http_parser.c:1894-1945 | the digits of a chunk size are taken at their exact value, or refused, and refused if and only if the value is 2^64 - 16 or more |
| `HttpTheorems.RefusedInSize` | test_uv_4/http_parser.c:222-231 | what the first byte of a size may not be: exactly the bytes below 128 that are no hexadecimal digit; from 128 on a byte passes for a zero |
| `HttpTheorems.ChunkedBodyDecodes` | test_uv_4/http_parser.c:1894-2014 | every well-formed chunked body, with any spelling of the sizes and any extensions, is reported chunk by chunk, byte for byte, and completes the message (section 4.1 of RFC 7230) |
| `HttpTheorems.IdentityBodyDecodes` | test_uv_4/http_parser.c:1842-1892 | a body of announced length is exactly the next bytes, and completes the message, on a connection kept or closed; of what follows nothing is reported |
| `HttpGrammar.CompletesIff` | test_uv_4/http_parser.c:1894-2014 | a chunked body is completed if and only if the stream starts with well-formed chunks, a last chunk and an empty line, for which a bare line feed passes |
| `HttpGrammar.BodyReported` | test_uv_4/http_parser.c:1894-2014 | every such stream is reported chunk by chunk, byte for byte, and nothing of what follows it |
| `HttpGrammar.BreaksAtIff` | test_uv_4/http_parser.c:1976-2005 | the parser breaks off at a byte if and only if the stream up to it is whole chunks and the data of one more, and the byte is not CR |
| `HttpGrammar.CutsFeltIff` | test_uv_4/http_parser.c:1976-2005 | the cuts of a chunked body are not felt if and only if, whenever the stream holds a chunk whose data is not followed by CR, a piece begins right after that data |
| `HttpMessages.BodyFollowsIff` | test_uv_4/http_parser.c:1726-1840 | which kind of body follows the headers, or none, each exactly under its condition on the headers, the length and the answer of the callback |
| `HttpMessages.HeadersRefused` | test_uv_4/http_parser.c:1726-1793 | a clash of lengths, an unknown answer, a wrong byte or too long headers are errors |
| `HttpMessages.FollowsStandardIff` | test_uv_4/http_parser.c:1795-1840 | the choice is that of section 4.4 of RFC 2616 if and only if the message is not a response of status 1xx, 204 or 304 that announces a body |
| `HttpMessages.NoContentWithLength` | test_uv_4/http_parser.c:1818-1826 | such a response: 204 with a length of five |
| `HttpMessages.CountedMessage` | test_uv_4/http_parser.c:1726-1892 | from the end of the headers on, a message of announced length is reported whole |
| `HttpMessages.ChunkedMessageIff` | test_uv_4/http_parser.c:1726-2014 | from the end of the headers on, a chunked message is complete if and only if a chunked body follows, and is then reported whole |
| `HttpMessages.CloseCompletes` | test_uv_4/http_parser.c:651-675 | a body read until the connection closes is reported whole, and the end of the stream completes the message |
| `HttpMessages.CountedCutShort` | test_uv_4/http_parser.c:651-675 | the end of the stream is an error if and only if the body is shorter than announced |
| `HttpMessages.ChunkedCutShort` | test_uv_4/http_parser.c:651-675 | the end of the stream anywhere before the last byte of a chunked body is an error |
| `HttpMessages.AfterCounted` | test_uv_4/http_parser.c:2081-2096 | after a message of announced length the parser is ready for the next if and only if the connection persists (section 8.1 of RFC 2616), and closed otherwise |
| `HttpMessages.AfterChunked` | test_uv_4/http_parser.c:2081-2096 | likewise after a chunked message |
| `HttpMessages.AfterEmpty` | test_uv_4/http_parser.c:1795-1840 | likewise after one without a body, empty, skipped or handed over; without a length that is not ended by the close |
| `HttpMessages.NextAfterCounted` | test_uv_4/http_parser.c:1885-1892 | how much a call takes of a whole message and the bytes after it: these are left to the next message or protocol, or refused but for line ends |
| `HttpMessages.NextAfterChunked` | test_uv_4/http_parser.c:1885-1892 | likewise for a chunked message |
| `HttpMessages.NextAfterEmpty` | test_uv_4/http_parser.c:1795-1840 | likewise for one without a body |
| `HttpMessages.ClosedTakes` | test_uv_4/http_parser.c:712-722 | on a closed connection line ends are passed over and anything else is refused |
| `HttpMessages.TrailerBeginsIff` | test_uv_4/http_parser.c:1178-1203 | after the last chunk a trailer begins with a byte of a field name, and any other is an error |
| `HttpParser.Engine.Execute` | test_uv_4/http_parser.c:634-2053 | one call on any piece: state, events and the count returned equal the byte-by-byte model, with the body told in runs |
| `HttpParser.Engine.TakeBody` | test_uv_4/http_parser.c:1842-1883 | a run of body bytes, to the end of the piece or of the length, with the mark set |
| `HttpParser.Engine.TakeChunkEnd` | test_uv_4/http_parser.c:1999-2005 | the byte after a chunk's data closes the run, or breaks the call |
| `HttpParser.Engine.Flush` | test_uv_4/http_parser.c:2033-2045 | the run left over at the end of a piece is reported |
| `HttpParser.Engine.OneByte` | test_uv_4/http_parser.c:1894-2014 | every other transition of one byte |
| `MemPool.WeakTracksObject` | test_uv_4/xx_mempool.hpp:1341-1359 | in every run a weak pointer taken of an object in use tests true afterwards if and only if the object was not released on the way, however often its block was reused |
| `MemPool.TestIffLive` | test_uv_4/xx_mempool.hpp:1341-1359 | in every sound state the test is true exactly for the stamp of the object living there |
| `MemPool.NextInv` | test_uv_4/xx_mempool.hpp:42-93 | every step keeps the meaning of all first words: live blocks distinct and in no free list, free lists exactly the idle blocks, each block as large as its class |
| `MemPool.AllocInv` | test_uv_4/xx_mempool.hpp:42-62 | the block handed out was nobody's and is large enough |
| `MemPool.ReusesIdle` | test_uv_4/xx_mempool.hpp:51-55 | memory is asked for only when no block of the class is idle |
| `MemPool.LastIsFirst` | test_uv_4/xx_mempool.hpp:64-74 | the block given back last is the first to be handed out again in its class |
| `MemPool.ClassIsSmallest` | test_uv_4/xx_mempool.hpp:48-49 | the class is the smallest power of two that holds the size |
| `MemPool.Heap.Alloc` | test_uv_4/xx_mempool.hpp:42-62 | the pool after an allocation equals the model; the block is live with a new version |
| `MemPool.Heap.Free` | test_uv_4/xx_mempool.hpp:64-74 | the block becomes the head of its class's free list; null is ignored |
| `MemPool.Heap.Realloc` | test_uv_4/xx_mempool.hpp:76-93 | a block stays if and only if its class has room; otherwise it moves and the old one is free; size zero frees |
| `MemPool.Heap.Release` | test_uv_4/xx_mempool.hpp:199-207 | up to the destructor: the stamp is cleared, so weak pointers test false; a second release inside the destructor does nothing |
| `MemPool.Heap.EndRelease` | test_uv_4/xx_mempool.hpp:208-210 | after the destructor the block is free |
| `Framing.TcpPeer.Unpack` | test_uv_3/xx_uv.h:366-380 | payloads handed over, bytes kept and code equal the model of the scan, for every input and handler |
| `Framing.TcpPeer.Read` | test_uv_3/xx_uv.h:352-361 | a negative code closes the connection |
| `Framing.SendReqAndData` | test_uv_3/xx_uv.h:398-408 | the bytes sent are the length, least significant byte first, and the payload; nothing else in the buffer changes |
| `Framing.CutDoesNotMatter` | test_uv_3/xx_uv.h:366-380 | however the stream is cut, the same payloads are handed over in the same order and the same bytes are kept, unless the scan comes upon a positive answer |
| `Framing.CutMattersIff` | test_uv_3/xx_uv.h:366-380 | for any bytes: every cut hands over the same payloads if and only if no positive answer stops the scan before the end of the stream |
| `Framing.FramedCutMattersIff` | test_uv_3/xx_uv.h:366-380 | for framed payloads and the start of another: if and only if the first payload not answered with zero is not answered positively before the end of the stream |
| `Framing.PayloadsArrive` | test_uv_3/xx_uv.h:366-408 | for any payloads and any cutting of their frames, exactly those payloads arrive in order, and exactly the unfinished frame is kept |
| `Framing.PositiveAnswerRepeats` | test_uv_3/xx_uv.h:375-378 | a positive answer keeps all bytes: with every later read all payloads up to the one so answered are handed over again, and none after it ever is |
| `Coroutine.StepKeeps` | src/xx/xx_coroutine.go:16-66 | every hand-over keeps the indices, the turn, and the order of the frame |
| `Coroutine.OneAtATime` | src/xx/xx_coroutine.go:32-66 | in every run no two coroutines run at once, and each knows its index |
| `Coroutine.FrameWakesEachOnce` | src/xx/xx_coroutine.go:32-44 | when a frame ends it has woken exactly those present when it began, each once, from last to first, whoever finished or was added on the way |
| `Coroutine.BegunCanBeWoken` | src/xx/xx_coroutine.go:46-66 | in every run each coroutine in the list that has begun is running or can be woken |
| `Coroutine.NextHandOver` | src/xx/xx_coroutine.go:32-44 | in every sound state in which all those listed have begun the next hand-over is possible |
| `Coroutine.FrameCanEnd` | src/xx/xx_coroutine.go:32-44 | from any point of a frame it can be brought to its end, whatever the coroutines still to be woken answer |
| `Coroutine.FrameCanRun` | src/xx/xx_coroutine.go:32-44 | a new frame can be begun and brought to its end, waking all |
| `Coroutine.YieldedIsWoken` | src/xx/xx_coroutine.go:56-61 | a coroutine that yielded is woken by the next frame |
| `Coroutine.EndedIsNotWoken` | src/xx/xx_coroutine.go:63-66 | one that ended is woken by no later frame |
| `Coroutine.Scheduler.New` | src/xx/xx_coroutine.go:16-20 | the new coroutine is last and knows its index |
| `Coroutine.Scheduler.Delete` | src/xx/xx_coroutine.go:22-30 | the last one moves into the hole, exactly the deleted one is gone, and all indices are right |

## Left out

- Transport settings: mtu, windows, timers and mode are fixed during a run, and every sequence number stays below 2^31 less a window.
- KcpLink.StaleUnaDropsIff: no run of 2^31 segments is built; the lemma is about one acknowledgement on any flight.
- Kcp.ControlBlock.Input: a declared payload length of 2^31 or more is refused, where the cast to a signed number in the length check lets it pass.
- Transport arithmetic: the round-trip estimate is unbounded where C would overflow, the probe bits are two booleans, and the clamp of the congestion window that can never apply is left away.
- Transport memory: null buffers, allocation failure, logging, the growth of the acknowledgement array and the fields nobody reads.
- Transport queues are sequences in fields of the class, and windows, estimates and clocks are one record field; the linked-list cells are not modelled.
- The second copy of the transport (`test_uv_4/ikcp.cpp`), whose header size does not match what it writes.
- Serializer: floats, the other nullable integers, `TryReadRoot`, an object embedded in another and referred to by its own address, and the partly filled objects a panic leaves; strings are interned by their text.
- BBuffer.Buffer.FromBBuffer: the fields of an object are filled at once after all are read.
- BBuffer.Buffer.ReadText: a length beyond the buffer panics, where Go lets a slice extend to the buffer's capacity.
- Dictionaries: the arrays are sequences in fields, `GetPrime` is any function that answers more than half its argument, destructors are not run, and `Reserve` with an explicit capacity is not modelled.
- Multi-key dictionary: all keys have one type, and `Update` of a single key and `Clear`, which does not compile as written, are not modelled.
- RbHeap.Head.Insert: a node is named by its key and the nodes are a map in a field, so two nodes with one key are not told apart; a removed node leaves the map; `RB_AUGMENT`, search, minimum and iteration are left out.
- SplayHeap.Head.Splay: nodes are named by their keys as above; `SPLAY_NEXT` and `SPLAY_MINMAX` are left out.
- HttpParser.Engine.Execute: starts at the end of the headers and stops at the first byte of a trailer field or of the next message; callbacks succeed (but for the answer of `on_headers_complete`), do not pause and do not change the parser.
- HTTP request lines, header fields and URLs: large tables with little to prove.
- MemPool.Heap.Realloc: the bytes copied are not modelled; malloc always succeeds and returns fresh addresses with a zero top byte, fewer than 2^56 blocks are ever allocated, and words are 64 bits.
- Reference-counted and unique pointers, and releasing an object a second time after its destructor, which is a misuse the code catches only if the free list was empty.
- Framing.TcpPeer.Unpack: the handler is a function of the payload and does not touch the connection.
- Coroutine.OneAtATime: what a coroutine does before `Begin` and after its last hand-over is outside the protocol, `Run`'s clock is left out, and `New` is called by whoever has the turn.
- The hash set, queues, lists, strings and random numbers; the Go connection and its calls; sockets, timers, name lookup and the code generator.
