# KCP file transfer: a Dafny model and its proofs

The repository moves files between two machines over UDP. At the bottom is KCP
(`kcp-2.1.1/ikcp.c`), a reliable-delivery protocol with selective and cumulative acknowledgements,
sliding windows over 32-bit serial numbers, timers, fragmentation, datagram packing and congestion
control. On top of it sit length-prefixed frames (`src/net/transport.cpp`), a handshake and chunk
transfer (`src/net/session.cpp`, `src/core/chunker.cpp`, `src/core/manifest.cpp`), a CRC-32
(`src/core/hasher.cpp`) and a thread pool. This project models those parts and proves what they
promise. `dafny verify dfyconfig.toml` checks all of it.

## How the model is laid out

| module | models |
|---|---|
| `Serial` | 32-bit wrap-around and the signed difference `_itimediff` |
| `Wire` | the 24-byte segment header, the decode loop, the packing of segments into datagrams |
| `Control` | the control block and every operation on it, as functions; `Config.wrap` selects 32-bit or unbounded serial numbers |
| `Structure` | the structural invariant of one control block under any calls and any bytes |
| `Acking`, `Reading`, `Flushing` | what the acknowledgement walks, a read, an incoming datagram and a flush achieve, stated without the walks and without the assembling code |
| `System`, `Protocol` | two endpoints and a network that loses, duplicates, delays and reorders; the invariant over both ends and everything in flight |
| `Recovery`, `Delivery` | from every reachable state everything accepted can still be delivered, with unbounded and with 32-bit numbers |
| `Refinement` | endpoints with 32-bit numbers exchanging raw bytes simulate the unbounded ones |
| `Endpoint` | class `Kcp`: the loops of `ikcp.c` with its counters, its growable acknowledgement array and its staging buffer, each method proved equal to the function in `Control` |
| `Settings` | the calls that configure a connection, and the transport's own settings |
| `Congestion`, `Timing` | the congestion controller; the round-trip estimator and flush scheduling |
| `Resending`, `Probing` | retransmission timers in every reachable state; zero-window probing from the due probe to the learnt window |
| `Staleness` | two reachable runs in which a very old datagram does harm |
| `Connection`, `Streaming` | two `Kcp` objects joined by the bytes they output; `sendChunk` and the frame reader on them |
| `Session` | a whole transfer: chunk messages over four connections into the transfer machine |
| `Transport` | frames over stream-mode KCP, writer and reader |
| `Crc` | the table loop against the bit-by-bit register of section 8 of RFC 1952 |
| `Manifest`, `Transfer`, `Checked`, `Pool` | the bitfield; slicing and the transfer as interleaved worker steps; what the checksum test guarantees by itself; permit accounting |

The chain of the main result: `Endpoint.Kcp` computes the functions of `Control` with `wrap` on;
`Refinement` shows that a run of those over real bytes is, number for number modulo 2^32, a run of
the unbounded endpoints; `Protocol` proves safety of every unbounded run; `Connection` closes the chain
on two objects that exchange their output, `Transport` and `Streaming` carry it up to whole payloads, and
`Session` to the file: a transfer that reports completion has delivered it. `Recovery` and `Delivery` add the
other half: no reachable state is a dead end, everything accepted can still be delivered.

## Where the code falls short of what one would expect

Each of these is a lemma, with the exact condition under which the code does meet the expectation.

- A very old datagram is misread as new. `Refinement.AgreesUnlessStale`, `Refinement.WindowEndAgreesIff`
  and `Refinement.InFlightAgreesIff` say exactly when, for the cumulative acknowledgement, the data
  segment and the ACK. `Staleness.LosesData` and `Staleness.DeliversTwice` are runs of real endpoints, from
  their creation, in which data is lost (the first acknowledgement arrives again after 2^31 + 2 messages)
  and delivered twice (the first data segment arrives again after 2^32). The refinement therefore assumes of
  a run only that nothing arrives half the number circle late (`Refinement.FreshRun`), which
  `Refinement.ShortRunIsFresh` shows of every run in which neither side has numbered 2^31 segments less the
  other's receive window, whatever the network does.
- A window is told modulo 65536. A receiver whose free space is a multiple of 65536 closes its peer's window:
  a full one, but also an empty one whose receive window is 65536 (`Probing.ClosedIff`).
- With `nodelay` 0 the doubling back-off overflows: 16 transmissions of a segment are always safe, the 17th
  can get a deadline that has passed, although the dead-link count is 20 (`Resending.DoublingSafeIff`;
  `Resending.AheadIff` for every mode, `Timing.TimeoutDeadline` for one timeout).
- The completion counter of the receiver also counts repeated chunks. `Transfer.TrustworthyIff` gives
  the exact condition on the deliveries under which completion means a whole file, and
  `Transfer.RepeatCompletesEarly` and `Checked.RepeatLeavesGap` failing runs.
- A handshake repeated before the file is mapped is acknowledged at once, without a test of the PIN. A chunk
  that a worker takes up before the mapping is dropped (`Transfer.DroppedIff`, with a run in
  `Transfer.EarlyAnswerDrops`). A transfer in which every delivery of some chunk is dropped can complete if
  and only if the other chunks are delivered as often as chunks are expected
  (`Transfer.DroppedCompletesIff`), so never if none is delivered twice
  (`Transfer.DroppedNeverCompletes`). Before the manifest is filled in, the answer carries no bits at all
  (`Transfer.HollowAnswerOverruns`).
- A transfer can complete if and only if the file is not empty (`Transfer.CompletableIff`).
- A frame of 2^31 bytes or more is not written whole (`Transport.WholeFrameIff`), and one of 2^32 bytes or
  more does not always read back (`Transport.FrameReadsBackIff`). More than 2^32 - 1 slices are cut short
  (`Transfer.WholeFileIff`). An acknowledgement whose bitfield is shorter than its count makes the decoder
  read past the end (`Manifest.DecodeAck`, outcome `Overrun`).

## Model

| member | source | states |
|---|---|---|
| `Serial.WrappedDiff` | kcp-2.1.1/ikcp.c:136-139 | `_itimediff` of two wrapped numbers is their true difference if and only if they are less than half the circle apart |
| `Wire.ParseOfEncode` | kcp-2.1.1/ikcp.c:796-821 | decoding an encoded datagram yields exactly its segments and status 0 |
| `Wire.WireFormat` | kcp-2.1.1/ikcp.c:949-960 | the 24 header bytes hold the fields at their offsets, every number least significant byte first, and the data follows |
| `Wire.EncodeOfParse` | kcp-2.1.1/ikcp.c:796-904 | for any bytes, what the decode loop yields re-encodes to the bytes it went through; status 0 exactly when fewer than 24 bytes remain |
| `Wire.PackIsFaithful` | kcp-2.1.1/ikcp.c:1012-1068 | packing loses, repeats and reorders no segment, and every datagram has 1 to `mtu` bytes |
| `Wire.PackIsGreedy` | kcp-2.1.1/ikcp.c:1012-1068 | a datagram is closed only when the next segment does not fit it |
| `Wire.ParseEachOfEncode` | kcp-2.1.1/ikcp.c:796-904 | decoding a list of encoded datagrams yields their segments in order |
| `Structure.AnyCallsKeep` | kcp-2.1.1/ikcp.c:364-943 | after any sequence of send, recv, input, flush and update calls with any bytes: `rcv_buf` strictly increasing inside the receive window, `rcv_queue` at most `rcv_wnd` long and drained, `snd_buf` strictly increasing between `snd_una` and `snd_nxt`, `snd_una` its head, at most `snd_wnd` in flight, fragments within `mss`, `rx_rto` within its bounds |
| `Structure.InputBytesKeeps` | kcp-2.1.1/ikcp.c:780-943 | for any byte string and every return path: the invariant holds, `snd_una` only moves forward and at most to `snd_nxt`, `ackedlen` is the total length of the segments removed |
| `Structure.InputSndKeeps` | kcp-2.1.1/ikcp.c:823-832 | the sender side of one incoming segment keeps order, head and window, and accounts for removed bytes |
| `Structure.InputRcvKeeps` | kcp-2.1.1/ikcp.c:862-880 | the receiver side of one incoming segment keeps `rcv_buf` sorted and in the window and leaves no deliverable segment behind unless the queue is full |
| `Structure.InsertSorted` | kcp-2.1.1/ikcp.c:726-744 | backward insertion keeps the buffer strictly sorted and free of repeats |
| `Structure.WindowTests` | kcp-2.1.1/ikcp.c:720-721 | the two signed comparisons accept exactly the numbers inside the receive window |
| `Structure.ParseUnaDrops` | kcp-2.1.1/ikcp.c:619-638 | a cumulative acknowledgement removes exactly the leading segments before it and counts their bytes |
| `Structure.AdmitKeeps` | kcp-2.1.1/ikcp.c:1072-1098 | admission takes from the front of the queue in order, keeps the invariant, and stops only at the window or an empty queue |
| `Structure.FlushKeeps` | kcp-2.1.1/ikcp.c:974-1230 | a flush keeps the structural invariant |
| `Structure.FlushRoundTrip` | kcp-2.1.1/ikcp.c:1003-1195 | every datagram of a flush has 1 to `mtu` bytes, none could have taken the next one's first segment, and decoding them yields the pending acks in order, the probes asked for, then the due data segments |
| `Flushing.FlushSaysAgenda` | kcp-2.1.1/ikcp.c:1003-1195 | decoding the bytes of a flush yields its agenda: the pending acks in order, WASK if asked for or the probe time has come, WINS if asked for, then exactly the due segments in buffer order with the number and fragment they always had |
| `Flushing.SentIffDue` | kcp-2.1.1/ikcp.c:1120-1151 | a segment is sent if and only if it was never sent, has timed out, or was skipped often enough within the limit; its number and fragment never change |
| `Flushing.FlushNumbers` | kcp-2.1.1/ikcp.c:1072-1098 | a flush numbers the front of the queue in order, none beyond the send window, the peer's window and, unless it is off, the congestion window, and leaves none behind while there is room |
| `Flushing.FlushResends` | kcp-2.1.1/ikcp.c:1112-1189 | of the buffered segments exactly the due ones are stamped, counted and given a new deadline: the estimate plus an eighth or nothing at first, a backed-off timeout after a timeout, the old timeout and no skips after a fast retransmission; the link is dead if and only if it was or one of them reached the dead-link count |
| `Acking.AckRemovesExactly` | kcp-2.1.1/ikcp.c:587-617 | for any number, an ACK removes the segment it names, wherever it stands, and no other |
| `Acking.CountsSkipped` | kcp-2.1.1/ikcp.c:647-661 | fast-ack counting touches exactly the segments numbered before the acknowledged one and sent no later |
| `Acking.AcksFree` | kcp-2.1.1/ikcp.c:823-832 | one incoming segment frees the leading segments before its `una` and, if an ACK, the one it names, and no other; the oldest left becomes `snd_una` |
| `Reading.PushIsAnswered` | kcp-2.1.1/ikcp.c:862-880 | a data segment before the window's end, repeated or not, is acknowledged once with its own number and stamp; inside the window it joins the buffer unless its number is there, and what is next in line moves to the queue as far as there is room; nothing else changes |
| `Reading.NewestAckCounts` | kcp-2.1.1/ikcp.c:838-908 | for any bytes: after a complete pass the newest ACK of the datagram, the last to overtake the one before in number and stamp, counts one skip for each earlier segment still unacknowledged; otherwise none is counted |
| `Reading.InputReturns` | kcp-2.1.1/ikcp.c:780-904 | for any bytes, the return value says why decoding stopped where it did: -1 for too few bytes or another conversation, -2 for a bad length, -3 for an unknown command, 0 at the end |
| `Reading.ReadReturns` | kcp-2.1.1/ikcp.c:364-441 | a read returns -1 for an empty queue, -2 for an incomplete message, -3 for a buffer too small, each without effect, and otherwise the length of the first message, hands out its bytes and removes it unless peeking |
| `Reading.PeekChangesNothing` | kcp-2.1.1/ikcp.c:364-441 | a peek leaves the whole control block as it was |
| `Reading.ReadReports` | kcp-2.1.1/ikcp.c:381-438 | a read raises the request for a window report if and only if it succeeds on a full queue and leaves room |
| `Structure.FlushEmitted` | kcp-2.1.1/ikcp.c:962-1189 | every emitted segment carries this end's `una` and the receive window less what is queued, modulo 65536; a data segment carries the number and fragment of a buffered segment and the current time, an ACK a pending acknowledgement as it was received, a probe what the last ACK left in the header |
| `Structure.PeekIsMerge` | kcp-2.1.1/ikcp.c:389-417 | for any queue, the bytes merged are as many as the separate length walk of `ikcp_peeksize` adds up, so the assertion holds |
| `Structure.CutShape` | kcp-2.1.1/ikcp.c:527-547 | no fragment exceeds `mss`; message mode numbers fragments count-1 down to 0, stream mode all 0 |
| `Protocol.SendConserves` | kcp-2.1.1/ikcp.c:475-550 | a return n >= 0 appends exactly the first n bytes to the queued stream; a negative return leaves the queue unchanged |
| `Protocol.SendTakes` | kcp-2.1.1/ikcp.c:484-549 | a send takes everything if it fits the last queued segment and 127 more; otherwise what the last segment can take, or it is refused with -2 |
| `Protocol.SendPacks` | kcp-2.1.1/ikcp.c:484-549 | a stream-mode send keeps every queued segment but the last exactly `mss` long |
| `Protocol.AnyCallsKeepPacked` | kcp-2.1.1/ikcp.c:475-550 | in stream mode, after any calls and any bytes, every queued segment but the last is exactly `mss` long |
| `Protocol.NextMessage` | kcp-2.1.1/ikcp.c:378-415 | in message mode the receive queue starts with the fragments of the next undelivered message, in order |
| `Protocol.RecvData` | kcp-2.1.1/ikcp.c:364-441 | a successful read extends the delivered data by exactly the next message, or by the next bytes of the stream |
| `Protocol.InputRcvLog` | kcp-2.1.1/ikcp.c:862-880 | a genuine data segment leaves the receiver holding only the sender's fragments under their numbers, loses nothing it held, and an acknowledgement is queued only for a segment then held |
| `Protocol.InputSndLog` | kcp-2.1.1/ikcp.c:823-832 | acknowledgements that name only held segments free no segment the receiver lacks |
| `Protocol.ActKeeps` | kcp-2.1.1/ikcp.c:364-1263 | every call at either end, with any datagram ever emitted by the peer, keeps the two-endpoint invariant |
| `Protocol.RunKeeps` | kcp-2.1.1/ikcp.c:364-1263 | the two-endpoint invariant holds in every reachable state |
| `Protocol.EndToEndSafety` | kcp-2.1.1/ikcp.c:364-441 | in every run and both directions, what `ikcp_recv` handed out is a prefix of what `ikcp_send` accepted: whole messages, or bytes in stream mode |
| `Protocol.NothingLost` | kcp-2.1.1/ikcp.c:587-638 | in every run each number below `snd_nxt` is buffered by its sender or held by the receiver |
| `Protocol.AckedIsHeld` | kcp-2.1.1/ikcp.c:862-880 | in every run no `una` or ACK in flight names a segment the receiver does not hold |
| `Protocol.ReassemblyNeverSticks` | kcp-2.1.1/ikcp.c:447-469 | in every run, in each direction whose sender is in message mode, the queue starts with the next undelivered message and a full queue can be read |
| `Recovery.ExchangeFrees` | kcp-2.1.1/ikcp.c:364-1263 | in every reachable state, one clean exchange (one side flushes, the other hears it and flushes, the first hears that) leaves in the buffer no segment that was due and fit the peer's window, and adds none |
| `Recovery.NoDeadEnd` | kcp-2.1.1/ikcp.c:364-1263 | from every reachable state, whatever the network did, there are further calls and deliveries, no sends among them, after which everything accepted has been delivered in both directions |
| `Delivery.WrappedNoDeadEnd` | kcp-2.1.1/ikcp.c:364-1263 | the same of the 32-bit endpoints over raw bytes, having taken in 2^31 segments less the other's receive window at most |
| `Refinement.ActAgrees` | kcp-2.1.1/ikcp.c:136-139 | one call of the 32-bit endpoint, through raw bytes, is the same call of the unbounded endpoint reduced modulo 2^32 |
| `Refinement.InputAgrees` | kcp-2.1.1/ikcp.c:780-943 | reading a datagram commutes with reduction modulo 2^32 when nothing in it is stale |
| `Refinement.FlushAgrees` | kcp-2.1.1/ikcp.c:974-1230 | a flush commutes with reduction modulo 2^32, state and datagrams |
| `Refinement.RecvAgrees` | kcp-2.1.1/ikcp.c:364-441 | a read commutes with reduction modulo 2^32 and returns the same data |
| `Refinement.NotTooFarAhead` | kcp-2.1.1/ikcp.c:1077-1098 | the sender never numbers beyond its window past the receiver's window |
| `Refinement.WrappingRefinesUnbounded` | kcp-2.1.1/ikcp.c:136-139 | whole runs: 32-bit endpoints over raw bytes simulate the unbounded ones step for step if no delivered datagram is half the circle late |
| `Refinement.WrappedEndToEndSafety` | kcp-2.1.1/ikcp.c:364-943 | end-to-end safety of the 32-bit endpoints over raw bytes |
| `Refinement.ShortRunIsFresh` | kcp-2.1.1/ikcp.c:1077-1098 | a run of the 32-bit endpoints is fresh, whatever the network does, if neither side has numbered 2^31 segments less the other's receive window |
| `Refinement.ShortRunSafety` | kcp-2.1.1/ikcp.c:364-943 | end-to-end safety of such runs with no assumption on the network |
| `Refinement.WrappedNothingLost` | kcp-2.1.1/ikcp.c:587-638 | of the 32-bit endpoints: everything ever numbered is buffered by its sender, out of order at the receiver, or in line there |
| `Refinement.WrappedAckedIsHeld` | kcp-2.1.1/ikcp.c:862-880 | of the 32-bit endpoints: what is in flight is the unbounded run's, wrapped, and every segment of it that is not stale has, by `_itimediff`, a `una` not ahead of `rcv_nxt` and, if an ACK, a number behind `rcv_nxt` or held in `rcv_buf` |
| `Refinement.WrappedReassembly` | kcp-2.1.1/ikcp.c:447-469 | of the 32-bit endpoints: the queue starts with the next undelivered message and a full queue can be read |
| `Refinement.AgreesUnlessStale` | kcp-2.1.1/ikcp.c:622-637 | at any distance, a cumulative acknowledgement is judged alike with wrapped and unbounded numbers if and only if it lies modulo 2^32 on the side of the oldest segment it really is on; within a circle, if and only if it is less than half the circle away |
| `Refinement.StaleUnaFreesData` | kcp-2.1.1/ikcp.c:619-638 | an acknowledgement more than half the circle late frees a segment that is still owed |
| `Refinement.WindowEndAgreesIff` | kcp-2.1.1/ikcp.c:862-862 | the same of the window-end test of a data segment, at any distance |
| `Refinement.InFlightAgreesIff` | kcp-2.1.1/ikcp.c:592-593 | the range test of an ACK is judged alike if and only if its number is in flight or congruent to none that is |
| `Refinement.StalePushIsTaken` | kcp-2.1.1/ikcp.c:720-763 | a data segment a whole circle late is queued by the 32-bit receiver as the next in line and left alone by the unbounded one |
| `Staleness.DeliversTwice` | kcp-2.1.1/ikcp.c:862-880 | a run of the real endpoints in which the first datagram arrives again after 2^32 messages and end-to-end safety fails |
| `Staleness.LosesData` | kcp-2.1.1/ikcp.c:619-638 | a run in which the first acknowledgement arrives again after 2^31 + 2 messages and the word in flight is held by neither end |
| `Endpoint.Kcp.constructor` | kcp-2.1.1/ikcp.c:234-298 | a new object is valid and holds the initial state |
| `Endpoint.Kcp.ReserveAck` | kcp-2.1.1/ikcp.c:673-696 | growing the array by powers of two keeps every pending acknowledgement |
| `Endpoint.Kcp.AckPush` | kcp-2.1.1/ikcp.c:668-702 | appends one acknowledgement to the pending ones |
| `Endpoint.Kcp.UpdateAck` | kcp-2.1.1/ikcp.c:556-570 | the estimator of `Timing.SampleSmooths` |
| `Endpoint.Kcp.ParseUna` | kcp-2.1.1/ikcp.c:619-638 | the loop frees what `Structure.ParseUnaDrops` says and keeps the counter |
| `Endpoint.Kcp.ParseAck` | kcp-2.1.1/ikcp.c:587-617 | the walk removes at most the named segment and keeps the counter |
| `Endpoint.Kcp.ParseFastack` | kcp-2.1.1/ikcp.c:640-662 | the walk counts one skip for each earlier segment sent no later than the acknowledged one |
| `Endpoint.Kcp.InsertSegment` | kcp-2.1.1/ikcp.c:726-744 | the backward walk is the sorted insertion |
| `Endpoint.Kcp.MoveReady` | kcp-2.1.1/ikcp.c:752-763 | the loop moves segments next in line until a gap or a full queue, counters kept |
| `Endpoint.Kcp.ParseData` | kcp-2.1.1/ikcp.c:714-774 | window test, insertion and delivery together |
| `Endpoint.Kcp.Send` | kcp-2.1.1/ikcp.c:475-550 | the queue and return value of `Protocol.SendConserves`, counter kept |
| `Endpoint.Kcp.PeekSize` | kcp-2.1.1/ikcp.c:447-469 | the lengths up to the end of the next message, or -1 |
| `Endpoint.Kcp.Recv` | kcp-2.1.1/ikcp.c:364-441 | the return code, data and state of `Reading.ReadReturns` and `Reading.ReadReports`, peeking included |
| `Endpoint.Kcp.DecodeLoop` | kcp-2.1.1/ikcp.c:796-904 | the loop over raw bytes reads exactly the segments the parser finds, with the parser's status |
| `Endpoint.Kcp.Input` | kcp-2.1.1/ikcp.c:780-943 | return value and state for any bytes |
| `Endpoint.Kcp.EncodeSegment` | kcp-2.1.1/ikcp.c:949-960 | writes the 24 header bytes behind what is in the buffer and changes nothing before |
| `Endpoint.Kcp.StagePacket` | kcp-2.1.1/ikcp.c:1166-1179 | outputs the buffer if the segment would pass the mtu, then encodes it; the buffer is never overrun |
| `Endpoint.Kcp.FlushAcks` | kcp-2.1.1/ikcp.c:1012-1024 | stages one ACK per pending acknowledgement in order and clears the list |
| `Endpoint.Kcp.FlushProbes` | kcp-2.1.1/ikcp.c:1026-1070 | the probe timer, the probes staged, the flags cleared |
| `Endpoint.Kcp.Admit` | kcp-2.1.1/ikcp.c:1076-1098 | the admission loop, counters kept |
| `Endpoint.Kcp.Transmit` | kcp-2.1.1/ikcp.c:1120-1149 | first send, timeout and fast retransmit of one segment |
| `Endpoint.Kcp.FlushSegments` | kcp-2.1.1/ikcp.c:1116-1189 | the transmit loop updates every segment and stages the due ones in buffer order |
| `Endpoint.Kcp.Settle` | kcp-2.1.1/ikcp.c:1197-1229 | the window reduction of `Congestion.SettleOk` |
| `Endpoint.Kcp.Flush` | kcp-2.1.1/ikcp.c:974-1230 | whole state and the exact bytes of every datagram output |
| `Endpoint.Kcp.Update` | kcp-2.1.1/ikcp.c:1238-1263 | clock, state and datagrams of the update of `Timing.UpdateFlushesIff` |
| `Endpoint.Kcp.Check` | kcp-2.1.1/ikcp.c:1275-1311 | the time of `Timing.CheckIsNearest` and `Timing.CheckIsEnough` |
| `Endpoint.Kcp.Perform` | kcp-2.1.1/ikcp.c:364-1263 | one call: the state it leaves, what it returns and the bytes it outputs |
| `Endpoint.Kcp.Serve` | kcp-2.1.1/ikcp.c:364-1263 | any calls in any order keep the object valid, compute the specified state and output the specified bytes |
| `Connection.Converse` | kcp-2.1.1/ikcp.c:364-1263 | any events on two objects, each fed what the other output, leave the states, output, accepted and delivered data of the run of the system |
| `Connection.SafeConversation` | kcp-2.1.1/ikcp.c:364-1263 | two new objects, any events: what each hands out is a prefix of what the other accepted, unless a datagram is half the circle late |
| `Settings.AnySettingsValid` | kcp-2.1.1/ikcp.c:1315-1375 | whatever configuration calls are made, with any arguments, the settings meet the precondition of every theorem about one endpoint, and the least timeout is 30 ms in fast mode and 100 ms otherwise |
| `Settings.SettingsTake` | kcp-2.1.1/ikcp.c:1315-1375 | a setting in range takes effect as given and leaves every other alone; an argument out of range is bounded or ignored |
| `Settings.StreamsMeetPremises` | src/net/transport.cpp:67-75 | the transport's settings, in full, and the further premises they meet: window bytes fit 32 bits, a 128 KB write fits 127 segments, the two ends match |
| `Congestion.WindowMatchesBytes` | kcp-2.1.1/ikcp.c:910-940 | after any calls and bytes `incr` is within one segment of `cwnd` times `mss` and `ssthresh` >= 2, for settings whose largest window fits 32 bits |
| `Congestion.GrowOk` | kcp-2.1.1/ikcp.c:917-939 | growth keeps that bound and never leaves an increased `cwnd` above `rmt_wnd` |
| `Congestion.SettleOk` | kcp-2.1.1/ikcp.c:1197-1229 | reduction keeps that bound and leaves `cwnd` >= 1 |
| `Congestion.FlushCwnd` | kcp-2.1.1/ikcp.c:1197-1229 | every completed flush leaves `cwnd` >= 1 and the bound intact |
| `Congestion.RepairNeverFires` | kcp-2.1.1/ikcp.c:924-924 | in every reachable state and for any bytes, `incr` is at least `mss` already when congestion avoidance comes to use it |
| `Congestion.GrowthIsCapped` | kcp-2.1.1/ikcp.c:934-937 | in every reachable state and for any bytes, a window that reading them increased is at most `rmt_wnd` |
| `Congestion.InputGrows` | kcp-2.1.1/ikcp.c:890-940 | in every reachable state and for any bytes: the peer's window is that of the last segment read; the own window grows, once, if and only if decoding was complete and `snd_una` moved, by a segment in slow start and otherwise to the segments the raised byte counter fills, up to `rmt_wnd` |
| `Congestion.FlushReacts` | kcp-2.1.1/ikcp.c:1197-1229 | a flush that finds a segment timed out halves the threshold and starts over with one segment; failing that, one due for fast retransmission sets the threshold to half of what is in flight and the window to that plus the resend count; otherwise the window only becomes at least 1 |
| `Timing.SampleWithin` | kcp-2.1.1/ikcp.c:556-570 | with samples at most R < 2^28 the estimates stay at most R, no intermediate overflows 32 bits and the timeout is the clamped estimate, so that `Timing.SampleSmooths` applies in full |
| `Timing.SampleSmooths` | kcp-2.1.1/ikcp.c:556-570 | the first sample is taken with half of it as deviation; after that the smoothed value moves an eighth of the way to the sample and the deviation a quarter, rounded down; the timeout is four deviations above, at least an interval, within its bounds |
| `Timing.DatagramIsSampled` | kcp-2.1.1/ikcp.c:833-836 | for any bytes, the estimate a datagram leaves is reached from the old one by one such sample for each ACK in it stamped no later than now, in order, and by nothing else |
| `Timing.EstimateWithin` | kcp-2.1.1/ikcp.c:556-570 | the same in every run of the endpoint whose ACK samples are at most R |
| `Timing.TimeoutDeadline` | kcp-2.1.1/ikcp.c:1126-1138 | a timed-out segment's new deadline is ahead of the clock if and only if its timeout is below a stated limit, for each `nodelay` mode |
| `Resending.AnyCallsKeepTimers` | kcp-2.1.1/ikcp.c:1112-1149 | in every reachable state a segment transmitted x times, fast retransmissions included, has a timeout of at most x - 1 back-offs from 60000 |
| `Resending.BackoffBounded` | kcp-2.1.1/ikcp.c:1130-1137 | with `nodelay` 1, in every reachable state, that is at most 60000 (3/2)^(x-1), up to 26 transmissions |
| `Resending.AheadIff` | kcp-2.1.1/ikcp.c:1112-1149 | in every mode: every segment that any flush in any run transmits for at most the n-th time gets a deadline ahead of the clock, if and only if n - 1 back-offs from 60000 stay below 2^31 |
| `Resending.DeadlineInFuture` | kcp-2.1.1/ikcp.c:1133-1137 | with `nodelay` 1: if and only if n <= 26, beyond the dead-link count |
| `Resending.DoublingSafeIff` | kcp-2.1.1/ikcp.c:1130-1131 | with `nodelay` 0: if and only if n <= 16 |
| `Resending.DoublingOverflows` | kcp-2.1.1/ikcp.c:1130-1131 | a run of the endpoint whose 17th transmission of a segment gets a deadline that has passed |
| `Timing.DeadlineAhead` | kcp-2.1.1/ikcp.c:1238-1263 | after every update the next flush is due in 1 to 10000 ms |
| `Timing.UpdateFlushesIff` | kcp-2.1.1/ikcp.c:1238-1263 | an update flushes if and only if it is the first, its deadline has come or lies more than 10 s ahead; then its bytes say exactly the agenda of that moment and the next deadline is an interval after the old one if that is ahead, else an interval from now; otherwise only the clock reading changes |
| `Timing.FlushesEveryInterval` | kcp-2.1.1/ikcp.c:1238-1263 | after an update that flushed, whatever is sent, read or received in between, an update at least an interval later sends every segment due by then |
| `Timing.CheckIsEnough` | kcp-2.1.1/ikcp.c:1275-1311 | one update at the returned time, which by `Timing.UpdateFlushesIff` flushes when it should, leaves the state and output of an update at every millisecond up to it, across clock wrap-around |
| `Timing.CheckIsNearest` | kcp-2.1.1/ikcp.c:1275-1311 | the answer is now if and only if a flush is due or a buffered segment has timed out; otherwise it is the nearest of the flush deadline, the segments' deadlines and an interval |
| `Probing.AnyCallsKeepProbe` | kcp-2.1.1/ikcp.c:1026-1046 | in every reachable state the probe interval is 0 or in [5000, 120000] |
| `Probing.ProbeTimer` | kcp-2.1.1/ikcp.c:1026-1046 | an open window stops the timer; a closed one starts it at 5 s, and each time it runs out asks for a probe and waits half as long again, at most 120 s |
| `Probing.FlushProbes` | kcp-2.1.1/ikcp.c:1026-1070 | a flush runs the timer, sends a WASK if and only if one is called for, and leaves no request standing |
| `Probing.ClosedWindowProbes` | kcp-2.1.1/ikcp.c:1026-1057 | in every reachable state with the peer's window closed, a flush leaves the probe interval in [5000, 120000] and never smaller, and if the probe time has come it sends a WASK |
| `Probing.ProbeIsHeard` | kcp-2.1.1/ikcp.c:883-886 | reading segments raises the request for a report if and only if it was raised or one of them is a WASK |
| `Probing.RequestStands` | kcp-2.1.1/ikcp.c:1059-1070 | the request survives any sequence of calls that do not flush |
| `Probing.ReportIsSent` | kcp-2.1.1/ikcp.c:1059-1068 | the next flush sends a WINS, and all its segments carry the receive window less what is queued, modulo 65536 |
| `Probing.ZeroWindowRecovers` | kcp-2.1.1/ikcp.c:823-890 | bounded response through bytes, in every reachable pair of states: a due probe's datagram delivered, any calls that do not flush, the peer's next flush reports, and whichever of its datagrams comes back sets `rmt_wnd` to the receive window less what was queued at that flush, modulo 65536 |
| `Probing.ClosedIff` | kcp-2.1.1/ikcp.c:962-968 | any datagram of a flush that arrives closes the sender's window if and only if the receiver's free space is a multiple of 65536, and then the sender's next flush numbers nothing |
| `Probing.FullQueueStopsSender` | kcp-2.1.1/ikcp.c:962-968 | in particular a full receiver stops its sender |
| `Probing.SpaceIsReported` | kcp-2.1.1/ikcp.c:381-438 | after a read that makes room in a full queue, and any calls that do not flush, the next flush sends a WINS and carries the room there then is |
| `Transport.WholeWrite` | src/net/transport.cpp:134-142 | a write of at most 128 KB is neither refused nor cut short when 127 segments hold it |
| `Transport.WriteAllQueues` | src/net/transport.cpp:134-142 | the split writes queue exactly the frame's bytes |
| `Transport.WholeFrameIff` | src/net/transport.cpp:127-134 | the signed size counts the whole frame if and only if the payload is shorter than 2^31 - 4 bytes |
| `Transport.WritesPieces` | src/net/transport.cpp:134-142 | the write loop is the `ikcp_send` calls of the frame's 128 KB pieces |
| `Transport.PieceSizes` | src/net/transport.cpp:131-142 | the pieces are the frame's bytes in order, 131072 to each but the last |
| `Transport.SendChunk` | src/net/transport.cpp:121-144 | the object stays valid and keeps its buffers; its state and output are those of the flush after the write loop on as much of the frame as the size counts, and with the transport's settings those of the `ikcp_send` calls of the pieces and a flush, exactly those bytes queued |
| `Transport.FrameReader.OnData` | src/net/transport.cpp:198-219 | the loop takes the complete frames at the front and keeps the rest |
| `Transport.ReadsOn` | src/net/transport.cpp:198-219 | reading may be interrupted anywhere |
| `Transport.ReadsPrefix` | src/net/transport.cpp:205-219 | any prefix of a stream of frames reads as a prefix of the payloads, the leftover a proper prefix of the next frame |
| `Transport.FramesSurvive` | src/net/transport.cpp:192-224 | however the bytes come out, the callback sees a prefix of the payloads in order |
| `Transport.FrameReadsBackIff` | src/net/transport.cpp:206-212 | a payload reads back however its frame is cut up, if and only if it is shorter than 2^32 - 4 bytes |
| `Transport.AcceptsAll` | src/net/transport.cpp:134-142 | in every run, with the transport's settings, what the endpoint has accepted is exactly what it was given |
| `Transport.PayloadsArriveInOrder` | src/net/transport.cpp:121-224 | end to end over the 32-bit protocol and a faulty network: if the sends are those of `sendChunk` for some payloads, as far as it got, the callback sees a prefix of the payloads |
| `Streaming.ChunkActs` | src/net/transport.cpp:134-143 | the events of one payload do to the endpoint what `SendChunk` does to the object, all pieces accepted |
| `Streaming.StreamPayloads` | src/net/transport.cpp:121-224 | two new objects, `SendChunk` for the payloads on one and the frame reader on the other, any other calls and deliveries between: what is received is a prefix of the payloads |
| `Crc.TableIsShift` | src/core/hasher.cpp:9-53 | all 256 table entries are eight register steps of their index |
| `Crc.TableStep` | src/core/hasher.cpp:57-57 | one table step is eight steps of the reflected register with polynomial 0xEDB88320 |
| `Crc.Crc32` | src/core/hasher.cpp:54-60 | the table loop computes the bit-by-bit checksum |
| `Crc.CheckValue` | src/core/hasher.cpp:54-60 | the checksum of "123456789" is 0xCBF43926, that of nothing 0 |
| `Crc.Residue` | src/core/hasher.cpp:54-60 | any data followed by its checksum, low byte first, has checksum 0x2144DF1C |
| `Crc.FeedInjective` | src/core/hasher.cpp:57-57 | the state step is injective |
| `Crc.DetectsBurst` | src/core/hasher.cpp:54-60 | inputs that differ only within four consecutive bytes have different checksums |
| `Manifest.TransferManifest.PackBitfield` | src/core/manifest.cpp:9-17 | the field has the right size and its set bits are exactly the flags, padding clear |
| `Manifest.TransferManifest.UnpackBitfield` | src/core/manifest.cpp:18-24 | the flags are the bits of the field, and the loop reads past it if and only if it is too short for the count |
| `Manifest.TransferManifest.IsComplete` | src/core/manifest.cpp:58-64 | true exactly when there are flags and all are set |
| `Manifest.PackedOnce` | src/core/manifest.cpp:9-24 | a field determines the flags it packs |
| `Manifest.MaskIsPower` | src/core/manifest.cpp:9-24 | bit k of a field byte is the one worth 2^k |
| `Manifest.DecodeAck` | src/net/session.cpp:296-309 | a first message of full length is decoded to the bits of its field, or overruns if and only if the field is shorter than the count; others are ignored |
| `Manifest.AckMeans` | src/net/session.cpp:296-309 | ignored if and only if there was one before or it has fewer than 5 bytes; an overrun if and only if the field has fewer bits than the count in bytes 1 to 4, least significant first; otherwise flag i is bit i % 8 of byte 5 + i / 8 |
| `Manifest.ResumeStateArrives` | src/net/session.cpp:286-309 | packing, sending and decoding returns the receiver's flags; unpacking agrees with the decoder |
| `Transfer.Slice` | src/core/chunker.cpp:9-32 | as many chunks as the 32-bit count says, numbered in order, consecutive slices of the file with their checksums, joining to the part they reach |
| `Transfer.WholeFileIff` | src/core/chunker.cpp:12-12 | they join to the whole file if and only if the number of slices fits 32 bits |
| `Transfer.OneSlice` | src/core/chunker.cpp:16-18 | every byte of the file lies in exactly one slice |
| `Transfer.NextKeeps` | src/net/session.cpp:312-361 | every worker step in any interleaving, with a codec that returns what was sealed, keeps: bytes copied are in place, a set bit belongs to a chunk whose bytes are all in place, the counter is the number of counted chunks |
| `Checked.MarkedIff` | src/net/session.cpp:334-345 | for any codec and state, a worker that has written its bytes sets the bit if and only if the view holds, where the chunk belongs, bytes with the chunk's checksum; otherwise it gives the chunk up; nothing else changes |
| `Checked.CompletionIsChecked` | src/net/session.cpp:312-361 | whatever decryption and decompression yield, in any interleaving: when no chunk is delivered twice and the transfer completes, every bit is set and every slice of the view has its chunk's checksum |
| `Checked.SpoiltNeverCompletes` | src/net/session.cpp:326-338 | a chunk that does not unseal, or unseals to as many bytes with another checksum, keeps such a transfer from completing |
| `Checked.NoBurstSurvives` | src/net/session.cpp:334-338 | with the CRC-32 of the receiver, a transfer that completes with each chunk damaged within four consecutive bytes at most has delivered the file |
| `Checked.OnlyDeliveredBytes` | src/net/session.cpp:312-334 | in every run, with any codec and any deliveries, a byte of the view that no delivered chunk covers is still 0 |
| `Checked.RepeatLeavesGap` | src/net/session.cpp:352-360 | a run in which a repeated chunk completes a transfer whose view is not the file |
| `Transfer.DroppedIff` | src/net/session.cpp:313-316 | a worker that takes up a delivered chunk drops it if and only if the file is not mapped yet |
| `Transfer.NoneBeforeMapping` | src/net/session.cpp:228-295 | unless a repeated handshake was answered between listing and mapping, no chunk is at work before the view is mapped and none is dropped |
| `Transfer.EarlyAnswerDrops` | src/net/session.cpp:231-241 | for every file with content, a run with a repeated handshake in which a genuine chunk is dropped |
| `Transfer.DroppedCompletesIff` | src/net/session.cpp:352-360 | for given deliveries, a transfer in which every delivery of a chunk is dropped can complete if and only if the other chunks are delivered as often as chunks are expected |
| `Transfer.DroppedNeverCompletes` | src/net/session.cpp:352-360 | when no chunk is delivered twice, a dropped chunk keeps the transfer from completing |
| `Transfer.HollowAnswerOverruns` | src/net/session.cpp:231-241 | a handshake repeated before the manifest is filled in is answered with a count and no bits, which the decoder reads past |
| `Transfer.OnceOnlyIsTrustworthy` | src/net/session.cpp:352-360 | with each chunk delivered at most once, completion under any interleaving means every bit set and the view equal to the file |
| `Transfer.CompleteIsWhole` | src/net/session.cpp:352-360 | the same whenever no chunk can be left out by as many deliveries as are expected |
| `Transfer.TrustworthyIff` | src/net/session.cpp:352-360 | for a given list of deliveries, completion can be trusted in every run if and only if every chunk is needed to reach the expected count |
| `Transfer.RepeatCompletesEarly` | src/net/session.cpp:352-360 | a repeated chunk completes a two-chunk file without its second chunk |
| `Transfer.CompletableIff` | src/net/session.cpp:352-360 | a transfer can complete if and only if the file is not empty |
| `Session.ChunksArriveOnce` | src/net/session.cpp:78-116 | chunks sent once each on stream `id % 4` reach the pool at most once, in every run of the four connections |
| `Session.CompletedTransferIsWhole` | src/net/session.cpp:312-361 | over the 32-bit protocol and a faulty network, in any interleaving: when completion is reported every bit is set and the view equals the sender's file |
| `Pool.PermitsAccountForTasks` | src/core/thread_pool.cpp:19-37 | in every interleaving: queue length = permits + workers about to pop + submitters about to release; tasks leave in order, each once; both counters are right |
| `Pool.AcquiredFindsTask` | src/core/thread_pool.cpp:20-28 | a worker that acquired a permit pops the oldest task |
| `Pool.NoLostWakeup` | include/core/thread_pool.h:22-36 | a queued task that nobody is about to handle has a permit waiting |
| `Pool.EachTaskOnce` | src/core/thread_pool.cpp:19-37 | in every interleaving, each task submitted is queued, in one worker's hands or has been run, as often as it was submitted; when nothing is queued and all workers wait, it has been run as often |

## Left out

- KCP's pluggable congestion callbacks and pacing, which nothing in the repository supplies; logging, allocator hooks and out-of-memory paths.
- Null buffers and the negative lengths of `ikcp_send`: data is always a byte sequence.
- Settings changed while traffic flows: `Config` is fixed first, as the transport does; `ikcp_setmtu` with data queued is not modelled.
- The links of the intrusive lists: the four queues are sequences in the class, with the explicit counters kept and proved equal to their lengths; fields of a segment that are rewritten before each use (`conv`, `cmd`, `wnd`, `una`) are not stored. Related fields of the control block are grouped into records that the methods reassign.
- 32-bit wrap-around of `ackedlen` and of the queue counters, and of the smoothed round-trip values beyond the bound of `Timing.SampleWithin`: they are unbounded integers. Serial numbers, clock values, timeouts, transmission counts, `cwnd` and `incr` wrap as in the C code.
- Refinement.WrappingRefinesUnbounded: assumes that no delivered datagram is stale, since the property is false otherwise, and that the two windows add up to at most 2^31.
- Liveness under a fair network: `Recovery.NoDeadEnd` shows that delivery stays possible from every reachable state, not that it happens by itself; the bounded response of `Probing.ZeroWindowRecovers` and the deadlines of `Timing` and `Resending` say when the endpoints act.
- Recovery.NoDeadEnd: for receive windows below 65536, as the transport's are; a larger one can be told as closed while it is open (`Probing.ClosedIff`).
- Delivery.WrappedNoDeadEnd: for as many segments as leave nothing stale, since past that `Staleness.LosesData` is a dead end.
- Sockets, threads and sleeps of the transport, the four streams as such (each is one connection), discovery, STUN, file mapping, metrics and the user interface.
- Encryption and compression are a pair of functions; one undoes the other except in `Checked`, where it may yield anything; entropy detection is left out.
- Session.CompletedTransferIsWhole: a message is any 32-bit chunk number encoded so that different messages differ; the handshake travels in the same streams but its fields are not modelled.
- The handshake's rejection of a wrong PIN, a repeated handshake for another file or for an empty one, and the byte layout of chunk messages; chunk counts in the interleaving are unbounded.
- Manifest file save and load: the open test in `load` returns failure for a file that opened, so no round trip holds; `combine_crc32` is a plain exclusive-or with no contract.
- Shutdown of the thread pool, where queued tasks may be dropped.
