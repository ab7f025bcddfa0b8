# A verified model of a user-space TCP endpoint

The project models the TCP library under `libsponge/` (RFC 793) in Dafny: the byte stream, the
circular-buffer reassembler, the receiver, the sender with its retransmission timer, the connection
on top of them, and the wire formats below. `dafny verify dfyconfig.toml` checks all of it.

## How it is built

Every object of the library appears twice.

* A **value model** (`Stream`, `Reassembler`, `Receiver`, `Sender`, `Conn`, `Parser`, `Adapter`) says what the
  object is and what a call makes of it, in the simplest terms: bytes by stream index, segments by absolute
  sequence number, a waiting map instead of a ring. Runs, invariants and theorems are about these values.
* A **class** (`ByteStream`, `StreamReassembler`, `TCPReceiver`, `TCPSender`, `TCPConnection`, `InternetChecksum`,
  `NetParser`, `TCPOverIPv4Adapter`) has the library's fields, loops, modulo indexing and 16/32-bit arithmetic, and
  each method is proved to do to the fields what the value model does to the value.

| file | content |
|---|---|
| `WrappingIntegers` | `wrap`, `unwrap`: exactness and optimality |
| `ByteStream`, `Reassembly`, `StreamReassembler` | the stream; reassembly as a map; the ring buffer that implements it |
| `Segments`, `Receiver` | slices of SYN, bytes, FIN; the receiver and every history of it |
| `Sender`, `TCPSender` | the sender's invariant, window accounting, timer; the object |
| `Network` | sender and receiver over a lossy network: safety, flow control, progress, completion |
| `Connection`, `TCPConnection`, `StateSummary` | the endpoint, its runs, its shutdown, its state names |
| `Exchanges` | what each call hands out: answers, retransmissions, resets, and that nothing is held back or owed |
| `Closings` | which end lingers, and which segment closes it |
| `Openings` | short runs of one endpoint that show what its exact conditions exclude |
| `Endpoints`, `Acknowledgements`, `EndpointFlow` | two endpoints over a lossy network: what arrives, what is taken for acknowledged, and how far ahead the sender gets |
| `Checksum`, `ChecksumField`, `Parser`, `TCPSegmentCodec`, `IPv4Codec`, `TCPOverIPv4` | the wire formats |

## Main results

1. **End to end** (`Network.EndToEnd`, `Endpoints.BothWays`). Over a network that drops, repeats and reorders,
   what is received is a prefix of what was sent, an ended inbound stream is the whole of an ended outbound
   stream, and every segment acknowledged has been assembled byte for byte. `BothWays` says the first two of two
   complete endpoints, in both directions, resets, timeouts and destruction included.
2. **Acknowledgements** (`Acknowledgements.AckedIsAssembled`, `Acknowledgements.CleanCloseDelivers`). What an endpoint
   holds acknowledged its peer has assembled, and an endpoint that ends in order has delivered its whole stream and
   received its peer's, provided the ACK flag vouches for the numbers that pop something. `Acknowledgements.FlaglessSyn` is a
   history in which it does not, from which the two ends never connect.
3. **Progress and completion** (`Network.Progress`, `Network.CompletionReachable`). Each retransmission round
   acknowledges at least one more number; and from every reachable state of an ended stream below 2^31 - 2 bytes
   some run delivers and acknowledges all of it.
4. **Flow control** (`Network.FlowControl`, `EndpointFlow.EndpointFlowControl`, `Network.MemoryBounded`). Acknowledgements
   delivered in the order of their emission keep the sender within the advertised edge but for a one-number probe,
   and the receiver's memory within its capacity; two of them swapped do not (`Network.StaleAckOverruns`); the exact
   condition is given (`Senders.OverrunsExactly`).
5. **Reassembly** (`StreamReassembler.PushSubstring`, `Reassembly.OrderIndependence`, `Receivers.HistoryFixed`). The
   ring, bitmap and counters compute the map-based step. With room for the stream, what a reassembler holds, and what a
   receiver holds after any arrivals of segments, is fixed by what arrived: written up to the first gap, kept beyond it.
6. **Nothing held back, nothing owed** (`Exchanges.NothingHeldBack`, `Exchanges.NothingOwed`). In every run, whatever the
   peer sends, everything outstanding has been handed out, the sender's queue is empty after every call that
   transmits, and the window is never left with room for something that waits. `Exchanges.NumbersAnswered` and
   `Exchanges.AnsweredExactly` say which segments are answered, and with what; `Exchanges.ResetsExactly` where resets
   come from.
7. **Shutdown and give-up** (`Connections.CleanShutdown`, `Closings.LingersExactly`, `Closings.SecondDoesNotLinger`,
   `Closings.SecondClosesAtOnce`, `Exchanges.GivesUpExactly`, `Connections.GiveUp`). An orderly end means that both
   streams are done and acknowledged. The end that closes second does not linger and is gone with the acknowledgement
   of its FIN; the other waits for ten timeouts of silence.
8. **Wire formats** (`TCPOverIPv4.Encapsulation`, `TCPOverIPv4.HandedOnExactly`, `TCPOverIPv4.WrapChecks`,
   `TCPSegmentCodec.CorruptionDetected`, `IPv4Codec.AcceptsExactly`). Round trips; the byte layouts of RFC 793 and RFC
   791, written and read; the pseudo-header; and exactly what is accepted and handed on.

## Hypotheses

* Receive capacity is positive; the ring takes indices modulo it.
* What is delivered is recent enough for 32 bits to identify it (`Resolvable`, `Readable`, `Timely`; section 3.3 of
  RFC 793). `ShortStreamsResolve`, `ShortDeliverable`, `ShortReadable` and `FlagSuffices` show that streams below
  2^31 - 2 bytes always meet this. An acknowledgement is delivered with at most 2^31 numbers in flight, which
  short streams and flow control (`Network.FewInFlight`) guarantee.
* Flow control is stated for receive capacities below 2^16, the size of the window field.
* 64-bit counters do not overflow; the methods that need this say so (`Headroom`, `Recent`, `Checkpoint`).
* In the system and endpoint runs nobody writes to a stream after ending it. `ByteStream::write` does not check
  this, although `byte_stream.hh` says no more bytes can be written; `StateSummaries.LateWrite` and
  `StateSummaries.LateWriteHappens` show the effect.
* With nothing outstanding, `_ack_valid` reads the front of an empty queue. The model takes the next sequence
  number as the bound there and proves that the two agree whenever the queue is not empty.
* Time, segments from the peer, calls of the owner and the initial sequence number are inputs.

## Where the code does not do what one would expect

* The free space is a 16-bit difference that does not saturate, so an acknowledgement that arrives late can turn a
  retracted edge into almost 2^16 free numbers (`Senders.OverrunsExactly`, `Network.StaleAckOverruns`).
* A connection passes the acknowledgement field to the sender without looking at the ACK flag. An empty field pops
  outstanding data exactly when it reads as a number that covers it (`Connections.PopsWithoutFlag`), which can leave
  the two ends apart for good (`Acknowledgements.FlaglessSyn`); one that pops nothing leaves the acknowledgement
  bounds alone (`Acknowledgements.AckedIsAssembled`).
* `TCPSegment::parse` and `IPv4Datagram::parse` drop the result of the header parsers. What they accept is stated
  exactly (`AcceptsExactly`), and which of it the header parsers had found good (`AcceptedHeader`); a wrong version,
  a wrong IPv4 checksum and a data offset below five get through to the connection
  (`TCPOverIPv4.BadHeaderUnwrapped`, `TCPOverIPv4.ShortOffsetUnwrapped`).
* `write` does not ask whether the connection is active; `Connections.DeadWrite` says when a dead one still sends,
  and `Openings.WriteAfterReset` shows one that does.
* A segment that takes up numbers is not always answered at once: while data waits behind a full window, nothing goes
  out, and the acknowledgement waits too (`Exchanges.AnsweredExactly`).
* The end that closes second is found by calls that transmit. A SYN that brings the FIN along and acknowledges nothing
  is taken by a branch that does not, so after a simultaneous open of that kind the end lingers although its peer
  ended first (`Closings.EndMissed`); without such a segment it does not (`Closings.SecondDoesNotLinger`), and
  `Closings.LingersExactly` is the condition for every run.
* `unwrap` adds in 64 bits, so near 2^64 it may leave the closest number for a tiny one
  (`WrappingIntegers.ClosestExactly`, `WrappingIntegers.OverflowMisses`).
* The header says that the capacity limits reassembled and waiting bytes together. The reassembler's window starts
  at the next byte to write and not at the first unread byte, so this fails exactly while something is unread
  (`Reassembly.CapacityHolds`), and holds for a peer that respects the window (`Reassembly.PolitePush`).

## Model

| member | source | states |
|---|---|---|
| `WrappingIntegers.Minus` | libsponge/wrapping_integers.hh:47 | the difference is a signed 32-bit number that leads back from `b` to `a` |
| `WrappingIntegers.WrapAgrees` | libsponge/wrapping_integers.cc:16-24 | two numbers wrap alike exactly when they are whole turns apart |
| `WrappingIntegers.UnwrapIsClosest` | libsponge/wrapping_integers.cc:36-45 | short of a 64-bit overflow the result wraps back to `n`, and no other number that does is closer to the checkpoint |
| `WrappingIntegers.ClosestExactly` | libsponge/wrapping_integers.cc:36-45 | for every 64-bit checkpoint, the result is the closest number exactly when the addition does not overflow |
| `WrappingIntegers.OverflowMisses` | libsponge/wrapping_integers.cc:36-45 | at the last 64-bit checkpoint the number just below it is missed |
| `WrappingIntegers.UnwrapWrapExactly` | libsponge/wrapping_integers.cc:36-45 | for every 64-bit checkpoint, `unwrap` undoes `wrap` exactly for the numbers within reach |
| `WrappingIntegers.UnwrapWrap` | libsponge/wrapping_integers.cc:36-45 | a turn or more below 2^64, within reach means less than half a turn away, or below 2^32 |
| `ByteStreams.ReadsAreInOrder` | libsponge/byte_stream.cc:18-68 | over any history everything read, end to end, is the front of everything accepted |
| `ByteStreams.ByteStream.Write` | libsponge/byte_stream.cc:18-36 | the longest prefix that fits is appended; its length is returned |
| `ByteStreams.ByteStream.PeekOutput` | libsponge/byte_stream.cc:39-42 | the front of the buffer, as much as asked for and there |
| `ByteStreams.ByteStream.PopOutput` | libsponge/byte_stream.cc:45-55 | that much is taken off and nothing else changes |
| `ByteStreams.ByteStream.Read` | libsponge/byte_stream.cc:61-68 | the bytes returned are those taken off |
| `ByteStreams.ByteStream.RemainingCapacity` | libsponge/byte_stream.cc:92 | capacity less the bytes accepted and not yet read |
| `ByteStreams.ByteStream.Eof` | libsponge/byte_stream.cc:83 | input ended and everything accepted was read |
| `Reassembly.PushAgrees` | libsponge/stream_reassembler.cc:21-68 | slices of one stream leave only bytes of that stream, in their places, in output and waiting map |
| `Reassembly.PushDelivers` | libsponge/stream_reassembler.cc:44-68 | a slice that starts by the next byte and fits is written out whole |
| `Reassembly.PushProgress` | libsponge/stream_reassembler.cc:44-68 | data that holds the next byte gets at least that byte written if there is room |
| `Reassembly.PushAt` | libsponge/stream_reassembler.cc:24-68 | a push changes exactly the indices that the data covers inside the window, and there the data wins |
| `Reassembly.PushMaximal` | libsponge/stream_reassembler.cc:44-68 | no byte that could be written is left waiting |
| `Reassembly.PushFilled` | libsponge/stream_reassembler.cc:24-68 | with room for the stream, a state fixed by the indices that arrived goes to the one fixed by these and the new ones |
| `Reassembly.RunDescribed` | libsponge/stream_reassembler.cc:21-88 | with room for the stream, output, waiting bytes and end flag are fixed by which indices arrived |
| `Reassembly.OrderIndependence` | libsponge/stream_reassembler.cc:21-88 | reordering, repeating and reading at other times change none of them |
| `Reassembly.CountIsSize` | libsponge/stream_reassembler.cc:36-40 | counting each index once gives the size of the waiting map |
| `Reassembly.EmitConserves` | libsponge/stream_reassembler.cc:59-67 | writing out moves bytes from waiting to buffered and neither loses nor repeats one |
| `Reassembly.CapacityHolds` | libsponge/stream_reassembler.hh:37-45 | no push can take buffered and waiting bytes past the capacity exactly when nothing is buffered |
| `Reassembly.FloodKeeps` | libsponge/stream_reassembler.cc:24-41 | the push that does it: a full window on top of whatever is buffered |
| `Reassembly.PolitePush` | libsponge/stream_reassembler.hh:37-45 | data inside the advertised window keeps them within the capacity |
| `Reassembly.InsideKept` | libsponge/stream_reassembler.hh:37-45 | with no byte waiting past the advertised window, memory is within the capacity |
| `StreamReassemblers.SlotIsRemainder` | libsponge/stream_reassembler.cc:31 | the slot of an index is its remainder by the capacity |
| `StreamReassemblers.RingStore` | libsponge/stream_reassembler.cc:31-40 | storing in a slot adds one byte to what the ring holds and disturbs no other |
| `StreamReassemblers.RingRelease` | libsponge/stream_reassembler.cc:60-66 | clearing the first slot slides the window on by one |
| `StreamReassemblers.StreamReassembler.Store` | libsponge/stream_reassembler.cc:24-41 | first loop: the clipped data is merged, new data winning |
| `StreamReassemblers.StreamReassembler.FindAvailable` | libsponge/stream_reassembler.cc:44-46 | second loop: the end of the longest run at the front of the window |
| `StreamReassemblers.StreamReassembler.Collect` | libsponge/stream_reassembler.cc:52-56 | third loop: the bytes of that run, in order |
| `StreamReassemblers.StreamReassembler.Release` | libsponge/stream_reassembler.cc:60-67 | fourth loop: exactly the written bytes leave the ring and the count |
| `StreamReassemblers.StreamReassembler.Commit` | libsponge/stream_reassembler.cc:49-68 | third and fourth loop: the bytes that fit are appended to the output and leave the ring |
| `StreamReassemblers.StreamReassembler.Submit` | libsponge/stream_reassembler.cc:44-68 | what fits of the run is written, the rest stays |
| `StreamReassemblers.StreamReassembler.PushSubstring` | libsponge/stream_reassembler.cc:21-88 | ring, bitmap and counters compute the map-based step; the count of waiting bytes is the map's size |
| `Receivers.AcknoCounts` | libsponge/tcp_receiver.cc:100-114 | the acknowledgement is one plus the bytes written, plus one exactly when the input has ended |
| `Receivers.RightEdge` | libsponge/tcp_receiver.cc:100-125 | acknowledgement plus window is 1 + capacity + bytes read, plus one once the FIN is assembled |
| `Receivers.ReceiveResolves` | libsponge/tcp_receiver.cc:28-45 | the wire number is resolved to the true absolute number |
| `Receivers.ReceiveTracks` | libsponge/tcp_receiver.cc:13-97 | any slice keeps output, waiting bytes, FIN position and end index in agreement; nothing moves back |
| `Receivers.ReceiveDelivers` | libsponge/tcp_receiver.cc:66-94 | a slice within the window and touching its left edge is acknowledged to its end, FIN included |
| `Receivers.ReceiveProgress` | libsponge/tcp_receiver.cc:66-94 | a slice that reaches past the left edge moves it on unless the window is closed |
| `Receivers.ReceiveKeeps` | libsponge/tcp_receiver.cc:66-94 | every byte of a slice that reaches into the window, in order or not, is written or waiting afterwards, and nothing else changes |
| `Receivers.ReceiveIgnores` | libsponge/tcp_receiver.cc:66-71 | a segment outside the window leaves no trace but the initial number |
| `Receivers.FinNoted` | libsponge/tcp_receiver.cc:75-81 | the FIN position is taken exactly from a FIN that reaches into the window and ends inside it |
| `Receivers.FlagMeans` | libsponge/tcp_receiver.cc:35-71 | exactly when the returned flag is set |
| `Receivers.RunTracks` | libsponge/tcp_receiver.cc:13-125 | for any arrival order of identifiable slices neither acknowledgement nor right edge retracts |
| `Receivers.ShortDeliverable` | libsponge/tcp_receiver.cc:42-45 | every slice of a stream below 2^31 - 2 bytes can be delivered at any time |
| `Receivers.ReceiverCorrect` | libsponge/tcp_receiver.cc:75-114 | output is a prefix of the stream; the input has ended exactly when the FIN is acknowledged, and then the whole stream is written |
| `Receivers.HistoryFixed` | libsponge/tcp_receiver.cc:13-97 | with room for SYN, stream and FIN, output, waiting bytes, FIN and end are fixed by which numbers arrived since the SYN |
| `Receivers.HistoriesAlike` | libsponge/tcp_receiver.cc:13-114 | so reordering, repeating and reading at other times change neither these nor the acknowledgement |
| `Receivers.TCPReceiver.SegmentReceived` | libsponge/tcp_receiver.cc:13-97 | stored ISN, FIN position, reassembler and returned flag are those of the value model, on every branch; what they amount to say `ReceiveKeeps`, `ReceiveIgnores`, `FinNoted`, `FlagMeans` and `HistoryFixed` |
| `Receivers.TCPReceiver.AbsAckno` | libsponge/tcp_receiver.cc:100-114 | the acknowledgement of the value model, which counts SYN, bytes written and an assembled FIN |
| `Receivers.TCPReceiver.Ackno` | libsponge/tcp_receiver.cc:116-123 | none before the SYN, else that number wrapped |
| `Receivers.TCPReceiver.WindowSize` | libsponge/tcp_receiver.cc:125 | the room left in the output stream |
| `Senders.TurnShrinks` | libsponge/tcp_sender.cc:54-77 | every turn of the loop uses up at least one free number, so it ends |
| `Senders.SendDataInv` | libsponge/tcp_sender.cc:56-76 | a new segment carries the next bytes, and the FIN only at the end; the outstanding queue still tiles its range |
| `Senders.FillLoopInv` | libsponge/tcp_sender.cc:51-78 | the loop never passes the free space and stops only with it used up or nothing left and the FIN out |
| `Senders.ProbeInv` | libsponge/tcp_sender.cc:79-96 | a zero-window probe takes exactly one number |
| `Senders.FillInv` | libsponge/tcp_sender.cc:28-97 | new segments join both queues alike, each of at least one number and at most 1000 bytes, at most one with a FIN, the last |
| `Senders.FillMaximal` | libsponge/tcp_sender.cc:50-78 | with an open, unretracted window it is filled to the edge or everything is sent |
| `Senders.FullSegments` | libsponge/tcp_sender.cc:54-77 | the loop sends segments of a thousand bytes, except the last |
| `Senders.FillQuiet` | libsponge/tcp_sender.cc:28-97 | with nothing in flight afterwards, no byte and no FIN is owed |
| `Senders.FrontSyn` | libsponge/tcp_sender.cc:39-41 | the SYN is at the front exactly while nothing is acknowledged |
| `Senders.IdleFreeSpace` | libsponge/tcp_sender.cc:113-116 | with nothing in flight the free space is the advertised window |
| `Senders.SettleInv` | libsponge/tcp_sender.cc:113-163 | popping keeps the tiling; the oldest number moves up, not past the acknowledgement; the 16-bit free space is the edge less the next number |
| `Senders.AckPops` | libsponge/tcp_sender.cc:119-144 | an acknowledgement of the front segment takes the oldest number past it |
| `Senders.AckPopsExactly` | libsponge/tcp_sender.cc:119-144 | the oldest number moves exactly for an acceptable number that covers the front segment |
| `Senders.AckInv` | libsponge/tcp_sender.cc:101-166 | whatever number arrives, the invariant holds and nothing sent is taken back |
| `Senders.AckTaken` | libsponge/tcp_sender.cc:106-116 | exactly the numbers from the oldest outstanding to the next are acted on, repeated ones too, and set the window |
| `Senders.AckTimer` | libsponge/tcp_sender.cc:126-138 | timeout, count and clock start afresh exactly when something is popped, and are left alone otherwise |
| `Senders.TickInv` | libsponge/tcp_sender.cc:170-196 | a tick keeps the invariant; what it queues again is an unchanged slice |
| `Senders.TicksAddUp` | libsponge/tcp_sender.cc:173-180 | two ticks short of the timeout count as one |
| `Senders.ExpiresExactly` | libsponge/tcp_sender.cc:173-180 | the timer goes off exactly with something outstanding and the timeout reached |
| `Senders.BacksOffExactly` | libsponge/tcp_sender.cc:180-195 | a retransmission counts and doubles the timeout exactly with an open window or the SYN waiting; otherwise the pace stays |
| `Senders.TickBackedOff` | libsponge/tcp_sender.cc:177-195 | a tick keeps the back-off law: one doubling per counted retransmission, each after a timeout waited in full |
| `Senders.AckBackedOff` | libsponge/tcp_sender.cc:133-137 | an acknowledgement keeps it too: a popped segment resets timeout, count and clock together |
| `Senders.FillWithinEdge` | libsponge/tcp_sender.cc:50-96 | filling the window does not pass the edge but for a probe |
| `Senders.AckWithinEdge` | libsponge/tcp_sender.cc:113-165 | nor does acting on an acknowledgement that retracts nothing |
| `Senders.OverrunsExactly` | libsponge/tcp_sender.cc:147-165 | exactly when the 16-bit subtraction lets the sender pass the edge it was just given |
| `Senders.FillOverruns` | libsponge/tcp_sender.cc:28-78 | with an open window, filling sends exactly when the SYN is through, work is left and the free space is not zero |
| `TCPSenders.TCPSender.SendSegment` | libsponge/tcp_sender.cc:218-238 | numbering, counters, both queues and timer as in the value model |
| `TCPSenders.TCPSender.FillLoop` | libsponge/tcp_sender.cc:54-77 | the loop computes the value model's recursion |
| `TCPSenders.TCPSender.FillWindow` | libsponge/tcp_sender.cc:28-97 | every branch of the value model, invariant kept |
| `TCPSenders.TCPSender.AckValid` | libsponge/tcp_sender.cc:209-215 | the test on unwrapped numbers is oldest unacknowledged <= number <= next |
| `TCPSenders.TCPSender.PopAcked` | libsponge/tcp_sender.cc:119-144 | the loop on wrapped numbers pops exactly the segments that end by the acknowledgement |
| `TCPSenders.TCPSender.RecomputeFreeSpace` | libsponge/tcp_sender.cc:147-159 | the truncated four-term expression is the edge less the next number, in 16 bits |
| `TCPSenders.TCPSender.AckReceived` | libsponge/tcp_sender.cc:101-166 | validation, popping, free space, timer stop and refill equal the value step at the unwrapped number |
| `TCPSenders.TCPSender.Retransmit` | libsponge/tcp_sender.cc:182-194 | the oldest segment is queued again unchanged; count and timeout change only with an open window or the SYN |
| `TCPSenders.TCPSender.Tick` | libsponge/tcp_sender.cc:170-196 | the value model's tick; the queue read from is never empty |
| `TCPSenders.TCPSender.SendEmptySegment` | libsponge/tcp_sender.cc:201-206 | an empty segment at the next number joins the transmit queue only |
| `Network.StepInv` | libsponge/tcp_sender.cc:28-238 | every event of the joined system keeps its invariant |
| `Network.EndToEnd` | libsponge/tcp_receiver.cc:13-114 | in every run: prefix, ended means all, oldest unacknowledged <= acknowledgement <= next, and every segment acknowledged to its end is assembled byte for byte |
| `Network.ShortStreamsResolve` | libsponge/wrapping_integers.cc:36-45 | below 2^31 - 2 bytes everything in the network can be delivered |
| `Network.NewestAck` | libsponge/tcp_receiver.cc:100-125 | each acknowledgement emitted is at or above every one emitted before, in number and in right edge, whatever became of those |
| `Network.LogStep` | libsponge/tcp_sender.cc:101-116 | acknowledgements delivered in the order of emission move neither number nor edge back |
| `Network.FlowControl` | libsponge/tcp_sender.cc:51-159 | with acknowledgements delivered in the order of emission, lost or repeated, the sender is within the edge, a one-number probe aside, and within what the receiver granted; the free space is the edge less the next number modulo 2^16 |
| `Network.FewInFlight` | libsponge/tcp_sender.cc:209-226 | in such a run no more is in flight than the window and one segment |
| `Network.MemoryBounded` | libsponge/tcp_receiver.cc:66-94 | in such a run buffered and waiting bytes stay within the receiver's capacity, and what is in the network ends by its right edge or is a one-number probe at it |
| `Network.StaleAckOverruns` | libsponge/tcp_sender.cc:156-158 | a run of this sender and this receiver, its last two acknowledgements swapped, that sends past all the receiver has room for |
| `Network.RoundAdvances` | libsponge/tcp_sender.cc:119-196 | timeout, delivery and acknowledgement take the oldest number past the segment |
| `Network.Progress` | libsponge/tcp_sender.cc:119-196 | at most n + 2 such rounds, after which everything is acknowledged and delivered |
| `Network.RoundAvailable` | libsponge/tcp_sender.cc:28-97 | until an ended stream is fully acknowledged, filling leaves a segment to retransmit |
| `Network.AttemptAdvances` | libsponge/tcp_sender.cc:101-196 | fill, read, time out within the timeout, deliver, acknowledge: always possible, and something more is assembled or acknowledged |
| `Network.CompletionReachable` | libsponge/tcp_sender.cc:28-196 | from every sound state of an ended short stream some run delivers and acknowledges all of it |
| `Connections.RunInv` | libsponge/tcp_connection.cc:29-235 | the sender's invariant, its timer law and its quietness hold in every run, whatever the peer sends, destruction included |
| `Connections.NextShutdown` | libsponge/tcp_connection.cc:237-259 | a call makes a connection inactive, or stop lingering, only for the reasons given; the time since the last segment is counted exactly |
| `Connections.CleanShutdown` | libsponge/tcp_connection.cc:237-259 | an orderly end means peer ended, all bytes and FIN acknowledged, and peer first or ten timeouts of silence |
| `Connections.LingeringEnds` | libsponge/tcp_connection.cc:249-256 | once both sides are done a tick closes the connection exactly when it need not linger any longer |
| `Connections.BackOff` | libsponge/tcp_sender.cc:180-195 | in every run the timeout is rt_timeout doubled once per consecutive retransmission, at most nine times, and that much time was waited |
| `Connections.GiveUp` | libsponge/tcp_connection.cc:146-150 | a tick gives up at the ninth retransmission and no sooner than 511 timeouts after the last acknowledged segment |
| `Connections.AckFlagIgnored` | libsponge/tcp_connection.cc:95-116 | an established connection treats a segment alike with and without the ACK flag |
| `Connections.PopsWithoutFlag` | libsponge/tcp_connection.cc:95-116 | exactly when a segment, flag or no flag, takes something for acknowledged |
| `Connections.DeadWrite` | libsponge/tcp_connection.cc:120-133 | exactly when a write on a dead connection still hands out segments |
| `Openings.WriteAfterReset` | libsponge/tcp_connection.cc:66-133 | after a simultaneous open and any reset, a write on the dead connection hands out what was still queued |
| `Exchanges.HeardExactly` | libsponge/tcp_connection.cc:43-95 | exactly which segments the receiver gets to see, and that no other changes it |
| `Exchanges.NumbersAnswered` | libsponge/tcp_connection.cc:95-116 | a segment that takes up numbers is answered: with nothing left to send, the last segment out is empty, stands at the next number and acknowledges all the receiver now has |
| `Exchanges.AnsweredExactly` | libsponge/tcp_connection.cc:100-116 | exactly when such a segment is answered at all; not while data waits behind a full window |
| `Exchanges.ArrivalHandsOut` | libsponge/tcp_connection.cc:95-116 | what an arrival hands out, in order: the queue, what it makes outstanding, and the empty answer |
| `Exchanges.ListenerAnswers` | libsponge/tcp_connection.cc:43-52 | a listening end answers a SYN with its own, acknowledging it, and ignores the rest |
| `Exchanges.SynSentFilters` | libsponge/tcp_connection.cc:59-91 | waiting for a SYN: data and segments without SYN and ACK ignored, a bare SYN queues an empty segment, an acknowledged reset ends in silence |
| `Exchanges.ResetEnds` | libsponge/tcp_connection.cc:108-113 | a reset ends an established connection at once, with one reset in return |
| `Exchanges.DestructorResets` | libsponge/tcp_connection.cc:171-188 | destroying an active connection hands out one reset, destroying a dead one nothing |
| `Exchanges.ResetsExactly` | libsponge/tcp_connection.cc:214-235 | a call hands out a reset exactly if it ends an active connection in failure, and as its first segment |
| `Exchanges.DeadIsSilent` | libsponge/tcp_connection.cc:32-33 | a dead connection that nobody writes to hands out nothing, whatever arrives and however long it waits |
| `Exchanges.CallsHandOut` | libsponge/tcp_connection.cc:120-168 | connect, write and end hand out, in order, exactly the queue and what they make outstanding |
| `Exchanges.WriteTakes` | libsponge/tcp_connection.cc:120-133 | the returned count is what the stream had room for, and that much of the data is appended |
| `Exchanges.TickHandsOut` | libsponge/tcp_connection.cc:137-154 | a tick that does not give up hands out the queue, and the oldest segment again exactly if the timer goes off |
| `Exchanges.OldestAgain` | libsponge/tcp_connection.cc:146-153 | with nothing queued, the oldest segment alone, freshly stamped |
| `Exchanges.GivesUpExactly` | libsponge/tcp_connection.cc:146-150 | a tick gives up exactly at the ninth counted retransmission in a row, with a reset first |
| `Exchanges.QueueEmptied` | libsponge/tcp_connection.cc:191-212 | after every call that transmits the sender's queue is empty |
| `Exchanges.NothingHeldBack` | libsponge/tcp_connection.cc:29-212 | in every run of an active connection everything outstanding has been handed out, and only empty segments wait |
| `Exchanges.FillExhausts` | libsponge/tcp_sender.cc:28-97 | a filled window has room for nothing that waits: filling again sends nothing |
| `Exchanges.NothingOwed` | libsponge/tcp_connection.cc:29-168 | in every run an end that has opened owes no byte, FIN or probe it could send now |
| `Closings.LingerStep` | libsponge/tcp_connection.cc:240-247 | a call calls lingering off exactly if it transmits and finds the peer ended and us not |
| `Closings.LingersExactly` | libsponge/tcp_connection.cc:240-247 | in every run the end lingers unless some such call was made |
| `Closings.SecondDoesNotLinger` | libsponge/tcp_connection.cc:240-247 | without a SYN that brings a FIN and no ACK, an active end has stopped lingering exactly if its peer ended first |
| `Closings.EndMissed` | libsponge/tcp_connection.cc:69-80 | with one, a run whose peer ends first and that lingers all the same |
| `Closings.ArrivalCloses` | libsponge/tcp_connection.cc:249-257 | with our stream done, a segment closes the connection exactly if the peer ended, all is acknowledged, and it need not linger |
| `Closings.SecondClosesAtOnce` | libsponge/tcp_connection.cc:237-259 | in every run whose peer ended first, the acknowledgement of everything closes the connection, without a tick |
| `TCPConnections.TCPConnection.SegmentReceived` | libsponge/tcp_connection.cc:29-117 | inactive, listening, SYN-sent and established branches, resets included, equal the value step; the invariant holds after |
| `TCPConnections.TCPConnection.Respond` | libsponge/tcp_connection.cc:100-116 | acknowledge, answer with an empty segment when nothing else goes out, then reset or transmit, as the value model does, whose answers `Exchanges.NumbersAnswered` and `Exchanges.ArrivalHandsOut` give |
| `TCPConnections.TCPConnection.Write` | libsponge/tcp_connection.cc:120-133 | the accepted count is returned (`Exchanges.WriteTakes`); the bytes are queued, segmented and handed out; nothing happens for empty data |
| `TCPConnections.TCPConnection.Tick` | libsponge/tcp_connection.cc:137-154 | clock, retransmission, give-up and transmission equal the value step, which `Exchanges.TickHandsOut` and `Exchanges.GivesUpExactly` spell out; the reset always finds a queued segment |
| `TCPConnections.TCPConnection.EndInputStream` | libsponge/tcp_connection.cc:156-161 | the outbound stream is ended, and the FIN is sent if the window allows |
| `TCPConnections.TCPConnection.Connect` | libsponge/tcp_connection.cc:164-168 | the SYN goes out, stamped with an acknowledgement if the peer is known |
| `TCPConnections.TCPConnection.Destroy` | libsponge/tcp_connection.cc:171-188 | an active connection queues an empty segment, turns it or an older one into a reset, and is dead |
| `TCPConnections.TCPConnection.DrainSender` | libsponge/tcp_connection.cc:193-210 | the loop moves every queued segment out, stamped with acknowledgement and window once the peer's SYN is known |
| `TCPConnections.TCPConnection.SendSenderSegments` | libsponge/tcp_connection.cc:191-212 | drain, then the clean-shutdown test |
| `TCPConnections.TCPConnection.UncleanShutdown` | libsponge/tcp_connection.cc:214-235 | both streams failed, inactive, the front segment sent as a reset |
| `TCPConnections.TCPConnection.CleanShutdown` | libsponge/tcp_connection.cc:237-259 | the linger and active flags change exactly as in the value model, whose meaning `Connections.CleanShutdown`, `Closings.LingersExactly` and `Closings.ArrivalCloses` give |
| `StateSummaries.SenderSummaryMeans` | libsponge/tcp_helpers/tcp_state.cc:94-110 | each counter-based summary holds exactly when SYN and FIN are sent, outstanding or acknowledged as its name says |
| `StateSummaries.ReceiverSummaryMeans` | libsponge/tcp_helpers/tcp_state.cc:82-92 | each receiver summary holds exactly for what its acknowledgement covers: nothing, the bytes, the FIN too |
| `StateSummaries.HandshakeStates` | libsponge/tcp_connection.cc:43-60 | the two states asked for on arrival are the official LISTEN and SYN_SENT, by counters and by what is outstanding |
| `StateSummaries.SummaryForward` | libsponge/tcp_helpers/tcp_state.cc:94-110 | in any run without late write or error the sender's state only moves forward |
| `StateSummaries.LateWrite` | libsponge/tcp_helpers/tcp_state.cc:101-105 | a write sends the state back exactly after the FIN, into an emptied stream with room |
| `StateSummaries.LateWriteHappens` | libsponge/tcp_helpers/tcp_state.cc:101-105 | open, acknowledge, end, write: a run in which the state goes back |
| `StateSummaries.DeadIsClosedOrReset` | libsponge/tcp_helpers/tcp_state.cc:61-92 | a connection that dies, by destruction too, is in state CLOSED, or RESET if it failed |
| `Endpoints.NextHonest` | libsponge/tcp_connection.cc:191-235 | every call leaves only slices of the sent stream among the segments handed out |
| `Endpoints.BothWays` | libsponge/tcp_connection.cc:29-235 | over a lossy network both inbound streams are prefixes of the opposite outbound ones, and ended means all, for identifiable segments |
| `Endpoints.ShortReadable` | libsponge/wrapping_integers.cc:36-45 | whatever the network holds of a stream below 2^31 - 2 bytes is identifiable |
| `Acknowledgements.NextAdds` | libsponge/tcp_connection.cc:191-235 | whatever a call hands out, resets included, carries the ACK flag and the receiver's number and window after the call once the peer is known; before that only a reset carries the flag |
| `Acknowledgements.ArriveUna` | libsponge/tcp_connection.cc:29-117 | a segment acknowledges no more than its number says, and only if that pops something where acknowledgements are looked at |
| `Acknowledgements.PlayAcks` | libsponge/tcp_connection.cc:29-235 | every move of either end keeps acknowledgements truthful and acknowledged data assembled |
| `Acknowledgements.AckedIsAssembled` | libsponge/tcp_connection.cc:29-235 | in every history whose popping acknowledgements are vouched for: oldest unacknowledged <= peer's acknowledgement <= next, at every end that has not failed |
| `Acknowledgements.CleanCloseDelivers` | libsponge/tcp_connection.cc:237-259 | an end that is done and has not failed has delivered its whole stream, and received the whole of its peer's |
| `Acknowledgements.FlagsVouch` | libsponge/tcp_connection.cc:95-100 | for short streams it is enough that segments given to an end past its handshake have the ACK flag |
| `Acknowledgements.SynPopped` | libsponge/tcp_connection.cc:95-100 | with the ISN one below the wrap, a segment without acknowledgement pops an outstanding SYN |
| `Acknowledgements.StuckForever` | libsponge/tcp_connection.cc:29-212 | an end past its SYN never sends it again, so a peer that has not seen it never starts |
| `Acknowledgements.FlaglessSyn` | libsponge/tcp_connection.cc:66-105 | both ends open, one SYN lost, the other delivered twice: a SYN is held acknowledged that the peer never sees, in any continuation |
| `EndpointFlow.ArriveEdge` | libsponge/tcp_connection.cc:29-117 | a segment changes what the sender knows of its peer's window only by its acknowledgement, and only where that is looked at |
| `EndpointFlow.TurnLedger` | libsponge/tcp_connection.cc:29-235 | every turn keeps the ledger of promises rising and the sender within the last one delivered |
| `EndpointFlow.EndpointFlowControl` | libsponge/tcp_connection.cc:29-235 | when segments arrive in the order handed out, an endpoint that has not failed is within its peer's edge, a one-number probe aside |
| `Checksums.WeighConcat` | libsponge/util/util.cc:89-98 | adding in any pieces, odd lengths too, is adding at once |
| `Checksums.FoldedStep` | libsponge/util/util.cc:103-105 | a fold makes the number smaller and keeps its one's-complement value |
| `Checksums.ChecksumCompletes` | libsponge/util/util.cc:100-108 | adding the checksum to the sum makes it check |
| `Checksums.SingleByteDetected` | libsponge/util/util.cc:89-108 | data that checks no longer does with one byte changed |
| `Checksums.InternetChecksum.Add` | libsponge/util/util.cc:89-98 | sum modulo 2^32 and parity after any data |
| `Checksums.InternetChecksum.Value` | libsponge/util/util.cc:100-108 | the loop ends with the one's complement of the residue modulo 65535 |
| `Checksums.NoOverflow` | libsponge/util/util.cc:89-98 | up to 65535 bytes and any pseudo-header the 32-bit sum loses nothing |
| `Checksums.ChecksumOf` | libsponge/util/util.cc:89-108 | two pieces added in turn give the checksum of both, in 32 bits, and without overflow the ideal one |
| `ChecksumFields.FieldChecks` | libsponge/tcp_helpers/tcp_segment.cc:30-45 | a checksum stored in a field it covers makes the whole check to zero |
| `ChecksumFields.FieldOffByOne` | libsponge/tcp_helpers/tcp_segment.cc:30-45 | one more than that checksum does not check |
| `Parsers.NumberDigits` | libsponge/util/parser.cc:53-60 | written numbers read back |
| `Parsers.DigitsNumber` | libsponge/util/parser.cc:26-43 | numbers read write back |
| `Parsers.NetworkOrder` | libsponge/util/parser.cc:53-60 | one, two and four bytes, most significant first |
| `Parsers.EncodeField` | libsponge/util/parser.cc:53-60 | each field of a record stands where the widths before it end |
| `Parsers.DecodeEncode` | libsponge/util/parser.cc:26-60 | a record of fixed-width fields decodes to itself and leaves what follows |
| `Parsers.DecodeShort` | libsponge/util/parser.cc:20-32 | input too short leaves the error set to the end |
| `Parsers.DecodeRest` | libsponge/util/parser.cc:26-51 | enough input is consumed to the byte, without error |
| `Parsers.NetParser.ParseInt` | libsponge/util/parser.cc:26-43 | big-endian number of the next bytes, or zero and nothing consumed after an error |
| `Parsers.NetParser.RemovePrefix` | libsponge/util/parser.cc:45-51 | skips, or sets the error and stays |
| `Parsers.UnparseInt` | libsponge/util/parser.cc:53-60 | appends the number's low bytes, most significant first |
| `TCPSegmentCodec.FieldsBack` | libsponge/tcp_helpers/tcp_header.cc:18-34 | the fields come back exactly when the data offset fits four bits |
| `TCPSegmentCodec.WrittenLayout` | libsponge/tcp_helpers/tcp_header.cc:51-78 | every field of a written header stands where section 3.1 of RFC 793 draws it; reserved bits and options are zero |
| `TCPSegmentCodec.ReadLayout` | libsponge/tcp_helpers/tcp_header.cc:17-48 | every field is read from there |
| `TCPSegmentCodec.HeaderRoundTrip` | libsponge/tcp_helpers/tcp_header.cc:17-78 | a serialized header parses to itself and leaves the payload, for offsets 5 to 15 |
| `TCPSegmentCodec.SegmentChecks` | libsponge/tcp_helpers/tcp_segment.cc:30-45 | a serialized segment checks to zero |
| `TCPSegmentCodec.SegmentRoundTrip` | libsponge/tcp_helpers/tcp_segment.cc:12-45 | it parses to the same segment with the checksum filled in |
| `TCPSegmentCodec.CorruptionDetected` | libsponge/tcp_helpers/tcp_segment.cc:12-17 | with any one byte changed it is refused as BadChecksum |
| `TCPSegmentCodec.AcceptsExactly` | libsponge/tcp_helpers/tcp_segment.cc:12-23 | accepted: the checksum is zero, twenty bytes are there, and as many as the offset claims |
| `TCPSegmentCodec.AcceptedHeader` | libsponge/tcp_helpers/tcp_segment.cc:19-22 | of what is accepted, the header parser found good exactly the offsets of five and more |
| `TCPSegmentCodec.ShortOffsetAccepted` | libsponge/tcp_helpers/tcp_header.cc:34-41 | any header with a smaller offset and the right checksum is accepted though reported HeaderTooShort |
| `TCPSegmentCodec.ReadHeader` | libsponge/tcp_helpers/tcp_header.cc:17-48 | header, result and remaining input of the value model |
| `TCPSegmentCodec.WriteHeader` | libsponge/tcp_helpers/tcp_header.cc:51-78 | the bytes of the value model, or refused when too short |
| `TCPSegmentCodec.WriteSegment` | libsponge/tcp_helpers/tcp_segment.cc:30-45 | the segment sealed with the 32-bit checksum of header and payload, for any length; the value model's bytes when the sum cannot overflow |
| `TCPSegmentCodec.ReadSegment` | libsponge/tcp_helpers/tcp_segment.cc:12-23 | 32-bit checksum first, then header and payload, the header's own result dropped, for any length |
| `IPv4Codec.FieldsBack` | libsponge/tcp_helpers/ipv4_header.cc:31-47 | the fields come back exactly when version, header length and offset fit their bits |
| `IPv4Codec.WrittenLayout` | libsponge/tcp_helpers/ipv4_header.cc:78-110 | every field of a written header stands where section 3.1 of RFC 791 draws it; the reserved flag and the options are zero |
| `IPv4Codec.ReadLayout` | libsponge/tcp_helpers/ipv4_header.cc:31-47 | every field is read from there |
| `IPv4Codec.HeaderComplaint` | libsponge/tcp_helpers/ipv4_header.cc:26-74 | which result the header parser gives for any bytes, the first complaint that applies |
| `IPv4Codec.PseudoIsWeight` | libsponge/tcp_helpers/ipv4_header.cc:112-131 | the pseudo checksum is the one's-complement sum of the twelve bytes drawn: addresses, zero, protocol, payload length |
| `IPv4Codec.PseudoInFront` | libsponge/tcp_helpers/ipv4_header.cc:114-131 | starting from it is summing with those bytes in front of the segment |
| `IPv4Codec.PseudoProtects` | libsponge/tcp_helpers/ipv4_header.cc:114-131 | a payload that checks under one pseudo-header does not under one that differs in a byte |
| `IPv4Codec.HeaderRoundTrip` | libsponge/tcp_helpers/ipv4_header.cc:23-110 | the header of a serialized datagram parses without error, checksum and length included |
| `IPv4Codec.DatagramRoundTrip` | libsponge/tcp_helpers/ipv4_datagram.cc:11-41 | a serialized datagram parses to itself with the checksum filled in |
| `IPv4Codec.AcceptsExactly` | libsponge/tcp_helpers/ipv4_datagram.cc:11-21 | accepted: every well-formed header, whatever its checksum, and ill-formed ones whose lengths match modulo 2^16 |
| `IPv4Codec.AcceptedHeader` | libsponge/tcp_helpers/ipv4_datagram.cc:11-21 | of what is accepted, the header parser found good exactly version 4, lengths that agree, and a checksum that checks |
| `IPv4Codec.BadHeaderAccepted` | libsponge/tcp_helpers/ipv4_datagram.cc:11-21 | a twenty-byte header with any version and any checksum is accepted if its length is right |
| `IPv4Codec.WrongChecksum` | libsponge/tcp_helpers/ipv4_header.cc:67-73 | a stored checksum off by one does not check |
| `IPv4Codec.ReadHeader` | libsponge/tcp_helpers/ipv4_header.cc:23-75 | header, result and remaining input of the value model, errors in the code's order, for any input |
| `IPv4Codec.ReadDatagram` | libsponge/tcp_helpers/ipv4_datagram.cc:11-21 | header and payload of the value model; PacketTooShort on a length mismatch, the header result dropped |
| `IPv4Codec.WriteDatagram` | libsponge/tcp_helpers/ipv4_datagram.cc:23-41 | the bytes of the value model, or refused on a wrong length, version or header size |
| `TCPOverIPv4.Encapsulation` | libsponge/tcp_helpers/tcp_over_ip.cc:26-90 | wrapped, serialized, parsed and unwrapped at the mirrored end, the segment is the same but for its checksum |
| `TCPOverIPv4.ListenLearnsPeer` | libsponge/tcp_helpers/tcp_over_ip.cc:54-63 | a listening end that gets a SYN mirrors its sender from then on |
| `TCPOverIPv4.HandedOnExactly` | libsponge/tcp_helpers/tcp_over_ip.cc:26-71 | exactly which datagrams are handed on, unchanged, connected and listening, and what a listening end learns |
| `TCPOverIPv4.WrapAddresses` | libsponge/tcp_helpers/tcp_over_ip.cc:75-90 | addresses, ports, lengths, flags and payload of the datagram, byte for byte where they stand |
| `TCPOverIPv4.WrapChecks` | libsponge/tcp_helpers/tcp_over_ip.cc:86-88 | with the pseudo-header of the datagram in front, the wrapped segment checks to zero |
| `TCPOverIPv4.AddressProtected` | libsponge/tcp_helpers/tcp_over_ip.cc:43-47 | under an address with one byte changed it is handed on to no one |
| `TCPOverIPv4.UnwrappedHeader` | libsponge/tcp_helpers/tcp_over_ip.cc:43-47 | a segment handed on had a good header exactly for an offset of five or more |
| `TCPOverIPv4.ShortOffsetUnwrapped` | libsponge/tcp_helpers/tcp_over_ip.cc:43-47 | one with a smaller offset from the peer is handed on as valid |
| `TCPOverIPv4.BadHeaderUnwrapped` | libsponge/tcp_helpers/tcp_over_ip.cc:43-47 | a datagram with a wrong version or a wrong header checksum delivers its segment all the same |
| `TCPOverIPv4.TCPOverIPv4Adapter.WrapTcpInIp` | libsponge/tcp_helpers/tcp_over_ip.cc:75-90 | ports, addresses, 16-bit length and 32-bit checksum filled in, for any length; below 2^16 bytes the value model's datagram, which `WrapAddresses` and `WrapChecks` pin down; refused for a short header |
| `TCPOverIPv4.TCPOverIPv4Adapter.UnwrapTcpInIp` | libsponge/tcp_helpers/tcp_over_ip.cc:26-71 | the value model's segment and adapter, every refusal included, on the 32-bit checksum |

## Left out

- WrappingIntegers.UnwrapWrap: is stated a turn below 2^64, the exact condition by `WrappingIntegers.UnwrapWrapExactly`.
- WrappingIntegers.UnwrapIsClosest: is stated short of a 64-bit overflow, the exact condition by `WrappingIntegers.ClosestExactly`.
- StreamReassemblers.StreamReassembler.PushSubstring: needs 64-bit indices not to overflow; past 2^64 - 1 the end index collides with its own marker.
- Receivers.TCPReceiver.SegmentReceived: needs 64-bit indices not to overflow while the segment is handled.
- Receivers.HistoryFixed: needs room for SYN, stream and FIN; with less, what is refused depends on when the owner reads, and `Receivers.ReceiveKeeps` says of each segment what is kept. So does HistoriesAlike.
- Senders.ExpiresExactly: is stated short of a turn of the 32-bit clock, as is `Senders.TicksAddUp`; the model wraps it.
- Senders.BacksOffExactly: is stated below the ninth doubling, where the 32-bit timeout does not overflow and the connection gives up.
- Exchanges.NumbersAnswered: is stated once the peer's SYN is known, as an acknowledgement needs it; `Exchanges.AnsweredExactly` covers the rest.
- Closings.SecondDoesNotLinger: excludes a SYN that brings a FIN and no ACK, as does `Closings.SecondClosesAtOnce`; `Closings.EndMissed` shows why, and `Closings.LingersExactly` covers every run.
- TCPSenders.TCPSender.AckValid: with nothing outstanding the code reads the front of an empty queue; the model uses the next number there. Needs at most 2^31 numbers in flight, beyond which 32 bits cannot identify the front segment.
- TCPSenders.TCPSender.PopAcked: needs at most 2^31 numbers in flight, for the same reason.
- TCPSenders.TCPSender.RecomputeFreeSpace: needs at most 2^31 numbers in flight, for the same reason.
- TCPSenders.TCPSender.AckReceived: needs at most 2^31 numbers in flight, for the same reason.
- TCPConnections.TCPConnection.SegmentReceived: needs what its receiver and its sender need.
- TCPConnections.TCPConnection.Respond: needs what its sender needs.
- Network.FlowControl: needs a receive capacity below 2^16; the window field cannot carry more. So do FewInFlight, MemoryBounded and EndpointFlow.EndpointFlowControl.
- Network.CompletionReachable: needs a stream below 2^31 - 2 bytes, so that everything in the network stays identifiable; it is stated of the pair and not of two complete endpoints.
- Network.RoundAdvances: lets no other event happen inside a round; `Network.Progress` lets any happen between rounds.
- Parsers.UnparseInt: covers the widths in use, up to four bytes.
- Sockets, threads, the event loop, file descriptors and the tun device.
- Name resolution; an address is an IP number and a port.
- Reference-counted buffers; a buffer is a sequence of bytes.
- The drop rates of the lossy adapter; the network loses, repeats and reorders as it likes.
- Printing, hexdumps, random initial sequence numbers and clocks.
- The ten official state names besides CLOSED and RESET; each is a fixed combination of the summaries modelled.
- ARP and the network interface; they are not part of the library.
