# A verified model of the sponge TCP/IP stack

A Dafny model of `libsponge`: a user-space TCP endpoint with the byte stream,
reassembler, receiver, sender and connection it is made of, the TCP wire format, and
below it an ARP-resolving network interface and a longest-prefix-match router.

## How it is built

Each component has a *model*: a datatype for its state and a function for each operation.
Where the program works by changing objects, there is also a *class* with the program's
fields and loops, whose methods are proved to take the abstract state `View()` from the
old value to the value of the model function. What the program promises is then proved
about the model functions, for all states and all runs.

| files | content |
|---|---|
| MachineIntegers, Options | machine integers, optional values |
| WrappingIntegers | 32-bit sequence numbers and 64-bit positions |
| ByteStreams | ring buffer and byte stream, refined to a FIFO with a log |
| Runs, Reassembly, StreamReassembler | the run list, its meaning as a partial map, the reassembler |
| TcpSegments, Receiving | segments, the receiver |
| Sending, TcpSender | the sender and its timer |
| Connecting, ConnectionRuns, TcpConnection | the endpoint, every run of one endpoint |
| Timing | the retransmission timer, silence and lingering over every run |
| Links, Protocol | two endpoints over an unreliable network, every run of both |
| Handshake, Progress, Completion | what such runs can still achieve: establishment, progress, delivery, shutdown |
| Checksum, NetParsers, TcpCodec | Internet checksum, integers on the wire, TCP segments |
| NetworkInterfaces, Routing, Routers | ARP, route tables, the router |

The main results:

- `Protocol.RunsAreSafe`, `Protocol.NothingIsForgotten` and `Protocol.ShutdownIsMutual`
  hold in every reachable state of two endpoints over a network that keeps every segment
  ever sent and may lose, repeat, delay and reorder them. The only demand on a delivery
  is that its 32-bit fields are not ambiguous (`Deliverable`): decoding them gives the
  position the writer meant. `WrappingIntegers.UnwrapInvertsWrap` says exactly when that
  is so.
- `Handshake.HandshakeEstablishes`, `Completion.EverythingCanArrive` and
  `Completion.CleanCloseIsPossible` say that these runs never get stuck: from every reachable
  state, as long as the next timeout would reset neither side (`Progress.CanRetry`) and the
  streams stay below 2^64 bytes, both streams can still arrive completely, and
  both sides can still close cleanly if both applications have. The continuation is built
  from local operations and deliveries of retransmitted segments and their answers; it needs
  no segment sent earlier.
- `Connecting.StepKeeps` holds for one endpoint fed arbitrary segments. The run theorems in
  ConnectionRuns build on it: state summaries, shutdown, lingering, back-off.
- `Timing.RetransmitsOnTime` and `Timing.ActiveExactly` say over every run when exactly a segment
  is sent again and when exactly an endpoint is up.
- `NetworkInterfaces.SubmittedIsPassedUp` and `Routers.ForwardsExactly` say what becomes of a
  datagram below TCP.
- `Reassembly.PushIsUnion` and its companions say that the edited run list is set union, and
  that popping one run per push is enough.
- `Sending.CutKeeps`, `Sending.FinIsLast` and `Sending.AckIsCumulative` say what the sender
  does with its window; the FIN-placement fault described in `libsponge/analysis.md` is ruled out.

## Conventions

- Absolute positions and byte counters are unbounded. The 64-bit arithmetic that the code
  relies on wrapping is written out: `unwrap`, the index of a segment at position zero,
  the end of a segment, and the two decrements of the segment size.
- `Outgoing.pos`, `Packet.pos`, `Packet.ackPos` and `Timer.sinceReset` are bookkeeping: the
  absolute positions behind 32-bit fields and the time since the last timer reset. No
  operation reads them where the program has no such value.
- The outbound queue of a connection and the frame queue of an interface are never popped in
  the model, so they record everything ever sent.
- The initial sequence number is a parameter. Capacities are positive, since the ring buffer
  divides by its capacity, and readers take at most what is buffered.
- IPv4 and ARP payloads are values; `None` stands for bytes that do not parse.
- A thrown exception is an outcome: `None` for an unserializable header, `false` for an
  interface number out of range.

Where the code and its comments differ, the model follows the code:

- the comment on header parsing lists a data offset below the minimum among the errors, but
  `TCPSegment::parse` ignores that verdict (`TcpCodec.ParseOutcome`, `TcpCodec.ShortOffsetAccepted`);
- only the first ARP request for a hop and the first address learnt are ever recorded
  (`NetworkInterfaces.AsksAgainExactly`, `NetworkInterfaces.FreshOnlyOnce`);
- a SYN may leave the window: a bare sender takes a short stream that has already ended along
  with it (`Sending.CutWithinWindow`, `Sending.EndedEarlyOverruns`), a connection only the FIN
  of an empty one (`ConnectionRuns.OverrunsExactly`, `ConnectionRuns.EndingUnopenedOverruns`);
- the comment on the byte stream says that nothing can be written after the end of input, but
  `ByteStream::write` does not look at the end mark; `TCPConnection::write` does
  (`Sending.WriteKeeps` says what that protects).

## Model

| member | source | states |
|---|---|---|
| WrappingIntegers.UnwrapIsNearest | libsponge/wrapping_integers.cc:26-34 | for every 32-bit n and isn and every 64-bit checkpoint, underflow included: the result wraps to n, no 64-bit position that wraps to n is closer to the checkpoint, and of two equally close ones it is the upper |
| WrappingIntegers.UnwrapInvertsWrap | libsponge/wrapping_integers.cc:11-34 | unwrap undoes wrap exactly when `Decodes` holds; that includes every position x and checkpoint c with -2^31 < x - c <= 2^31, and at the two ends of the 64-bit range also farther ones |
| ByteStreams.RingBuffer.constructor | libsponge/byte_stream.hh:17-20 | an empty ring of the given positive capacity |
| ByteStreams.RingBuffer.PushBackN | libsponge/byte_stream.hh:22-28 | the contents grow by exactly the given characters, also when they wrap around the end of the storage |
| ByteStreams.WriteWraps | libsponge/byte_stream.hh:22-28 | the two overwrites of a push append to the window of the ring wherever it starts |
| ByteStreams.RingBuffer.PopFrontN | libsponge/byte_stream.hh:30-33 | exactly the first n characters leave |
| ByteStreams.RingBuffer.PeekFrontN | libsponge/byte_stream.hh:35-41 | the first characters of the contents, across the wrap |
| ByteStreams.ByteStream.constructor | libsponge/byte_stream.cc:15-15 | an empty, open, error-free stream |
| ByteStreams.ByteStream.Write | libsponge/byte_stream.cc:17-22 | the log grows by the part that fits, whose length is returned |
| ByteStreams.ByteStream.PeekOutput | libsponge/byte_stream.cc:25-25 | the next buffered bytes |
| ByteStreams.ByteStream.PopOutput | libsponge/byte_stream.cc:28-31 | the read mark moves over exactly that many bytes |
| ByteStreams.ByteStream.Read | libsponge/byte_stream.cc:36-40 | peek and pop together |
| ByteStreams.ByteStream.EndInput | libsponge/byte_stream.cc:42-42 | only the end mark changes |
| ByteStreams.ByteStream.SetError | libsponge/byte_stream.hh:75-75 | only the error mark changes |
| ByteStreams.ByteStream.BufferSize | libsponge/byte_stream.cc:46-46 | how many accepted bytes are unread |
| ByteStreams.ByteStream.RemainingCapacity | libsponge/byte_stream.cc:56-56 | the capacity less the unread bytes |
| ByteStreams.ByteStream.Eof | libsponge/byte_stream.cc:50-50 | true exactly when input has ended and no byte is buffered |
| ByteStreams.RunAdvances | libsponge/byte_stream.cc:17-40 | over any legal sequence of operations the log grows by exactly the accepted bytes and the read mark by exactly the bytes read, which are that stretch of the log |
| ByteStreams.StreamConserves | libsponge/byte_stream.cc:17-50 | over any legal sequence of operations the bytes read followed by the bytes buffered are the initially buffered bytes followed by the accepted ones; end of file exactly when ended and empty |
| Runs.InsertSorted | libsponge/stream_reassembler.cc:26-83 | the run list stays sorted, disjoint, non-touching, free of empty runs and below the capacity limit, and every string stays as long as its range |
| Runs.InsertAt | libsponge/stream_reassembler.cc:26-83 | after an insertion exactly the old indices and the new range hold a byte; where both had one, which of the two survives is stated exactly |
| Runs.SwallowAt | libsponge/stream_reassembler.cc:73-83 | absorbing the runs a grown run covers loses and invents nothing |
| Runs.MergeAt | libsponge/stream_reassembler.cc:39-71 | the five overlap cases keep the stored byte unless the new range sticks out on both sides |
| Runs.TotalCountsCovered | libsponge/stream_reassembler.cc:116-116 | the byte count is the number of distinct indices stored |
| Runs.TotalFits | libsponge/stream_reassembler.cc:14-84 | sorted runs inside a window cannot hold more bytes than the window is wide |
| Reassembly.OutputKeeps | libsponge/stream_reassembler.cc:96-105 | one pop is enough: afterwards no run starts at the first missing index, and the write into the output is never truncated |
| Reassembly.PushKeepsValid | libsponge/stream_reassembler.cc:110-114 | every push keeps the invariant: runs in order inside the window with a gap above the assembled part, the next index equal to the bytes written |
| Reassembly.PushIsUnion | libsponge/stream_reassembler.cc:14-114 | for every segment without 64-bit overflow, the indices known afterwards are the old ones plus those of the segment that lie below the capacity limit, byte by byte |
| Reassembly.PushLearnsOnly | libsponge/stream_reassembler.cc:14-114 | for every segment, overflow or not, what a push adds to the known bytes are bytes of the segment at their index |
| Reassembly.StreamBytesStay | libsponge/stream_reassembler.cc:14-114 | segments cut from one stream leave every known byte equal to that stream's byte |
| Reassembly.PushEnds | libsponge/stream_reassembler.cc:86-94 | a FIN sets the end index, nothing else does, and the output ends only when assembly has reached it |
| Reassembly.NextIsFirstMissing | libsponge/stream_reassembler.cc:96-105 | the assembled part ends exactly at the first unknown index |
| Reassembly.WithinCapacity | libsponge/stream_reassembler.hh:30-43 | buffered plus unassembled bytes never exceed the capacity, each stored index counted once |
| StreamReassemblers.StreamReassembler.constructor | libsponge/stream_reassembler.cc:8-8 | nothing assembled, nothing stored |
| StreamReassemblers.StreamReassembler.Assemble | libsponge/stream_reassembler.cc:14-84 | the list edited in place becomes exactly the model's list, with the byte count kept right |
| StreamReassemblers.StreamReassembler.InsertInto | libsponge/stream_reassembler.cc:26-83 | the whole list surgery, for a full window also the empty run it briefly stores |
| StreamReassemblers.StreamReassembler.Position | libsponge/stream_reassembler.cc:26-30 | the search loop stops at the first run that does not end before the segment |
| StreamReassemblers.StreamReassembler.MergeInto | libsponge/stream_reassembler.cc:39-71 | the merged run and the change of the byte count |
| StreamReassemblers.StreamReassembler.SwallowFrom | libsponge/stream_reassembler.cc:73-83 | the erase loop and the final join, with the byte count |
| StreamReassemblers.StreamReassembler.CheckEndInput | libsponge/stream_reassembler.cc:86-94 | remembers the end and ends the output when it is reached |
| StreamReassemblers.StreamReassembler.Output | libsponge/stream_reassembler.cc:96-105 | moves the first run to the output if it is next |
| StreamReassemblers.StreamReassembler.PushSubstring | libsponge/stream_reassembler.cc:110-114 | the whole push, keeping the invariant |
| StreamReassemblers.StreamReassembler.UnassembledBytes | libsponge/stream_reassembler.cc:116-116 | the number of distinct indices stored but not assembled |
| Receiving.ReceivedKeepsValid | libsponge/tcp_receiver.cc:14-39 | for arbitrary segments the acknowledgment position is 1 + bytes written + (1 if input ended) |
| Receiving.EdgeIsAcceptanceLimit | libsponge/tcp_receiver.hh:50-65 | acknowledgment position plus window is the acceptance limit plus one, and one more once the FIN is assembled |
| Receiving.EdgeNeverMovesLeft | libsponge/tcp_receiver.cc:14-48 | for arbitrary segments and reads the right edge never moves left; a read moves it right by exactly what was read |
| Receiving.PushAppends | libsponge/tcp_receiver.cc:29-33 | assembling only appends to the output, so the difference of buffer sizes is what was assembled |
| Receiving.PositionIsNearest | libsponge/tcp_receiver.cc:30-30 | for every segment, whoever sent it: its position has its sequence number, counted from its own if it is a SYN, and is the nearest such to the acknowledgment |
| Receiving.ReceivesExactly | libsponge/tcp_receiver.cc:14-39 | for every segment without 64-bit overflow: nothing changes before a SYN; after it the known bytes are the old ones and those of the payload in the window from the segment's position on, and a FIN sets the end |
| Receiving.TCPReceiver.constructor | libsponge/tcp_receiver.cc:12-12 | waiting for a SYN, position one |
| Receiving.TCPReceiver.SegmentReceived | libsponge/tcp_receiver.cc:14-39 | the receiver after any segment, before and after the SYN |
| Receiving.TCPReceiver.Deliver | libsponge/tcp_receiver.cc:29-38 | acknowledges exactly what the push assembled, and the FIN once |
| Receiving.TCPReceiver.WindowSize | libsponge/tcp_receiver.cc:48-48 | the advertised window, which ends where acceptance ends |
| Receiving.TCPReceiver.Read | libsponge/tcp_receiver.hh:76-77 | bytes taken by the application, oldest first |
| Sending.CutFacts | libsponge/tcp_sender.cc:33-60 | a segment carries at most 1000 bytes and is cut short of that and of the buffer only by the window; a FIN only with all that is left, and it is empty only if nothing is left; when the stream drains without its due FIN the window is exactly full |
| Sending.CutWithinWindow | libsponge/tcp_sender.cc:33-53 | for a bare sender: a cut ends within the window if and only if it is not a SYN, on a window of at most one, of an already ended stream of at most 1000 bytes; the overrun is at most to position 1002 |
| Sending.EndedEarlyOverruns | libsponge/tcp_sender.cc:33-53 | and it does happen, for every such stream: one of n <= 1000 bytes ended before the sender sends anything goes out in one segment up to position n + 2 on the initial window of one |
| Sending.CutIsFromStream | libsponge/tcp_sender.cc:26-61 | the new segment carries the next bytes of the stream under their sequence number; next sequence number = SYN + bytes read + FIN; at most 65535 in flight |
| Sending.CutOneKeeps | libsponge/tcp_sender.cc:26-61 | one cut keeps the accounting, the tiling and the truthfulness of all segments |
| Sending.CutKeeps | libsponge/tcp_sender.cc:63-69 | the filling loop ends with the window full, or the stream drained and any due FIN sent, keeping all invariants |
| Sending.CutAppends | libsponge/tcp_sender.cc:21-24 | everything cut is queued for sending and kept for retransmission, in order |
| Sending.CutsInWindow | libsponge/tcp_sender.cc:63-69 | every segment cut by the loop except a SYN on an ended stream ends within the window |
| Sending.FinIsLast | libsponge/tcp_sender.cc:41-49 | the FIN is cut at most once, as the last segment, on an ended stream that it drains; afterwards nothing is cut |
| Sending.FillWindowKeeps | libsponge/tcp_sender.cc:63-75 | filling the window keeps every sender invariant; a running timer is left as it is, and a stopped one that is needed afterwards runs from zero at the initial timeout |
| Sending.DropTiles | libsponge/tcp_sender.cc:77-81 | dropping acknowledged segments leaves a gapless queue whose head straddles the acknowledged position |
| Sending.AckKeeps | libsponge/tcp_sender.cc:91-111 | any acknowledgment keeps every sender invariant |
| Sending.AckIsCumulative | libsponge/tcp_sender.cc:91-111 | one beyond what was sent is ignored; any other advances the mark if ahead, takes its window even if old, drops exactly the fully acknowledged segments and restarts the timer only if new |
| Sending.TickRetransmits | libsponge/tcp_sender.cc:116-134 | retransmits exactly on expiry, the oldest unacknowledged segment, doubling the timeout only if the window is open; every other tick adds its time to the waiting time and changes nothing else |
| Sending.TickKeeps | libsponge/tcp_sender.cc:129-134 | time passing keeps every sender invariant, so the stated preconditions of retransmission always hold |
| Sending.InFlightIffOutstanding | libsponge/tcp_sender.cc:19-24 | nothing in flight, an empty queue and a stopped timer are the same thing; at most 65535 are ever in flight |
| Sending.SendEmptyKeeps | libsponge/tcp_sender.cc:138-142 | a bare segment keeps every sender invariant |
| Sending.WriteKeeps | libsponge/tcp_sender.hh:88-88 | writing keeps every sender invariant if and only if it adds no bytes after the FIN was sent, which the stream itself does not prevent; before the end it always does |
| Sending.EndKeeps | libsponge/tcp_sender.hh:88-88 | ending the stream keeps every sender invariant |
| Sending.BackoffLaw | libsponge/tcp_sender.hh:34-36 | after k doublings the timeout is 2^k initial ones, and the expirations so far took 2^k - 1 of them |
| TcpSenders.RetransmissionTimer.constructor | libsponge/tcp_sender.hh:31-31 | a stopped timer |
| TcpSenders.RetransmissionTimer.Expired | libsponge/tcp_sender.hh:34-34 | running and waited at least the timeout |
| TcpSenders.RetransmissionTimer.Reset | libsponge/tcp_sender.hh:35-35 | back to the initial timeout |
| TcpSenders.RetransmissionTimer.Twice | libsponge/tcp_sender.hh:36-36 | doubles the timeout |
| TcpSenders.RetransmissionTimer.Start | libsponge/tcp_sender.hh:37-40 | runs, waiting from zero |
| TcpSenders.RetransmissionTimer.Stop | libsponge/tcp_sender.hh:41-41 | does not run |
| TcpSenders.RetransmissionTimer.Tick | libsponge/tcp_sender.hh:42-42 | waits longer |
| TcpSenders.TCPSender.constructor | libsponge/tcp_sender.cc:16-17 | nothing sent, window one |
| TcpSenders.TCPSender.BytesInFlight | libsponge/tcp_sender.cc:19-19 | at most 65535, zero exactly when nothing is outstanding and the timer is stopped |
| TcpSenders.TCPSender.PushSegment | libsponge/tcp_sender.cc:21-24 | the segment joins both queues |
| TcpSenders.TCPSender.AssembleSegment | libsponge/tcp_sender.cc:26-61 | one cut, with the position after it |
| TcpSenders.TCPSender.TakeSegment | libsponge/tcp_sender.cc:27-53 | the contents of a cut, with the wrapping subtractions |
| TcpSenders.TCPSender.CutEverything | libsponge/tcp_sender.cc:64-69 | the loop terminates and has cut what the model cuts |
| TcpSenders.TCPSender.FillWindow | libsponge/tcp_sender.cc:63-75 | the sender after filling, all invariants kept |
| TcpSenders.TCPSender.ClearBuffer | libsponge/tcp_sender.cc:77-87 | the loop drops the acknowledged prefix and stops an idle timer |
| TcpSenders.TCPSender.AckReceived | libsponge/tcp_sender.cc:91-111 | the sender after any acknowledgment, all invariants kept |
| TcpSenders.TCPSender.Retransmit | libsponge/tcp_sender.cc:116-126 | the oldest segment goes out again |
| TcpSenders.TCPSender.Tick | libsponge/tcp_sender.cc:129-134 | the sender after time has passed, all invariants kept |
| TcpSenders.TCPSender.SendEmptySegment | libsponge/tcp_sender.cc:138-142 | a bare segment at the next position |
| Connecting.NewConnection | libsponge/tcp_connection.cc:13-13 | a new endpoint satisfies the invariant |
| Connecting.FlushKeeps | libsponge/tcp_connection.cc:15-26 | flushing empties the sender's queue and everything ever sent still says what the outbound stream says |
| Connecting.SendRstKeeps | libsponge/tcp_connection.cc:81-85 | a reset changes nothing but what was sent |
| Connecting.AbortKeeps | libsponge/tcp_connection.cc:87-91 | aborting keeps the invariant and sends nothing |
| Connecting.AnswerKeeps | libsponge/tcp_connection.cc:120-128 | every acknowledgment is followed by filling the window, so nothing sendable is left unsent |
| Connecting.ReceiveKeeps | libsponge/tcp_connection.cc:103-155 | any segment, also a reset or one no honest peer sends, keeps the invariant and takes nothing back |
| Connecting.WriterKeeps | libsponge/tcp_connection.cc:164-177 | writing, ending and connecting keep the invariant |
| Connecting.GiveUpKeeps | libsponge/tcp_connection.cc:185-189 | giving up keeps the invariant |
| Connecting.TickStepKeeps | libsponge/tcp_connection.cc:180-198 | a tick keeps the invariant |
| Connecting.StepKeeps | libsponge/tcp_connection.cc:103-212 | every public operation with any argument keeps the invariant and takes nothing back |
| ConnectionRuns.SummaryIsExact | libsponge/tcp_helpers/tcp_state.cc:94-110 | the test next < written + 2 on a drained stream is the hidden FIN flag, and each of the six sender states is characterized by positions and flags |
| ConnectionRuns.ReceiverSummaryIsExact | libsponge/tcp_helpers/tcp_state.cc:82-92 | each of the four receiver states is characterized by the acknowledgment, FIN_RECV also before everything is read |
| ConnectionRuns.StepAdvances | libsponge/tcp_connection.cc:103-212 | no operation takes back anything the receiver has |
| ConnectionRuns.SummariesMoveForward | libsponge/tcp_helpers/tcp_state.cc:82-110 | over every run both summaries only move forward, with the error state absorbing |
| ConnectionRuns.AdvertisesWindow | libsponge/tcp_connection.cc:15-26 | the window field is the free space modulo 65536, so exact if and only if it fits 16 bits; with a capacity that fits, every segment advertises the right edge; nothing else of the segment changes but the acknowledgment |
| ConnectionRuns.AnswersExactly | libsponge/tcp_connection.cc:121-151 | how many segments an incoming one brings about: what the sender sends once a SYN has been seen, and one bare segment for a keep-alive or where sequence numbers are occupied and nothing else is sent |
| ConnectionRuns.AnswersInOrder | libsponge/tcp_connection.cc:15-26 | in which order, and that the bare one has nothing set but sequence number, acknowledgment and window |
| ConnectionRuns.StepWindow | libsponge/tcp_sender.cc:91-111 | the sender's window is the one of the last acknowledgment that is not beyond what was sent, zero and one told apart |
| ConnectionRuns.ResetIsAnnounced | libsponge/tcp_connection.cc:185-189 | exceeding the retry limit sends exactly one segment, a reset, and marks both streams |
| ConnectionRuns.CleanShutdown | libsponge/tcp_connection.cc:158-162 | inactive without error: FIN sent, every sequence number acknowledged, inbound stream ended and read |
| ConnectionRuns.LingersExactly | libsponge/tcp_connection.cc:191-195 | left alone after both streams are done, the connection is active through every sequence of ticks short of ten initial timeouts since the last segment and inactive with the tick that reaches them |
| ConnectionRuns.BackoffTakesTime | libsponge/tcp_sender.hh:23-43 | in every run of a new connection k consecutive backed-off retransmissions need at least (2^k - 1) initial timeouts of elapsed time |
| ConnectionRuns.NoEarlyAbort | libsponge/tcp_connection.cc:180-189 | in every run of a new connection the retry-limit abort comes no earlier than 511 initial timeouts |
| Timing.StepTimed | libsponge/tcp_connection.cc:103-212 | exactly what every operation does to timer and retries: only a new acknowledgment, an expiry or having had nothing outstanding sets back the waiting time, and otherwise it grows by the time elapsed |
| Timing.StepOnlyNew | libsponge/tcp_connection.cc:103-212 | unless a tick reaches the timeout nothing is sent again, and unless something new is acknowledged what is kept for retransmission stays |
| Timing.WaitsOutTheTimeout | libsponge/tcp_sender.cc:116-134 | over every run without a new acknowledgment and shorter than what is left of the timeout, whatever is written, ended, read or received: the waiting time is the time elapsed and nothing is sent again |
| Timing.RetransmitsOnTime | libsponge/tcp_connection.cc:180-198 | and the tick that then reaches the timeout sends the oldest segment again, and only that |
| Timing.TicksRetransmitExactly | libsponge/tcp_connection.cc:180-198 | however the time is cut into ticks: nothing is sent again before their sum reaches what is left of the timeout, and the oldest segment goes out with exactly the tick that reaches it |
| Timing.TickSender | libsponge/tcp_connection.cc:185-189 | giving up on the peer marks the stream and touches nothing else of the sender |
| Timing.RunSilence | libsponge/tcp_connection.cc:101-155 | over every run, told from the events alone: whether a SYN was heard, from which sequence number is counted, and how long the peer has been silent |
| Timing.LingersUntilTold | libsponge/tcp_connection.cc:130-137 | over every run: the endpoint lingers if and only if there was no reset either way, no FIN that found the outbound stream not at its end, and no ten timeouts of silence after both streams were done |
| Timing.RunErrors | libsponge/tcp_connection.cc:87-91 | over every run: the streams are marked together, exactly from a received reset or an exceeded retry limit on |
| Timing.ActiveExactly | libsponge/tcp_connection.cc:158-162 | over every run of a new connection, exactly when it is active and when it is in TIME_WAIT; in particular an endpoint that closes first does reach it |
| TcpConnections.TCPConnection.constructor | libsponge/tcp_connection.cc:13-13 | a new endpoint |
| TcpConnections.TCPConnection.SendSegmentWithInfo | libsponge/tcp_connection.cc:15-26 | the drain loop stamps and moves every segment, in order |
| TcpConnections.TCPConnection.SendFront | libsponge/tcp_connection.cc:16-25 | one segment stamped with acknowledgment and window |
| TcpConnections.TCPConnection.SendRst | libsponge/tcp_connection.cc:81-85 | a bare segment with the reset flag |
| TcpConnections.TCPConnection.DirtyAbort | libsponge/tcp_connection.cc:87-91 | both streams marked, no lingering |
| TcpConnections.TCPConnection.SegmentReceived | libsponge/tcp_connection.cc:103-155 | the endpoint after any segment |
| TcpConnections.TCPConnection.Reply | libsponge/tcp_connection.cc:120-128 | what the segment makes the sender do |
| TcpConnections.TCPConnection.NoteFin | libsponge/tcp_connection.cc:130-137 | a FIN that arrives before our stream is done ends lingering |
| TcpConnections.TCPConnection.Acknowledge | libsponge/tcp_connection.cc:139-148 | the bare acknowledgment, when one is owed |
| TcpConnections.TCPConnection.Active | libsponge/tcp_connection.cc:158-162 | agrees with the model's activity |
| TcpConnections.TCPConnection.Write | libsponge/tcp_connection.cc:164-177 | the endpoint after a write and how much was taken; nothing after the end |
| TcpConnections.TCPConnection.Tick | libsponge/tcp_connection.cc:180-198 | the endpoint after time has passed |
| TcpConnections.TCPConnection.GiveUp | libsponge/tcp_connection.cc:185-189 | reset and abort beyond the retry limit |
| TcpConnections.TCPConnection.CheckLinger | libsponge/tcp_connection.cc:191-195 | stops lingering when both streams are done and the peer was silent long enough |
| TcpConnections.TCPConnection.EndInputStream | libsponge/tcp_connection.cc:200-207 | the endpoint after the outbound stream was ended, once |
| TcpConnections.TCPConnection.Connect | libsponge/tcp_connection.cc:209-212 | the endpoint after opening |
| TcpConnections.TCPConnection.Read | libsponge/tcp_connection.hh:59-59 | the endpoint after the application has read |
| Links.PositionIsExact | libsponge/tcp_receiver.cc:30-30 | a segment of the peer's is decoded to the position it was cut at |
| Connecting.IsnIsKept | libsponge/tcp_receiver.cc:14-24 | a receiver has a sequence number to count from once it has seen a SYN, that of the last one |
| Links.HonestReceive | libsponge/tcp_receiver.cc:14-39 | a decoded segment of the peer's leaves all the receiver knows equal to the peer's stream and its end only at the peer's end |
| Links.StepStamps | libsponge/tcp_connection.cc:15-26 | every segment sent acknowledges where the receiver then is |
| Links.StepAcks | libsponge/tcp_sender.cc:91-104 | only an acknowledgment moves the acknowledged position, to where it decodes |
| Links.StepDrops | libsponge/tcp_sender.cc:77-81 | a segment is dropped from the queue only when all of it is acknowledged |
| Links.LinkWhenSenderSteps | libsponge/tcp_sender.cc:26-134 | whatever the sending side does, the two-party invariant of that direction is kept |
| Links.LinkWhenReceiverSteps | libsponge/tcp_receiver.cc:14-48 | whatever the receiving side does, the two-party invariant of that direction is kept |
| Links.LinkDelivers | libsponge/stream_reassembler.cc:14-114 | in a linked pair the receiver holds a prefix of what was sent and acknowledged <= receiver position <= next position |
| Links.AckedIsAssembled | libsponge/tcp_sender.cc:77-111 | a segment all of whose sequence numbers are acknowledged has been assembled, FIN included |
| Protocol.NextKeeps | libsponge/tcp_connection.cc:103-212 | every local operation and every delivery of any segment ever sent keeps the invariant of the whole system |
| Protocol.RunsAreSafe | libsponge/tcp_receiver.cc:14-39 | over every run with loss, repetition and reordering: each side has a prefix of what the other wrote, a stream ends only at the full length, and acknowledged <= receiver position <= next position |
| Protocol.NothingIsForgotten | libsponge/tcp_sender.cc:77-111 | over every run: a segment that leaves the outstanding queue has been assembled by the peer |
| Protocol.ShutdownIsMutual | libsponge/tcp_connection.cc:158-162 | over every run: when an endpoint has closed without error both streams have arrived complete and ended at the other side |
| ConnectionRuns.ResetIsObeyed | libsponge/tcp_connection.cc:104-110 | in every state a reset ends the connection at once, with both summaries in error and no answer |
| ConnectionRuns.WriterEffects | libsponge/tcp_connection.cc:164-212 | a write appends exactly the bytes that fit and nothing after the end, ending takes nothing away, opening sends |
| ConnectionRuns.PassiveCloserDoesNotLinger | libsponge/tcp_connection.cc:130-137 | over every error-free run after a FIN that found the outbound stream unfinished: the connection is active exactly until its own stream is acknowledged, FIN included, and the inbound one is read |
| ConnectionRuns.StepCuts | libsponge/tcp_connection.cc:120-212 | what an operation newly keeps for retransmission was cut by its one filling of the window |
| ConnectionRuns.UnopenedIsEmpty | libsponge/tcp_connection.cc:164-177 | a connection that has not sent its SYN has nothing to send, since writing sends it |
| ConnectionRuns.OverrunsExactly | libsponge/tcp_sender.cc:33-53 | over every run of a connection: a newly cut segment leaves the window if and only if it is SYN and FIN together, and that is the SYN and FIN of an empty stream and leaves it by exactly one |
| ConnectionRuns.EndingUnopenedOverruns | libsponge/tcp_connection.cc:200-207 | and it does happen: ending the outbound stream of any new connection sends SYN and FIN on a window of one |
| Handshake.OpenSendsSyn | libsponge/tcp_connection.cc:209-212 | opening a silent endpoint puts exactly its SYN on the wire |
| Handshake.SynBringsSyn | libsponge/tcp_connection.cc:126-128 | a SYN makes a closed endpoint answer with its own SYN, acknowledging the peer |
| Handshake.AckCompletesSyn | libsponge/tcp_connection.cc:120-148 | the acknowledgment of a SYN is taken, and a SYN that comes with it is acknowledged in turn |
| Handshake.HandshakeEstablishes | libsponge/tcp_connection.cc:103-212 | for all configurations: opening one side and delivering the three segments this brings about is a possible run, after which both directions are established |
| Progress.InOrderIsAssembled | libsponge/stream_reassembler.cc:14-114 | a segment that reaches back to the assembled part is assembled as far as there is room |
| Progress.DeliveryAdvances | libsponge/tcp_receiver.cc:14-39 | a segment that reaches back to the acknowledged position moves it past itself if it fits, and moves it on if there is room for anything |
| Progress.TimeoutResends | libsponge/tcp_connection.cc:180-198 | when the timeout passes below the retry limit the oldest outstanding piece of the stream is sent again, freshly stamped |
| Progress.AnswerIsFresh | libsponge/tcp_connection.cc:120-151 | a segment that occupies sequence numbers is answered by one at an unused position that acknowledges where the receiver then is |
| Progress.AckAdvances | libsponge/tcp_sender.cc:91-104 | a decodable acknowledgment of something sent moves the acknowledged position to it and gives back all retries |
| Progress.SomethingIsOutstanding | libsponge/tcp_sender.cc:63-75 | in every state between operations, a sender with anything left to say has a segment outstanding, zero windows included |
| Progress.PositionsAreClose | libsponge/tcp_sender.cc:91-111 | the receiver is always within 65535 of the acknowledged position, so its acknowledgments are never ambiguous |
| Progress.Round | libsponge/tcp_connection.cc:103-198 | from every state with a segment outstanding: reading, one retransmission, its delivery and the delivery of the answer are possible and move the acknowledged position |
| Progress.StampIsTaken | libsponge/tcp_sender.cc:91-104 | what the acknowledgment on a fresh segment does to the side it arrives at: a new one gives back all retries, an old one drops nothing |
| Completion.Refresh | libsponge/tcp_connection.cc:180-198 | a side that has used its last retry at a zero window can get all of them back, also when both have |
| Completion.SwappedRun | libsponge/tcp_connection.cc:103-212 | exchanging the two sides turns runs into runs |
| Completion.Drain | libsponge/tcp_connection.cc:103-198 | all that one side has written can still arrive |
| Completion.SynArrives | libsponge/tcp_connection.cc:103-212 | from every state in which the peer has heard nothing, the SYN can reach it |
| Completion.HearBack | libsponge/tcp_connection.cc:103-212 | once one side has been heard, it can hear the other |
| Completion.EverythingCanArrive | libsponge/tcp_connection.cc:103-212 | from every reachable state in which the next timeout would reset neither side, whatever was lost and whatever the windows and buffer sizes, the run can go on so that both streams arrive completely and with their ends |
| Completion.SilenceCloses | libsponge/tcp_connection.cc:191-195 | ten initial timeouts of silence close a side whose streams are both complete |
| Completion.CleanCloseIsPossible | libsponge/tcp_connection.cc:103-212 | from every reachable error-free state in which both applications have closed and the next timeout would reset neither side, the run can go on to a clean shutdown of both sides |
| Checksum.FoldLaw | libsponge/util/util.cc:100-108 | folding is reduction modulo 0xFFFF that yields zero only for zero |
| Checksum.ComplementFolds | libsponge/util/util.cc:100-108 | a sum that includes its own complement folds to all ones |
| Checksum.ComplementFits | libsponge/util/util.cc:89-108 | adding the complement never overflows the 32-bit accumulator |
| Checksum.ComplementIsCanonical | libsponge/util/util.cc:100-108 | of the fields that make a sum fold to all ones the complement is exactly the one that does not carry out of 32 bits and is all ones only for a zero sum |
| Checksum.InternetChecksum.constructor | libsponge/util/util.cc:87-87 | starts from the given sum, at an even byte |
| Checksum.InternetChecksum.Add | libsponge/util/util.cc:89-98 | adds the 16-bit words modulo 2^32, across calls with odd lengths |
| Checksum.InternetChecksum.Value | libsponge/util/util.cc:100-108 | the complement of the folded sum; zero exactly for a positive multiple of 0xFFFF |
| NetParsers.ParseUnparse | libsponge/util/parser.cc:26-60 | parsing undoes unparsing for every value that fits |
| NetParsers.UnparseParse | libsponge/util/parser.cc:26-60 | unparsing undoes parsing for every byte string |
| NetParsers.NetParser.CheckSize | libsponge/util/parser.cc:20-24 | running short is an error that sticks |
| NetParsers.NetParser.ParseInt | libsponge/util/parser.cc:26-43 | the big-endian value of the next bytes, or zero and nothing consumed after an error |
| NetParsers.NetParser.RemovePrefix | libsponge/util/parser.cc:45-51 | skips exactly that many bytes unless there was an error |
| NetParsers.UnparseInt | libsponge/util/parser.cc:53-60 | appends the big-endian bytes |
| TcpCodec.FixedRoundTrip | libsponge/tcp_helpers/tcp_header.cc:17-48 | the fixed fields of every header come back, with the verdict and what is skipped depending on the data offset |
| TcpCodec.HeaderRoundTrip | libsponge/tcp_helpers/tcp_header.cc:17-78 | every header with data offset 5 to 15 parses back to itself and leaves the rest |
| TcpCodec.FlagsRoundTrip | libsponge/tcp_helpers/tcp_header.cc:24-30 | the six flags survive the flag byte |
| TcpCodec.ChecksOut | libsponge/tcp_helpers/tcp_segment.cc:30-45 | the computed checksum makes header and tail check out, for every header, tail and pseudo-header sum |
| TcpCodec.SegmentRoundTrip | libsponge/tcp_helpers/tcp_segment.cc:12-45 | every segment with data offset 5 to 15 parses back to itself but for the checksum field, whatever its length and the pseudo-header sum |
| TcpCodec.RoundTripExactly | libsponge/tcp_helpers/tcp_segment.cc:12-45 | and no other segment does: the round trip holds if and only if the data offset is 5 to 15 |
| TcpCodec.ParseOutcome | libsponge/tcp_helpers/tcp_segment.cc:12-23 | the verdict for every input: bad checksum, too short, or no error, the last also for a data offset below five, since the header parser's verdict is ignored |
| TcpCodec.ShortOffsetAccepted | libsponge/tcp_helpers/tcp_segment.cc:12-23 | for every header with a data offset below five and every payload: with the checksum filled in the bytes are accepted with that payload, though the header parser rejects them, and what they parse to cannot be serialized |
| TcpCodec.FixedBack | libsponge/tcp_helpers/tcp_header.cc:17-78 | without reserved bits the fixed fields are written back as the bytes they were read from |
| TcpCodec.SerializesBackExactly | libsponge/tcp_helpers/tcp_segment.cc:12-45 | accepted bytes are serialized back to themselves if and only if the data offset is at least five, reserved and option bits are zero and the checksum is in canonical form |
| TcpCodec.ReadHeader | libsponge/tcp_helpers/tcp_header.cc:17-48 | the parsed header, the parser after it and its verdict |
| TcpCodec.WriteHeader | libsponge/tcp_helpers/tcp_header.cc:51-78 | the header bytes padded to the advertised size, an error for a data offset below five |
| TcpCodec.TCPSegment.Parse | libsponge/tcp_helpers/tcp_segment.cc:12-23 | verdict and contents; unchanged on a bad checksum |
| TcpCodec.TCPSegment.Serialize | libsponge/tcp_helpers/tcp_segment.cc:30-45 | the bytes on the wire, the object unchanged |
| NetworkInterfaces.RunKeeps | libsponge/network_interface.cc:63-123 | every run keeps the invariant; in particular no hop has both a fresh address and queued datagrams |
| NetworkInterfaces.RunsDeliver | libsponge/network_interface.cc:63-123 | over every run: what was submitted for a hop was emitted in exactly one frame each and in order or is still queued in order, every emission to an address announced for the hop less than 30000 ms before |
| NetworkInterfaces.SubmitConserves | libsponge/network_interface.cc:63-83 | a submitted datagram is emitted or queued behind the others |
| NetworkInterfaces.ReceiveConserves | libsponge/network_interface.cc:86-120 | flushing a queue on an ARP message loses and reorders nothing |
| NetworkInterfaces.AsksAgainExactly | libsponge/network_interface.cc:74-79 | once a hop has been asked for, a datagram makes the interface ask again if and only if its address is not fresh and five seconds have passed since the first request |
| NetworkInterfaces.NotRateLimited | libsponge/network_interface.cc:74-79 | requests for one hop can follow each other at once |
| NetworkInterfaces.FreshOnlyOnce | libsponge/network_interface.cc:100-100 | an address is fresh exactly in the 30 seconds after it was first learnt, never again |
| NetworkInterfaces.PassesUpExactly | libsponge/network_interface.cc:86-96 | a datagram is passed up if and only if the frame brings it and is for this interface's address or broadcast, and such a frame changes nothing |
| NetworkInterfaces.EmittedIsPassedUp | libsponge/network_interface.cc:86-120 | over every run of one interface: delivering all its frames to another passes up exactly what was emitted to that one's address, in order |
| NetworkInterfaces.SubmittedIsPassedUp | libsponge/network_interface.cc:63-120 | over every run in which what is announced about an interface is true: everything submitted for it is passed up by it, once each and in order, or is still queued |
| NetworkInterfaces.LearnsExactly | libsponge/network_interface.cc:97-109 | every ARP message that arrives, whoever it asks for, teaches its sender's address if none is known and releases what waits for it; nothing else does |
| NetworkInterfaces.KnowsFirstHeard | libsponge/network_interface.cc:97-100 | over every run, told from the events alone: the address known for a hop is the first one announced |
| NetworkInterfaces.FreshExactly | libsponge/network_interface.cc:67-71 | over every run, told from the events alone: it is fresh exactly in the 30 seconds after that |
| NetworkInterfaces.RemembersFirstAsk | libsponge/network_interface.cc:74-79 | over every run, told from the events alone: the time on record for a hop is that of the first datagram that found no fresh address |
| NetworkInterfaces.SubmitSendsExactly | libsponge/network_interface.cc:63-83 | over every run, told from the events alone: the one frame a datagram makes the interface send, or none |
| NetworkInterfaces.RequestsExactly | libsponge/network_interface.cc:63-83 | a request asks everyone, under the interface's own addresses |
| NetworkInterfaces.RepliesExactly | libsponge/network_interface.cc:111-115 | a reply goes out if and only if this interface's address is asked for, to the asker and with its own addresses |
| NetworkInterfaces.ResolutionCompletes | libsponge/network_interface.cc:63-116 | request, reply and release: the exchange between two interfaces sends everything queued, in order, to the right address |
| NetworkInterfaces.NetworkInterface.constructor | libsponge/network_interface.cc:17-18 | nothing known, nothing queued |
| NetworkInterfaces.NetworkInterface.SendDatagram | libsponge/network_interface.cc:63-83 | the interface after a submission |
| NetworkInterfaces.NetworkInterface.RecvFrame | libsponge/network_interface.cc:86-120 | the interface after any frame, and the datagram passed up: exactly that of an IPv4 frame for its address or broadcast |
| NetworkInterfaces.NetworkInterface.Learn | libsponge/network_interface.cc:100-109 | an address is learnt once and the queue is flushed in order |
| NetworkInterfaces.NetworkInterface.Tick | libsponge/network_interface.cc:123-123 | time passes |
| Routing.MaskByShift | libsponge/router.cc:30-46 | the direct shift and the shifting loop produce the same masks |
| Routing.BitsAreExact | libsponge/router.cc:30-46 | the bits by which routes and destinations are compared determine the address: reading them back gives the number |
| Routing.KeyIsProbe | libsponge/router.cc:25-47 | a table key is probed for a destination if and only if they share the prefix bits |
| Routing.LookupIsBest | libsponge/router.cc:19-56 | for every route list and destination the masked search finds what a naive scan for the longest matching prefix finds, the first added winning ties, default route included |
| Routing.BestIsLongest | libsponge/router.cc:34-38 | no matching route is longer than the chosen one, and none added before is as long |
| Routers.AgesByOne | libsponge/router.cc:40-41 | ageing takes one from the time to live, down to zero, and leaves all else alone |
| Routers.ForwardsExactly | libsponge/router.cc:39-56 | a datagram is forwarded if and only if its time to live exceeds one and some route matches; then by a matching route, none longer and none as long before it, to that route's interface, with one hop less to live and nothing else changed, for the route's next hop or else the destination |
| Routers.InRangeExactly | libsponge/router.cc:49-49 | an interface number out of range is an exception exactly if that route names it |
| Routers.HandoffsAreForwarded | libsponge/router.cc:58-67 | the same for any sequence of datagrams, in order |
| Routers.Router.constructor | libsponge/router.hh:47-52 | no interfaces, no routes |
| Routers.Router.AddInterface | libsponge/router.hh:63-66 | the interface joins with an empty queue and its index is returned |
| Routers.Router.RecvFrame | libsponge/router.hh:34-39 | the interface takes the frame, and exactly the datagram of an IPv4 frame for its address or broadcast is queued for routing |
| Routers.Router.AddRoute | libsponge/router.cc:19-32 | the table stays that of the routes added so far |
| Routers.Router.Search | libsponge/router.cc:43-54 | the shifting-mask loop finds the best route |
| Routers.Router.RouteOneDatagram | libsponge/router.cc:39-56 | the datagram is dropped or submitted, aged, to the interface and for the hop that the longest matching route says, and no other interface changes; a missing interface is an exception |
| Routers.Router.RouteFront | libsponge/router.cc:61-65 | one datagram leaves its queue |
| Routers.Router.RouteAll | libsponge/router.cc:58-67 | all queues are drained in order and the interfaces end as the submissions of exactly the datagrams to be forwarded, each by its longest matching route, leave them; an exception leaves the rest as it was |
| Routers.RoutedIsSentOrQueued | libsponge/router.cc:39-67 | whatever the interfaces have been through, each routed datagram leaves its interface in exactly one frame or waits there for its hop, behind what came before it |

## Left out

- Wrap-around of positions and byte counters past 2^64 bytes, and of times past 2^64 ms.
- Fairness, throughput and upper bounds on time: that a run can always complete is stated, not that a fair network makes it.
- Completion.EverythingCanArrive: nothing is claimed once eight retransmissions in a row have gone unanswered at an open window, since the next timeout then resets the connection.
- Sockets, TUN/TAP devices, file descriptors, the event loop, threads and the applications: system calls and plumbing.
- The byte codecs of IPv4, Ethernet and ARP: the same shape as the TCP codec, and easier.
- `Buffer` and `BufferList` sharing: payloads are plain byte sequences.
- The destructor's reset, debug output and the textual summaries.
- The official TCP state names: a table over the two summaries, which are modelled.
- `StreamReassembler::empty`: nothing in the program calls it.
- Routes with a prefix length above 32: the shift is undefined in the source.
