/** The sender as the program runs it. */
module TcpSenders {
  import opened MachineIntegers
  import opened WrappingIntegers
  import opened ByteStreams
  import opened TcpSegments
  import opened Sending

  class RetransmissionTimer {
    const initialRto: nat
    var rto: nat
    var timeWaited: nat
    var running: bool
    ghost var sinceReset: nat

    ghost function View(): Timer
      reads this
    {
      Timer(initialRto, rto, timeWaited, running, sinceReset)
    }

    constructor (initialRto: nat)
      ensures View() == Timer(initialRto, 0, 0, false, 0)
    {
      this.initialRto := initialRto;
      rto, timeWaited, running, sinceReset := 0, 0, false, 0;
    }

    predicate Expired()
      reads this
      ensures Expired() == View().Expired()
    {
      running && rto <= timeWaited
    }

    method Reset()
      modifies this
      ensures View() == old(View()).Reset()
    {
      rto := initialRto;
      sinceReset := 0;
    }

    method Twice()
      modifies this
      ensures View() == old(View()).Twice()
    {
      rto := rto * 2;
    }

    method Start()
      modifies this
      ensures View() == old(View()).Start()
    {
      running := true;
      timeWaited := 0;
    }

    method Stop()
      modifies this
      ensures View() == old(View()).Stop()
    {
      running := false;
    }

    method Tick(msSinceLastTick: nat)
      modifies this
      ensures View() == old(View()).Tick(msSinceLastTick)
    {
      timeWaited := timeWaited + msSinceLastTick;
      sinceReset := sinceReset + msSinceLastTick;
    }
  }

  class TCPSender {
    const isn: u32
    const timer: RetransmissionTimer
    const stream: ByteStream
    var segmentsOut: seq<Outgoing>
    var buffer: seq<Outgoing>
    var consecutiveRetransmissions: nat
    var nextSeqno: nat
    var seqnoAcked: nat
    var windowSize: u16
    var sentFin: bool

    ghost function Footprint(): set<object> {
      {this, timer} + stream.Footprint()
    }

    ghost predicate Coherent()
      reads this, timer, stream.Footprint()
    {
      this !in stream.Footprint() && timer !in stream.Footprint() && stream.Valid()
    }

    ghost function View(): Sender
      requires stream.Valid()
      reads this, timer, stream.Footprint()
    {
      Sender(isn, segmentsOut, buffer, timer.View(), consecutiveRetransmissions, stream.View(),
             nextSeqno, seqnoAcked, windowSize, sentFin)
    }

    ghost predicate Valid()
      reads this, timer, stream.Footprint()
    {
      Coherent() && View().Valid()
    }

    constructor (capacity: nat, retxTimeout: u16, isn: u32)
      requires 0 < capacity
      ensures Valid() && fresh(Footprint())
      ensures View() == NewSender(capacity, retxTimeout, isn)
    {
      this.isn := isn;
      timer := new RetransmissionTimer(retxTimeout);
      stream := new ByteStream(capacity);
      segmentsOut, buffer, consecutiveRetransmissions := [], [], 0;
      nextSeqno, seqnoAcked, windowSize, sentFin := 0, 0, 1, false;
    }

    function BytesInFlight(): (n: nat)
      requires Valid()
      reads this, timer, stream.Footprint()
      ensures n <= 65535 && (n == 0 <==> buffer == []) && (n == 0 <==> !timer.running)
    {
      InFlightIffOutstanding(View());
      nextSeqno - seqnoAcked
    }

    method PushSegment(seg: TcpSegment, start: nat)
      modifies this`segmentsOut, this`buffer
      ensures segmentsOut == old(segmentsOut) + [Outgoing(start, seg)]
      ensures buffer == old(buffer) + [Outgoing(start, seg)]
    {
      segmentsOut := segmentsOut + [Outgoing(start, seg)];
      buffer := buffer + [Outgoing(start, seg)];
    }

    method AssembleSegment(start: nat) returns (end: nat)
      requires Coherent() && start == nextSeqno && seqnoAcked <= start < View().Right()
      modifies this, stream.Footprint()
      ensures Coherent() && View().(nextSeqno := end) == old(View()).AssembleSegment()
      ensures nextSeqno == old(nextSeqno)
    {
      hide Sender.NextSegment, Sender.PayloadSize, Sender.FinDue, ByteStream.Valid;
      CutFacts(View());
      var seg := TakeSegment(start);
      if seg.Length() != 0 {
        PushSegment(seg, start);
      }
      end := start + seg.Length();
    }

    /** Fills in the next segment, taking its payload from the stream. */
    method TakeSegment(start: nat) returns (seg: TcpSegment)
      requires Coherent() && start == nextSeqno && seqnoAcked <= start < View().Right()
      modifies this`sentFin, stream.Footprint()
      ensures old(View()).PayloadSize() <= old(View()).stream.BufferSize()
      ensures Coherent() && seg == old(View()).NextSegment()
      ensures var s := old(View());
              View() == s.(stream := s.stream.Pop(s.PayloadSize()), sentFin := s.sentFin || s.FinDue())
    {
      ghost var s := View();
      CutFacts(s);
      hide U64, Wrap, ByteStream.Valid;
      var header := BLANK_HEADER.(seqno := Wrap(start, isn));
      var maxSegmentSize := Max(1, windowSize) - (start - seqnoAcked);
      if start == 0 {
        header := header.(syn := true);
        maxSegmentSize := maxSegmentSize - 1;
      }
      assert maxSegmentSize == s.Room();
      // the FIN goes along only if the rest of the stream does
      var payloadSizeWithFin := Min(U64(maxSegmentSize - 1), 1000);
      var bufferSize := stream.BufferSize();
      if !sentFin && stream.eofInput && bufferSize <= payloadSizeWithFin {
        header := header.(fin := true);
        sentFin := true;
        maxSegmentSize := U64(maxSegmentSize - 1);
      }
      assert header == s.NextSegment().header && sentFin == (s.sentFin || s.FinDue());
      maxSegmentSize := Min(maxSegmentSize, Min(bufferSize, 1000));
      assert maxSegmentSize == s.PayloadSize();
      var payload := stream.Read(maxSegmentSize);
      seg := TcpSegment(header, payload);
    }

    method FillWindow()
      requires Valid()
      modifies Footprint()
      ensures Valid() && View() == old(View()).FillWindow()
    {
      hide Chain, CutFrom, Sender.AssembleSegment, Sender.Tiled, Sender.AllCut;
      ghost var s0 := View();
      FillWindowKeeps(s0);
      CutEverything();
      if !timer.running && buffer != [] {
        timer.Reset();
        timer.Start();
      }
    }

    /** The loop of filling the window. */
    method CutEverything()
      requires Valid()
      modifies this, stream.Footprint()
      ensures Coherent() && View() == old(View()).Cut()
    {
      hide Chain, CutFrom, Sender.AssembleSegment, Sender.Tiled, Sender.AllCut;
      ghost var target := View().Cut();
      var right := seqnoAcked + Max(1, windowSize);
      while nextSeqno < right
        invariant Coherent() && View().Accounted() && View().Right() == right
        invariant View().Cut() == target
        decreases right - nextSeqno
      {
        ghost var s := View();
        CutIsFromStream(s);
        AssembleFrame(s);
        nextSeqno := AssembleSegment(nextSeqno);
        assert View() == s.AssembleSegment();
        if stream.BufferSize() == 0 {
          assert View() == target;
          break;
        }
      }
    }

    method ClearBuffer()
      requires Coherent()
      modifies this, timer
      ensures Coherent() && View() == old(View()).ClearBuffer()
    {
      ghost var target := DropAcked(buffer, seqnoAcked);
      while buffer != [] && buffer[0].pos + buffer[0].seg.Length() <= seqnoAcked
        invariant Coherent() && View() == old(View()).(outstanding := buffer)
        invariant DropAcked(buffer, seqnoAcked) == target
        decreases |buffer|
      {
        buffer := buffer[1..];
      }
      if buffer == [] {
        timer.Stop();
      }
    }

    method AckReceived(ackno: u32, winSize: u16)
      requires Valid()
      modifies this, timer
      ensures Valid() && View() == old(View()).AckReceived(ackno, winSize)
    {
      hide Unwrap, Chain, CutFrom, DropAcked;
      AckKeeps(View(), ackno, winSize);
      var absAckno := Unwrap(ackno, isn, U64(seqnoAcked));
      // acknowledges what was never sent
      if absAckno > nextSeqno {
        return;
      }
      if absAckno > seqnoAcked {
        seqnoAcked := absAckno;
        consecutiveRetransmissions := 0;
        timer.Reset();
        timer.Start();
      }
      windowSize := winSize;
      ClearBuffer();
    }

    method Retransmit()
      requires Coherent() && buffer != [] && timer.running
      modifies this, timer
      ensures Coherent() && View() == old(View()).Retransmit()
    {
      if windowSize != 0 {
        timer.Twice();
        consecutiveRetransmissions := consecutiveRetransmissions + 1;
      }
      timer.Start();
      segmentsOut := segmentsOut + [buffer[0]];
    }

    method Tick(msSinceLastTick: nat)
      requires Valid()
      modifies this, timer
      ensures Valid() && View() == old(View()).Tick(msSinceLastTick)
    {
      hide Chain, CutFrom;
      TickKeeps(View(), msSinceLastTick);
      timer.Tick(msSinceLastTick);
      if timer.Expired() {
        Retransmit();
      }
    }

    /** The writer's side of the outbound stream. */
    method WriteStream(data: seq<byte>) returns (n: nat)
      requires Valid() && !stream.eofInput
      modifies stream.Footprint()
      ensures Valid() && View() == old(View()).(stream := old(View()).stream.Write(data))
      ensures n == Min(|data|, old(View()).stream.RemainingCapacity())
    {
      hide Sender.Valid;
      WriteKeeps(View(), data);
      n := stream.Write(data);
    }

    method EndStream()
      requires Valid()
      modifies stream
      ensures Valid() && View() == old(View()).(stream := old(View()).stream.(ended := true))
    {
      hide Sender.Valid;
      EndKeeps(View());
      stream.EndInput();
    }

    /** Marks the outbound stream as broken. */
    method SetError()
      requires Coherent()
      modifies stream
      ensures Coherent() && View() == old(View()).(stream := old(View()).stream.(error := true))
    {
      stream.SetError();
    }

    method SendEmptySegment()
      requires Valid()
      modifies this`segmentsOut
      ensures Valid() && View() == old(View()).SendEmpty()
    {
      hide Chain, CutFrom;
      SendEmptyKeeps(View());
      segmentsOut := segmentsOut
                     + [Outgoing(nextSeqno, TcpSegment(BLANK_HEADER.(seqno := Wrap(nextSeqno, isn)), []))];
    }
  }
}
