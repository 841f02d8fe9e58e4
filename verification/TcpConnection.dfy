/** The endpoint as the program runs it. */
module TcpConnections {
  import opened MachineIntegers
  import opened WrappingIntegers
  import opened ByteStreams
  import opened TcpSegments
  import opened Receiving
  import opened Sending
  import opened TcpSenders
  import opened Connecting

  class TCPConnection {
    const rtTimeout: u16
    const receiver: TCPReceiver
    const sender: TCPSender
    var segmentsOut: seq<Packet>
    var timePassed: nat
    var linger: bool

    ghost function Footprint(): set<object> {
      {this} + sender.Footprint() + receiver.Footprint()
    }

    /** The parts are sound and separate. */
    ghost predicate Coherent()
      reads this, sender.Footprint(), receiver.Footprint()
      ensures Coherent() ==> sender.stream.Valid() && receiver.reassembler.output.Valid() && receiver.View().Out().Valid()
    {
      && this !in sender.Footprint() && this !in receiver.Footprint()
      && sender.Footprint() !! receiver.Footprint()
      && sender.Coherent() && receiver.Valid()
    }

    ghost function View(): Connection
      requires sender.stream.Valid() && receiver.reassembler.output.Valid()
      reads this, sender, sender.timer, sender.stream.Footprint()
      reads receiver, receiver.reassembler, receiver.reassembler.output.Footprint()
    {
      Connection(rtTimeout, sender.View(), receiver.View(), segmentsOut, timePassed, linger)
    }

    ghost predicate Valid()
      reads this, sender.Footprint(), receiver.Footprint()
      ensures Valid() ==> Coherent() && sender.Valid() && View().sender.Valid() && View().receiver.Valid()
    {
      Coherent() && View().Valid()
    }

    constructor (cfg: TcpConfig)
      requires cfg.Valid()
      ensures Valid() && fresh(sender.Footprint()) && fresh(receiver.Footprint())
      ensures View() == NewConnection(cfg)
    {
      hide TCPReceiver.Valid, TCPReceiver.View, TCPSender.View, NewReceiver, NewSender,
           ByteStream.Valid, Sender.Valid, Connection.Valid;
      rtTimeout := cfg.rtTimeout;
      receiver := new TCPReceiver(cfg.recvCapacity);
      sender := new TCPSender(cfg.sendCapacity, cfg.rtTimeout, cfg.isn);
      segmentsOut, timePassed, linger := [], 0, true;
      new;
      assert sender.Footprint() !! receiver.Footprint();
      assert this !in sender.Footprint() && this !in receiver.Footprint();
      assert View() == NewConnection(cfg);
    }

    method SendSegmentWithInfo()
      requires Coherent()
      modifies this`segmentsOut, sender`segmentsOut
      ensures Coherent() && View() == old(View()).Flush()
    {
      hide TCPConnection.Coherent, ByteStream.Valid, Connection.Stamp, Connection.StampAll;
      ghost var c := View();
      ghost var out, k := sender.segmentsOut, 0;
      while sender.segmentsOut != []
        invariant Coherent() && k <= |out|
        invariant View() == c.(segmentsOut := c.segmentsOut + c.StampAll(out, k),
                               sender := c.sender.(segmentsOut := out[k..]))
        decreases |out| - k
      {
        ghost var v := View();
        SendFront();
        assert v.Stamp(out[k]) == c.Stamp(out[k]) by { StampSame(v, c, out[k]); }
        assert c.StampAll(out, k + 1) == c.StampAll(out, k) + [c.Stamp(out[k])];
        k := k + 1;
      }
    }

    /** Completes the first waiting segment and passes it on. */
    method SendFront()
      requires Coherent() && sender.segmentsOut != []
      modifies this`segmentsOut, sender`segmentsOut
      ensures Coherent()
      ensures var c := old(View());
              View() == c.(segmentsOut := c.segmentsOut + [c.Stamp(c.sender.segmentsOut[0])],
                           sender := c.sender.(segmentsOut := c.sender.segmentsOut[1..]))
    {
      hide TCPReceiver.Valid, ByteStream.Valid, Sender.Valid, Wrap;
      var front := sender.segmentsOut[0];
      var header := front.seg.header;
      var ackno := receiver.Ackno();
      if ackno.Some? {
        header := header.(ack := true, ackno := ackno.value);
      }
      header := header.(win := U16(receiver.WindowSize()));
      segmentsOut := segmentsOut + [Packet(front.pos, receiver.ackno, front.seg.(header := header))];
      sender.segmentsOut := sender.segmentsOut[1..];
    }

    method SendRst()
      requires Coherent() && sender.Valid()
      modifies this`segmentsOut, sender`segmentsOut
      ensures Coherent() && View() == old(View()).SendRst()
    {
      hide TCPReceiver.Valid, ByteStream.Valid, Sender.Valid, Wrap, Connection.Flush;
      sender.SendEmptySegment();
      var last := |sender.segmentsOut| - 1;
      var o := sender.segmentsOut[last];
      sender.segmentsOut := sender.segmentsOut[last := o.(seg := o.seg.(header := o.seg.header.(rst := true)))];
      SendSegmentWithInfo();
    }

    method DirtyAbort()
      requires Coherent()
      modifies Footprint()
      ensures Coherent() && View() == old(View()).DirtyAbort()
    {
      hide TCPReceiver.Valid, ByteStream.Valid, Sender.Valid;
      sender.SetError();
      receiver.SetError();
      linger := false;
    }

    method SegmentReceived(seg: TcpSegment)
      requires Valid()
      modifies Footprint()
      ensures Valid() && View() == old(View()).SegmentReceived(seg)
    {
      hide TCPConnection.Coherent, TCPConnection.View, Connection.Valid, Sender.Valid, Receiver.Valid,
           ByteStream.Valid, Connection.Flush, Answer, Receiver.SegmentReceived, TCPSender.Valid;
      ghost var c := View();
      ReceiveKeeps(c, seg);
      if seg.header.rst {
        DirtyAbort();
        return;
      }
      Accept(seg);
      if !HasAckno() {
        return;
      }
      Reply(seg.header);
      NoteFin(seg.header);
      Acknowledge(seg);
      SendSegmentWithInfo();
      ResetClock();
    }

    // `HasAckno`, `Accept`, `ResetClock` and the steps listed at the end name single statements
    // of the program, so that each has its own small frame.

    /** Whether a SYN has arrived. */
    predicate HasAckno()
      requires Coherent()
      reads this, sender.Footprint(), receiver.Footprint()
      ensures HasAckno() == View().receiver.hasIsn
    {
      receiver.Ackno().Some?
    }

    /** The remote stream has ended before ours: no need to linger. */
    method NoteFin(header: TcpHeader)
      requires Coherent() && sender.Valid()
      modifies this`linger
      ensures Coherent() && sender.Valid()
      ensures View() == old(View()).(linger := old(View()).linger && !(header.fin && !old(View()).sender.stream.Eof()))
    {
      hide ByteStream.Valid, Sender.Valid, TCPReceiver.Valid;
      if header.fin {
        if !sender.stream.Eof() {
          linger := false;
        }
      }
    }

    method ResetClock()
      requires Coherent()
      modifies this`timePassed
      ensures Coherent() && View() == old(View()).(timePassed := 0)
    {
      hide ByteStream.Valid, TCPReceiver.Valid;
      timePassed := 0;
    }

    /** Hands the segment to the receiver. */
    method Accept(seg: TcpSegment)
      requires Coherent() && sender.Valid()
      modifies receiver.Footprint()
      ensures Coherent() && sender.Valid()
      ensures View() == old(View()).(receiver := old(View()).receiver.SegmentReceived(seg))
    {
      hide ByteStream.Valid, Sender.Valid, Receiver.SegmentReceived;
      receiver.SegmentReceived(seg);
    }

    /** Lets the sender act on the segment's acknowledgment, or on a bare SYN. */
    method Reply(header: TcpHeader)
      requires Coherent() && sender.Valid()
      modifies sender.Footprint()
      ensures Coherent() && sender.Valid()
      ensures View() == old(View()).(sender := Answer(old(View()).sender, header))
    {
      hide ByteStream.Valid, Sender.Valid, TCPReceiver.Valid, Sender.FillWindow, Sender.AckReceived;
      if header.ack {
        sender.AckReceived(header.ackno, header.win);
        sender.FillWindow();
      } else if header.syn {
        sender.FillWindow();
      }
    }

    method Acknowledge(seg: TcpSegment)
      requires Coherent() && sender.Valid()
      modifies sender`segmentsOut
      ensures Coherent() && View() == old(View()).Acknowledge(seg)
    {
      hide ByteStream.Valid, Sender.Valid, TCPReceiver.Valid, Sender.SendEmpty, Wrap;
      var segLength := seg.Length();
      if segLength == 0 && receiver.Ackno().Some? && seg.header.seqno == U32(receiver.Ackno().value - 1) {
        sender.SendEmptySegment();
      } else if segLength != 0 && sender.segmentsOut == [] {
        sender.SendEmptySegment();
      }
    }

    method Write(data: seq<byte>) returns (n: nat)
      requires Valid()
      modifies Footprint()
      ensures Valid() && View() == old(View()).Write(data)
      ensures n == if old(View()).sender.stream.ended then 0
                   else Min(old(View()).sender.stream.RemainingCapacity(), |data|)
    {
      hide TCPConnection.Coherent, TCPConnection.View, Connection.Valid, Sender.Valid, Receiver.Valid,
           ByteStream.Valid, Connection.Flush, Sender.FillWindow, TCPSender.Valid;
      StepKeeps(View(), Event.Write(data));
      if OutboundEnded() {
        return 0;
      }
      n := Enqueue(data);
      FillWindow();
      SendSegmentWithInfo();
    }

    method EndInputStream()
      requires Valid()
      modifies Footprint()
      ensures Valid() && View() == old(View()).EndInputStream()
    {
      hide TCPConnection.Coherent, TCPConnection.View, Connection.Valid, Sender.Valid, Receiver.Valid,
           ByteStream.Valid, Connection.Flush, Sender.FillWindow, TCPSender.Valid;
      StepKeeps(View(), Event.EndInputStream);
      if OutboundEnded() {
        return;
      }
      EndOutbound();
      FillWindow();
      SendSegmentWithInfo();
    }

    method Connect()
      requires Valid()
      modifies Footprint()
      ensures Valid() && View() == old(View()).Connect()
    {
      hide TCPConnection.Coherent, TCPConnection.View, Connection.Valid, Sender.Valid, Receiver.Valid,
           ByteStream.Valid, Connection.Flush, Sender.FillWindow, TCPSender.Valid;
      StepKeeps(View(), Event.Connect);
      FillWindow();
      SendSegmentWithInfo();
    }

    method Tick(ms: nat)
      requires Valid()
      modifies Footprint()
      ensures Valid() && View() == old(View()).Tick(ms)
    {
      hide TCPConnection.Coherent, TCPConnection.View, Connection.Valid, Sender.Valid, Receiver.Valid,
           ByteStream.Valid, Connection.Flush, Sender.Tick, TCPSender.Valid, Connection.GiveUp,
           Connection.CheckLinger, Connection.Tick, Extends, TCPReceiver.Valid, TCPSender.Coherent;
      ghost var c := View();
      TickStepKeeps(c, ms);
      TickIs(c, ms);
      Advance(ms);
      GiveUp();
      CheckLinger();
      SendSegmentWithInfo();
    }

    /** Reads from the inbound stream. */
    method Read(n: nat) returns (bytes: seq<byte>)
      requires Valid() && n <= View().receiver.Out().BufferSize()
      modifies Footprint()
      ensures Valid() && View() == old(View()).Read(n) && bytes == old(View()).receiver.Out().Buffered()[..n]
    {
      hide Sender.Valid, ByteStream.Valid, TCPReceiver.Valid;
      StepKeeps(View(), Event.Read(n));
      bytes := receiver.Read(n);
    }

    // ---------------------------------------------------------------- the steps the operations are made of

    predicate OutboundEnded()
      requires Coherent()
      reads this, sender.Footprint(), receiver.Footprint()
      ensures OutboundEnded() == View().sender.stream.ended
    {
      sender.stream.eofInput
    }

    method Enqueue(data: seq<byte>) returns (n: nat)
      requires Coherent() && sender.Valid() && !View().sender.stream.ended
      modifies sender.Footprint()
      ensures Coherent() && sender.Valid()
      ensures View() == old(View()).(sender := old(View()).sender.(stream := old(View()).sender.stream.Write(data)))
      ensures n == Min(old(View()).sender.stream.RemainingCapacity(), |data|)
    {
      hide ByteStream.Valid, Sender.Valid, TCPReceiver.Valid;
      n := sender.WriteStream(data);
    }

    method EndOutbound()
      requires Coherent() && sender.Valid()
      modifies sender.Footprint()
      ensures Coherent() && sender.Valid()
      ensures View() == old(View()).(sender := old(View()).sender.(stream := old(View()).sender.stream.(ended := true)))
    {
      hide ByteStream.Valid, Sender.Valid, TCPReceiver.Valid;
      sender.EndStream();
    }

    method FillWindow()
      requires Coherent() && sender.Valid()
      modifies sender.Footprint()
      ensures Coherent() && sender.Valid()
      ensures View() == old(View()).(sender := old(View()).sender.FillWindow())
    {
      hide ByteStream.Valid, Sender.Valid, TCPReceiver.Valid, Sender.FillWindow;
      sender.FillWindow();
    }

    method Advance(ms: nat)
      requires Coherent() && sender.Valid()
      modifies this`timePassed, sender.Footprint()
      ensures Coherent() && sender.Valid()
      ensures View() == old(View()).(timePassed := old(View()).timePassed + ms, sender := old(View()).sender.Tick(ms))
    {
      hide ByteStream.Valid, Sender.Valid, TCPReceiver.Valid, Sender.Tick;
      timePassed := timePassed + ms;
      sender.Tick(ms);
    }

    function Retries(): (n: nat)
      requires Coherent()
      reads this, sender.Footprint(), receiver.Footprint()
      ensures n == View().sender.retransmissions
    {
      sender.consecutiveRetransmissions
    }

    method DiscardQueue()
      requires Coherent() && sender.Valid()
      modifies sender`segmentsOut
      ensures Coherent() && sender.Valid()
      ensures View() == old(View()).(sender := old(View()).sender.(segmentsOut := []))
    {
      hide ByteStream.Valid, Sender.Valid, TCPReceiver.Valid;
      DrainKeeps(sender.View());
      sender.segmentsOut := [];
    }

    method GiveUp()
      requires Coherent() && sender.Valid()
      modifies Footprint()
      ensures Coherent() && View() == old(View()).GiveUp()
    {
      hide TCPConnection.Coherent, TCPConnection.View, Sender.Valid, Receiver.Valid, ByteStream.Valid,
           TCPSender.Valid, Connection.SendRst, Connection.DirtyAbort;
      if Retries() > 8 {
        DiscardQueue();
        SendRst();
        DirtyAbort();
      }
    }

    method CheckLinger()
      requires Coherent()
      modifies this`linger
      ensures Coherent() && View() == old(View()).CheckLinger()
    {
      hide ByteStream.Valid, TCPReceiver.Valid;
      if sender.stream.Eof() && receiver.reassembler.output.Eof() && linger && timePassed >= 10 * rtTimeout {
        linger := false;
      }
    }

    predicate Active()
      requires Valid()
      reads this, sender.Footprint(), receiver.Footprint()
      ensures Active() == View().Active()
    {
      || linger
      || ((sender.nextSeqno != sender.seqnoAcked || !sender.stream.Eof()) && !sender.stream.error)
      || (!receiver.reassembler.output.Eof() && !receiver.reassembler.output.error)
    }
  }

  lemma TickIs(c: Connection, ms: nat)
    requires c.sender.Valid() && c.receiver.Valid()
    ensures var c' := c.(timePassed := c.timePassed + ms, sender := c.sender.Tick(ms)).GiveUp().CheckLinger();
            c'.receiver.Out().Valid() && c'.Flush() == c.Tick(ms)
  {
  }

  lemma StampSame(c: Connection, d: Connection, o: Outgoing)
    requires c.receiver == d.receiver && c.receiver.Out().Valid()
    ensures c.Stamp(o) == d.Stamp(o)
  {
  }
}
