/**
 One direction of a TCP connection: what a sender, a receiver and the segments
 between them keep, whatever the network does to the segments.
 */
module Links {
  import opened MachineIntegers
  import opened WrappingIntegers
  import opened ByteStreams
  import opened Reassembly
  import opened TcpSegments
  import opened Receiving
  import opened Sending
  import opened Connecting
  import opened ConnectionRuns

  // ------------------------------------------------------------------ an honest segment arrives

  /** What the receiver knows comes from the sender's stream, from the part already sent;
      and it expects the end only where the sender ended. */
  ghost predicate Faithful(s: Sender, r: Receiver) {
    && (r.hasIsn ==> r.isn == s.isn && 0 < s.nextSeqno)
    && (forall i :: r.reassembler.Known(i).Some? ==>
          0 <= i < s.stream.popped <= |s.stream.written| && r.reassembler.Known(i).value == s.stream.written[i])
    && (r.reassembler.eof ==> s.sentFin && r.reassembler.eofNum == |s.stream.written|)
    && (r.Out().ended ==> |r.Out().written| == |s.stream.written|)
  }

  /** The receiver decodes the segment's position as the sender meant it. */
  ghost predicate Decodable(o: Outgoing, r: Receiver) {
    && o.End() < 0x1_0000_0000_0000_0000
    && Decodes(if o.seg.header.syn then 1 else o.pos, r.ackno)
  }

  lemma PositionIsExact(s: Sender, r: Receiver, o: Outgoing)
    requires CutFrom(o, s) && Decodable(o, r)
    requires r.hasIsn ==> r.isn == s.isn
    ensures o.seg.header.syn ==> o.seg.header.seqno == s.isn
    ensures o.seg.header.syn || r.hasIsn ==>
              r.Position(o.seg.header) == if o.seg.header.syn then 1 else o.pos
  {
    hide Unwrap, Wrap, U64, U32;
    U64Same(r.ackno);
    WrapStart(s.isn);
    if o.seg.header.syn {
      UnwrapInvertsWrap(1, s.isn, r.ackno);
    } else {
      UnwrapInvertsWrap(o.pos, s.isn, r.ackno);
    }
  }

  lemma WrapStart(isn: u32)
    ensures Wrap(0, isn) == isn && Wrap(1, isn) == U32(isn + 1)
  {
  }

  /** The stream index of a segment's first byte. */
  ghost function First(o: Outgoing): nat { if o.pos == 0 then 0 else o.pos - 1 }

  lemma IndexIsExact(s: Sender, r: Receiver, o: Outgoing)
    requires CutFrom(o, s) && Decodable(o, r) && (r.hasIsn ==> r.isn == s.isn)
    requires o.seg.header.syn || r.hasIsn
    requires 0 < o.seg.Length()
    ensures U64(r.Position(o.seg.header) - 1) == First(o)
    ensures U64(First(o) + |o.seg.payload|) == First(o) + |o.seg.payload|
  {
    hide Unwrap, Wrap, U64, U32, Receiver.Position;
    U64Same(First(o));
    U64Same(First(o) + |o.seg.payload|);
    PositionIsExact(s, r, o);
  }

  lemma HonestPush(s: Sender, r: Receiver, o: Outgoing, re: Reassembler)
    requires s.Accounted() && r.Valid() && Faithful(s, r) && CutFrom(o, s) && Decodable(o, r)
    requires o.seg.header.syn || r.hasIsn
    requires re == r.reassembler.Push(o.seg.payload, U64(r.Position(o.seg.header) - 1), o.seg.header.fin)
    ensures forall i :: re.Known(i).Some? ==>
              0 <= i < s.stream.popped && re.Known(i).value == s.stream.written[i]
    ensures re.eof ==> s.sentFin && re.eofNum == |s.stream.written|
  {
    hide Unwrap, Reassembler.Push, Reassembler.Known, Receiver.Position, U64, Reassembler.Valid;
    var header, payload := o.seg.header, o.seg.payload;
    var index := U64(r.Position(header) - 1);
    if 0 < o.seg.Length() {
      IndexIsExact(s, r, o);
    }
    PushAppends(r.reassembler, payload, index, header.fin);
    PushEnds(r.reassembler, payload, index, header.fin);
    forall i | re.Known(i).Some?
      ensures 0 <= i < s.stream.popped && re.Known(i).value == s.stream.written[i]
    {
      PushLearnsOnly(r.reassembler, payload, index, header.fin, i);
    }
  }

  /** A decoded segment of the sender's leaves the receiver faithful. */
  lemma HonestReceive(s: Sender, r: Receiver, o: Outgoing)
    requires s.Accounted() && r.Valid() && Faithful(s, r) && CutFrom(o, s)
    requires r.hasIsn || o.seg.header.syn ==> Decodable(o, r)
    ensures Faithful(s, r.SegmentReceived(o.seg))
  {
    hide Unwrap, Reassembler.Push, Reassembler.Known, Receiver.Position;
    if r.hasIsn || o.seg.header.syn {
      var index := U64(r.Position(o.seg.header) - 1);
      var re := r.reassembler.Push(o.seg.payload, index, o.seg.header.fin);
      HonestPush(s, r, o, re);
      PositionIsExact(s, r, o);
      PushEnds(r.reassembler, o.seg.payload, index, o.seg.header.fin);
      PushAppends(r.reassembler, o.seg.payload, index, o.seg.header.fin);
      PushKeepsValid(r.reassembler, o.seg.payload, index, o.seg.header.fin);
      WrittenIsSent(s, re);
      assert re.out.ended ==> |re.out.written| == |s.stream.written|;
    }
  }

  /** The assembled bytes are a prefix of the bytes sent. */
  lemma WrittenIsSent(s: Sender, re: Reassembler)
    requires s.stream.Valid() && re.Valid()
    requires forall i :: re.Known(i).Some? ==>
               0 <= i < s.stream.popped && re.Known(i).value == s.stream.written[i]
    ensures |re.out.written| <= s.stream.popped && re.out.written <= s.stream.written
  {
    if re.next > 0 {
      NextIsFirstMissing(re, re.next - 1);
    }
    forall i | 0 <= i < |re.out.written|
      ensures i < s.stream.popped && re.out.written[i] == s.stream.written[i]
    {
      assert re.Known(i).Some?;
    }
  }

  // ------------------------------------------------------------------ one direction of a connection

  /** The acknowledgments a receiver has sent are positions it had reached. */
  ghost predicate AcksBounded(packets: seq<Packet>, isn: u32, r: Receiver) {
    forall p :: p in packets && p.seg.header.ack ==>
      r.hasIsn && p.seg.header.ackno == Wrap(p.ackPos, isn) && p.ackPos <= r.ackno
  }

  /** The stream from `tx` to `rx`, and the acknowledgments back. */
  ghost predicate Link(tx: Connection, rx: Connection) {
    && Faithful(tx.sender, rx.receiver)
    && AcksBounded(rx.segmentsOut, tx.sender.isn, rx.receiver)
    && tx.sender.acked <= rx.receiver.ackno
    && (0 < tx.sender.acked ==> rx.receiver.hasIsn)
  }

  lemma FaithfulStays(s: Sender, s': Sender, r: Receiver)
    requires Faithful(s, r) && Extends(s, s') && s.Accounted() && s'.Accounted() && r.Valid()
    ensures Faithful(s', r)
  {
  }

  /** Freshly stamped segments acknowledge what the receiver has reached. */
  ghost predicate Stamped(p: Packet, r: Receiver) {
    && p.ackPos == r.ackno && p.seg.header.ack == r.hasIsn
    && (r.hasIsn ==> p.seg.header.ackno == Wrap(r.ackno, r.isn))
  }

  lemma FlushStamps(c: Connection, p: Packet)
    requires c.receiver.Out().Valid() && c.sender.AllCut()
    ensures p in c.Flush().segmentsOut ==> p in c.segmentsOut || Stamped(p, c.receiver)
  {
  }

  lemma WriterStamps(c: Connection, stream: Fifo, p: Packet)
    requires c.Valid() && c.sender.(stream := stream).Valid()
    requires p in c.(sender := c.sender.(stream := stream).FillWindow()).Flush().segmentsOut
    ensures p in c.segmentsOut || Stamped(p, c.receiver)
  {
    hide Chain, CutFrom, Sender.FillWindow, Connection.Flush, Cuts;
    FillWindowKeeps(c.sender.(stream := stream));
    FlushStamps(c.(sender := c.sender.(stream := stream).FillWindow()), p);
  }

  lemma ReceiveStamps(c: Connection, seg: TcpSegment, p: Packet)
    requires c.Valid() && p in c.SegmentReceived(seg).segmentsOut
    ensures p in c.segmentsOut || Stamped(p, c.SegmentReceived(seg).receiver)
  {
  }

  lemma TickStamps(c: Connection, ms: nat, p: Packet)
    requires c.Valid() && p in c.Tick(ms).segmentsOut
    ensures p in c.segmentsOut || Stamped(p, c.Tick(ms).receiver)
  {
    hide Chain, CutFrom, Sender.Tiled, Sender.BackedOff, Sender.Tick, Connection.SendRst;
    var s := c.sender.Tick(ms);
    TickKeeps(c.sender, ms);
    var c1 := c.(timePassed := c.timePassed + ms, sender := s);
    if s.retransmissions > 8 {
      RstStamps(c1.(sender := s.(segmentsOut := [])), p);
    } else {
      FlushStamps(c1, p);
      FlushStamps(c1.(linger := false), p);
    }
  }

  lemma RstStamps(c: Connection, p: Packet)
    requires c.receiver.Out().Valid() && c.sender.segmentsOut == []
    ensures var d := c.SendRst().DirtyAbort();
            && d.Flush() == d && d.receiver == c.receiver.WithError() && !d.linger
            && (p in d.segmentsOut ==> p in c.segmentsOut || Stamped(p, d.receiver))
  {
  }

  lemma StepStamps(c: Connection, e: Event, p: Packet)
    requires c.Valid() && Enabled(c, e) && p in Step(c, e).segmentsOut
    ensures p in c.segmentsOut || Stamped(p, Step(c, e).receiver)
  {
    hide Chain, CutFrom, Sender.AllCut, Sender.Tiled, Sender.BackedOff, Sender.FillWindow,
         Connection.Tick, Connection.SegmentReceived;
    match e {
      case Connect =>
        WriterStamps(c, c.sender.stream, p);
      case Write(data) =>
        if !c.sender.stream.ended {
          WriteKeeps(c.sender, data);
          WriterStamps(c, c.sender.stream.Write(data), p);
        }
      case EndInputStream =>
        EndKeeps(c.sender);
        if !c.sender.stream.ended {
          WriterStamps(c, c.sender.stream.(ended := true), p);
        }
      case Tick(ms) =>
        TickStamps(c, ms, p);
      case Receive(seg) =>
        ReceiveStamps(c, seg, p);
      case Read(n) =>
    }
  }

  /** Only an acknowledgment moves the acknowledged position, and to where it decodes. */
  lemma StepAcks(c: Connection, e: Event)
    requires c.Valid() && Enabled(c, e)
    ensures var acked := Step(c, e).sender.acked;
            acked == c.sender.acked
            || (e.Receive? && e.seg.header.ack && !e.seg.header.rst
                && (c.receiver.hasIsn || e.seg.header.syn)
                && acked == Unwrap(e.seg.header.ackno, c.sender.isn, U64(c.sender.acked)))
  {
    hide Chain, CutFrom, Sender.AllCut, Sender.Tiled, Sender.BackedOff, Sender.FillWindow, Sender.AckReceived,
         Receiver.SegmentReceived, Unwrap, Cuts;
    match e {
      case Connect =>
        FillWindowKeeps(c.sender);
      case Write(data) =>
        if !c.sender.stream.ended {
          WriteKeeps(c.sender, data);
          FillWindowKeeps(c.sender.(stream := c.sender.stream.Write(data)));
        }
      case EndInputStream =>
        EndKeeps(c.sender);
        FillWindowKeeps(c.sender.(stream := c.sender.stream.(ended := true)));
      case Tick(ms) =>
        TickKeeps(c.sender, ms);
      case Receive(seg) =>
        IsnIsKept(c.receiver, seg);
        AckKeeps(c.sender, seg.header.ackno, seg.header.win);
        FillWindowKeeps(c.sender);
        FillWindowKeeps(c.sender.AckReceived(seg.header.ackno, seg.header.win));
      case Read(n) =>
    }
  }

  /** The sending side moves on, perhaps because of a segment the receiving side sent. */
  lemma LinkWhenSenderSteps(tx: Connection, rx: Connection, e: Event, p: Packet)
    requires tx.Valid() && rx.Valid() && Link(tx, rx) && Enabled(tx, e)
    requires e.Receive? ==> p in rx.segmentsOut && e.seg == p.seg
    requires e.Receive? && p.seg.header.ack && !p.seg.header.rst ==> Decodes(p.ackPos, tx.sender.acked)
    ensures Link(Step(tx, e), rx)
  {
    hide Chain, CutFrom, Step, Sender.AllCut, Sender.Tiled, Sender.BackedOff, Faithful, Unwrap;
    StepKeeps(tx, e);
    StepAcks(tx, e);
    FaithfulStays(tx.sender, Step(tx, e).sender, rx.receiver);
    if Step(tx, e).sender.acked != tx.sender.acked {
      UnwrapInvertsWrap(p.ackPos, tx.sender.isn, tx.sender.acked);
    }
  }

  /** The receiver has not changed but for what the application read and error marks. */
  ghost predicate LearntNothing(r: Receiver, r': Receiver) {
    && r'.(reassembler := r.reassembler) == r
    && r'.reassembler.(out := r.Out()) == r.reassembler
    && r'.Out().(popped := r.Out().popped, error := r.Out().error) == r.Out()
  }

  lemma OtherStepsLearnNothing(c: Connection, e: Event)
    requires c.Valid() && Enabled(c, e) && !e.Receive?
    ensures LearntNothing(c.receiver, Step(c, e).receiver)
  {
    hide Chain, CutFrom, Sender.AllCut, Sender.Tiled, Sender.BackedOff, Sender.FillWindow, Connection.Tick;
    if e.Tick? {
      TickLearnsNothing(c, e.ms);
    }
  }

  lemma TickLearnsNothing(c: Connection, ms: nat)
    requires c.Valid()
    ensures c.Tick(ms).receiver == c.receiver || c.Tick(ms).receiver == c.receiver.WithError()
  {
  }

  lemma FaithfulSame(s: Sender, r: Receiver, r': Receiver)
    requires Faithful(s, r) && LearntNothing(r, r')
    ensures Faithful(s, r')
  {
    forall i
      ensures r'.reassembler.Known(i) == r.reassembler.Known(i)
    {
    }
    hide Reassembler.Known;
  }

  /** The receiving side moves on, perhaps because of a segment the sending side sent. */
  lemma LinkWhenReceiverSteps(tx: Connection, rx: Connection, e: Event, p: Packet)
    requires tx.Valid() && rx.Valid() && Link(tx, rx) && Enabled(rx, e)
    requires e.Receive? ==> p in tx.segmentsOut && e.seg == p.seg
    requires e.Receive? && !p.seg.header.rst && (rx.receiver.hasIsn || p.seg.header.syn)
             ==> Decodable(Outgoing(p.pos, p.seg), rx.receiver)
    ensures Link(tx, Step(rx, e))
  {
    hide Chain, CutFrom, Sender.AllCut, Sender.Tiled, Sender.BackedOff, Faithful, Unwrap, Step;
    var rx' := Step(rx, e);
    StepKeeps(rx, e);
    StepAdvances(rx, e);
    FaithfulAfterStep(tx, rx, e, p);
    IsnAgrees(tx.sender, rx'.receiver);
    forall q | q in rx'.segmentsOut && q.seg.header.ack
      ensures rx'.receiver.hasIsn && q.seg.header.ackno == Wrap(q.ackPos, tx.sender.isn)
              && q.ackPos <= rx'.receiver.ackno
    {
      StepStamps(rx, e, q);
    }
  }

  lemma IsnAgrees(s: Sender, r: Receiver)
    requires Faithful(s, r)
    ensures r.hasIsn ==> r.isn == s.isn
  {
  }

  lemma FaithfulAfterStep(tx: Connection, rx: Connection, e: Event, p: Packet)
    requires tx.Valid() && rx.Valid() && Faithful(tx.sender, rx.receiver) && Enabled(rx, e)
    requires e.Receive? ==> p in tx.segmentsOut && e.seg == p.seg
    requires e.Receive? && !p.seg.header.rst && (rx.receiver.hasIsn || p.seg.header.syn)
             ==> Decodable(Outgoing(p.pos, p.seg), rx.receiver)
    ensures Faithful(tx.sender, Step(rx, e).receiver)
  {
    hide Chain, CutFrom, Sender.AllCut, Sender.Tiled, Sender.BackedOff, Faithful, Unwrap,
         Sender.FillWindow, Sender.Tick, Receiver.SegmentReceived, Answer;
    if e.Receive? {
      if p.seg.header.rst {
        FaithfulSame(tx.sender, rx.receiver, rx.receiver.WithError());
      } else {
        HonestReceive(tx.sender, rx.receiver, Outgoing(p.pos, p.seg));
      }
    } else {
      OtherStepsLearnNothing(rx, e);
      FaithfulSame(tx.sender, rx.receiver, Step(rx, e).receiver);
    }
  }

  // ------------------------------------------------------------------ what a link guarantees

  /** What one endpoint has received from the other. */
  ghost predicate Delivered(tx: Connection, rx: Connection) {
    var sent, got := tx.sender.stream, rx.receiver.Out();
    && got.written <= sent.written
    && (got.ended ==> sent.ended && got.written == sent.written)
    && (rx.receiver.hasIsn ==> tx.sender.acked <= rx.receiver.ackno <= tx.sender.nextSeqno)
  }

  /** All of a segment has been assembled: its bytes, and its FIN if it has one. */
  ghost predicate Assembled(o: Outgoing, r: Receiver) {
    && First(o) + |o.seg.payload| <= |r.Out().written|
    && o.seg.payload == r.Out().written[First(o)..First(o) + |o.seg.payload|]
    && (o.seg.header.fin ==> r.Out().ended)
  }

  lemma LinkDelivers(tx: Connection, rx: Connection)
    requires tx.Valid() && rx.Valid() && Link(tx, rx)
    ensures Delivered(tx, rx)
  {
    hide Chain, CutFrom, Reassembler.Known, Sender.AllCut, Sender.Tiled, Sender.BackedOff;
    WrittenIsSent(tx.sender, rx.receiver.reassembler);
  }

  /** A segment whose whole sequence space is acknowledged has been assembled. */
  lemma AckedIsAssembled(tx: Connection, rx: Connection, o: Outgoing)
    requires tx.Valid() && rx.Valid() && Link(tx, rx)
    requires CutFrom(o, tx.sender) && 0 < o.seg.Length() && o.End() <= tx.sender.acked
    ensures Assembled(o, rx.receiver)
  {
    hide Chain, Reassembler.Known, Sender.AllCut, Sender.Tiled, Sender.BackedOff;
    LinkDelivers(tx, rx);
  }

  lemma TickDropsNothing(c: Connection, ms: nat)
    requires c.Valid()
    ensures c.Tick(ms).sender.outstanding == c.sender.outstanding
  {
    hide Chain, CutFrom, Sender.AllCut, Sender.Tiled, Sender.BackedOff, Connection.Stamp;
  }

  lemma AnswerDrops(c: Connection, header: TcpHeader, o: Outgoing)
    requires c.Valid() && o in c.sender.outstanding && o !in Answer(c.sender, header).outstanding
    ensures o.End() <= Answer(c.sender, header).acked
  {
    hide Chain, CutFrom, Sender.AllCut, Sender.Tiled, Sender.BackedOff, Sender.FillWindow, Sender.AckReceived, Cuts;
    AckKeeps(c.sender, header.ackno, header.win);
    AckIsCumulative(c.sender, header.ackno, header.win, o);
    FillWindowKeeps(c.sender);
    FillWindowKeeps(c.sender.AckReceived(header.ackno, header.win));
  }

  /** A sender forgets a segment only once all of it is acknowledged. */
  lemma StepDrops(c: Connection, e: Event, o: Outgoing)
    requires c.Valid() && Enabled(c, e) && o in c.sender.outstanding && o !in Step(c, e).sender.outstanding
    ensures o.End() <= Step(c, e).sender.acked
  {
    hide Chain, CutFrom, Sender.AllCut, Sender.Tiled, Sender.BackedOff, Sender.FillWindow, Connection.Tick,
         Receiver.SegmentReceived, Cuts, Connection.Stamp, Answer;
    match e {
      case Connect =>
        FillWindowKeeps(c.sender);
      case Write(data) =>
        if !c.sender.stream.ended {
          WriteKeeps(c.sender, data);
          FillWindowKeeps(c.sender.(stream := c.sender.stream.Write(data)));
        }
      case EndInputStream =>
        EndKeeps(c.sender);
        FillWindowKeeps(c.sender.(stream := c.sender.stream.(ended := true)));
      case Tick(ms) =>
        TickDropsNothing(c, ms);
      case Receive(seg) =>
        AnswerDrops(c, seg.header, o);
      case Read(n) =>
    }
  }

  lemma ForgottenIsAssembled(tx: Connection, rx: Connection, e: Event, o: Outgoing)
    requires tx.Valid() && rx.Valid() && Enabled(tx, e) && Step(tx, e).Valid() && Link(Step(tx, e), rx)
    requires o in tx.sender.outstanding && o !in Step(tx, e).sender.outstanding
    ensures Assembled(o, rx.receiver)
  {
    hide Link, CutFrom, Assembled, Step, Chain, Sender.BackedOff;
    StepKeeps(tx, e);
    StepDrops(tx, e, o);
    CutStays(o, tx.sender, Step(tx, e).sender);
    OutstandingIsNotEmpty(tx.sender, o);
    AckedIsAssembled(Step(tx, e), rx, o);
  }

  lemma OutstandingIsNotEmpty(s: Sender, o: Outgoing)
    requires s.Valid() && o in s.outstanding
    ensures 0 < o.seg.Length()
  {
    hide CutFrom;
    ChainIsNotEmpty(s.outstanding[0].pos, s.outstanding, s.nextSeqno, o);
  }

  lemma {:induction false} ChainIsNotEmpty(pos: nat, q: seq<Outgoing>, end: nat, o: Outgoing)
    requires Chain(pos, q, end) && o in q
    ensures 0 < o.seg.Length()
    decreases |q|
  {
    if o != q[0] {
      ChainIsNotEmpty(q[0].End(), q[1..], end, o);
    }
  }

  ghost predicate ClosedCleanly(c: Connection) {
    !c.Active() && !c.sender.stream.error && !c.receiver.Out().error
  }

  /** Both streams have arrived at the other side, complete and ended. */
  ghost predicate Exchanged(x: Connection, y: Connection) {
    && y.receiver.Out().written == x.sender.stream.written && y.receiver.Out().ended
    && x.receiver.Out().written == y.sender.stream.written && y.sender.stream.ended
  }

  lemma ClosedMeansExchanged(x: Connection, y: Connection)
    requires x.Valid() && y.Valid() && Link(x, y) && Link(y, x) && ClosedCleanly(x)
    ensures Exchanged(x, y)
  {
    hide Chain, CutFrom, Reassembler.Known, Sender.AllCut, Sender.Tiled, Sender.BackedOff;
    LinkDelivers(x, y);
    LinkDelivers(y, x);
    CleanShutdown(x);
  }
}
