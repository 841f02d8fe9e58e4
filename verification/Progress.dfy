/**
 Retransmission makes progress: in an established connection, one retransmission of the
 oldest segment, its delivery and the delivery of the answer move the acknowledged
 position past that segment, if the receiver has room for it.
 */
module Progress {
  import opened MachineIntegers
  import opened WrappingIntegers
  import opened Runs
  import opened Reassembly
  import opened TcpSegments
  import opened Receiving
  import opened Sending
  import opened Connecting
  import opened ConnectionRuns
  import opened Links
  import opened Protocol
  import opened Handshake

  // ------------------------------------------------------------------ the segment arrives

  /** A segment that reaches back to the assembled part is assembled as far as there is room. */
  lemma InOrderIsAssembled(r: Reassembler, data: seq<byte>, index: u64, fin: bool)
    requires r.Valid() && index + |data| < 0x1_0000_0000_0000_0000 && index <= r.next
    ensures Min(index + |data|, r.Upper()) <= r.Push(data, index, fin).next
  {
    hide Reassembler.Push, Kept;
    var r' := r.Push(data, index, fin);
    PushKeepsValid(r, data, index, fin);
    PushAppends(r, data, index, fin);
    NextIsFirstMissing(r', r'.next);
    PushIsUnion(r, data, index, fin, r'.next);
  }

  /** Delivering a segment that reaches back to what the receiver has acknowledged moves the
      acknowledgment on if there is room for anything, and past the segment if it fits. */
  lemma DeliveryAdvances(s: Sender, r: Receiver, o: Outgoing)
    requires s.Accounted() && r.Valid() && Faithful(s, r) && CutFrom(o, s) && 0 < o.seg.Length()
    requires (r.hasIsn || o.seg.header.syn) && Decodable(o, r) && o.pos <= r.ackno
    ensures var r' := r.SegmentReceived(o.seg);
            && (First(o) + |o.seg.payload| <= r.reassembler.Upper() ==> o.End() <= r'.ackno)
            && (r.ackno < o.End() && r.reassembler.next < r.reassembler.Upper() ==> r.ackno < r'.ackno)
  {
    hide Unwrap, Reassembler.Push, Reassembler.Known, Receiver.Position, U64;
    IndexIsExact(s, r, o);
    WrittenIsSent(s, r.reassembler);
    if First(o) <= r.reassembler.next {
      InOrderIsAssembled(r.reassembler, o.seg.payload, First(o), o.seg.header.fin);
    }
    HonestReceive(s, r, o);
    ReceivedKeepsValid(r, o.seg);
    PushEnds(r.reassembler, o.seg.payload, First(o), o.seg.header.fin);
    PushAppends(r.reassembler, o.seg.payload, First(o), o.seg.header.fin);
    WrittenIsSent(s, r.SegmentReceived(o.seg).reassembler);
  }

  // ------------------------------------------------------------------ the three moves

  /** The same piece of the stream. */
  ghost predicate SamePiece(p: Packet, o: Outgoing) {
    && p.pos == o.pos && p.seg.payload == o.seg.payload
    && p.seg.header.syn == o.seg.header.syn && p.seg.header.fin == o.seg.header.fin && !p.seg.header.rst
  }

  /** When the timeout passes and the retry limit is not exceeded, the oldest segment goes out again. */
  lemma TimeoutResends(c: Connection, ms: nat)
    requires c.Valid() && c.sender.outstanding != [] && c.sender.timer.rto <= c.sender.timer.waited + ms
    requires c.sender.Tick(ms).retransmissions <= 8
    ensures var c' := c.Tick(ms);
            && |c'.segmentsOut| == |c.segmentsOut| + 1 && FirstNew(c, c') in c'.segmentsOut
            && SamePiece(FirstNew(c, c'), c.sender.outstanding[0]) && Stamped(FirstNew(c, c'), c'.receiver)
            && c'.receiver == c.receiver && c'.rtTimeout == c.rtTimeout
            && c'.sender == c.sender.(timer := c'.sender.timer, retransmissions := c'.sender.retransmissions)
  {
    hide Chain, CutFrom;
    assert c.sender.outstanding[0] in c.sender.outstanding;
  }

  /** A segment that occupies sequence numbers is answered by one that acknowledges where the
      receiver then is, at a position not yet used. */
  lemma AnswerIsFresh(c: Connection, seg: TcpSegment)
    requires c.Valid() && !seg.header.rst && (c.receiver.hasIsn || seg.header.syn) && 0 < seg.Length()
    ensures var c' := c.SegmentReceived(seg);
            && |c.segmentsOut| < |c'.segmentsOut| && FirstNew(c, c') in c'.segmentsOut
            && Stamped(FirstNew(c, c'), c'.receiver) && !FirstNew(c, c').seg.header.rst
            && c.sender.nextSeqno <= FirstNew(c, c').pos <= c'.sender.nextSeqno
            && c'.receiver == c.receiver.SegmentReceived(seg) && c'.receiver.hasIsn
  {
    hide Chain, CutFrom, Sender.FillWindow, Sender.AckReceived, Receiver.SegmentReceived, Answer, Wrap;
    ReceivedKeepsValid(c.receiver, seg);
    IsnIsKept(c.receiver, seg);
    AnswerKeeps(c, seg.header);
    var s := Answer(c.sender, seg.header);
    if s.segmentsOut != [] {
      assert s.segmentsOut[0] in s.segmentsOut;
      AnswerCuts(c, seg.header, s.segmentsOut[0]);
    }
  }

  lemma AnswerAdvances(s: Sender, header: TcpHeader, pos: nat)
    requires s.Valid() && header.ack
    requires header.ackno == Wrap(pos, s.isn) && Decodes(pos, s.acked) && pos <= s.nextSeqno
    ensures var s' := Answer(s, header);
            s'.acked == Max(s.acked, pos) && (pos > s.acked ==> s'.retransmissions == 0)
  {
    hide Chain, CutFrom, Sender.AllCut, Sender.Tiled, Sender.BackedOff, Sender.FillWindow, Sender.AckReceived,
         Unwrap, Cuts, Wrap;
    UnwrapInvertsWrap(pos, s.isn, s.acked);
    AckKeeps(s, header.ackno, header.win);
    AckIsCumulative(s, header.ackno, header.win, Outgoing(0, TcpSegment(header, [])));
    FillWindowKeeps(s.AckReceived(header.ackno, header.win));
  }

  lemma AckAdvances(c: Connection, seg: TcpSegment, pos: nat)
    requires c.Valid() && seg.header.ack && !seg.header.rst && (c.receiver.hasIsn || seg.header.syn)
    requires seg.header.ackno == Wrap(pos, c.sender.isn) && Decodes(pos, c.sender.acked) && pos <= c.sender.nextSeqno
    ensures var s := c.SegmentReceived(seg).sender;
            s.acked == Max(c.sender.acked, pos) && (pos > c.sender.acked ==> s.retransmissions == 0)
  {
    hide Chain, CutFrom, Sender.AllCut, Sender.Tiled, Sender.BackedOff, Answer, Receiver.SegmentReceived,
         Connection.Stamp, Wrap, Decodes;
    ReceivedKeepsValid(c.receiver, seg);
    IsnIsKept(c.receiver, seg);
    AnswerAdvances(c.sender, seg.header, pos);
  }

  // ------------------------------------------------------------------ one round

  /** Everything a sender has to say: SYN, the bytes written, and FIN once the stream has ended. */
  ghost function Total(s: Sender): nat { 1 + |s.stream.written| + (if s.stream.ended then 1 else 0) }

  /** The applications neither write nor close, and nothing breaks. */
  ghost predicate SameInput(c: Connection, c': Connection) {
    && c'.sender.stream.(popped := c.sender.stream.popped) == c.sender.stream
    && c'.receiver.Out().error == c.receiver.Out().error && c'.rtTimeout == c.rtTimeout
  }

  lemma AnswerKeepsInput(s: Sender, header: TcpHeader)
    requires s.Valid()
    ensures var s' := Answer(s, header);
            s'.stream.(popped := s.stream.popped) == s.stream && s'.retransmissions <= s.retransmissions
  {
    hide Chain, CutFrom, Sender.AllCut, Sender.Tiled, Sender.BackedOff, Sender.FillWindow, Sender.AckReceived,
         Unwrap, Cuts;
    var s' := s.AckReceived(header.ackno, header.win);
    AckKeeps(s, header.ackno, header.win);
    AckIsCumulative(s, header.ackno, header.win, Outgoing(0, TcpSegment(header, [])));
    FillWindowKeeps(s);
    FillWindowKeeps(s');
  }

  lemma ReceivingKeepsInput(c: Connection, seg: TcpSegment)
    requires c.Valid() && !seg.header.rst
    ensures var c' := c.SegmentReceived(seg);
            SameInput(c, c') && c'.sender.retransmissions <= c.sender.retransmissions
  {
    hide Chain, CutFrom, Sender.AllCut, Sender.Tiled, Sender.BackedOff, Answer, Receiver.SegmentReceived,
         Connection.Stamp;
    ReceivedKeepsValid(c.receiver, seg);
    ReceivingKeepsBuffer(c.receiver, seg);
    AnswerKeepsInput(c.sender, seg.header);
  }

  /** A sender with something left to say keeps a segment for retransmission. */
  lemma SomethingIsOutstanding(c: Connection)
    requires c.Valid() && (0 < c.sender.nextSeqno || 0 < c.sender.acked)
    ensures c.sender.acked < Total(c.sender) ==> c.sender.outstanding != []
    ensures c.sender.acked <= c.sender.nextSeqno <= Total(c.sender)
  {
    hide Chain, CutFrom, Sender.AllCut, Sender.BackedOff;
  }

  lemma OldestSegment(s: Sender)
    requires s.Valid() && s.outstanding != []
    ensures var o := s.outstanding[0];
            && o.pos <= s.acked < o.End() <= s.nextSeqno <= s.acked + 65535 && |o.seg.payload| <= 1000
            && CutFrom(o, s)
  {
    hide Chain;
    assert s.outstanding[0] in s.outstanding;
  }

  /** All sequence numbers stay below 2^64. */
  ghost predicate Sustained(c: Connection) {
    |c.sender.stream.written| + 2 < 0x1_0000_0000_0000_0000
  }

  /** Both ends are within 65535 of each other's positions, so nothing new is ambiguous. */
  lemma PositionsAreClose(tx: Connection, rx: Connection)
    requires tx.Valid() && rx.Valid() && Link(tx, rx) && 0 < tx.sender.nextSeqno && Sustained(tx)
    ensures tx.sender.acked <= rx.receiver.ackno <= tx.sender.nextSeqno < 0x1_0000_0000_0000_0000
    ensures tx.sender.nextSeqno <= tx.sender.acked + 65535
    ensures Decodes(rx.receiver.ackno, tx.sender.acked)
  {
    hide Chain, CutFrom, Sender.AllCut, Sender.Tiled, Sender.BackedOff, Faithful;
    LinkDelivers(tx, rx);
    SomethingIsOutstanding(tx);
  }

  lemma HasSpoken(tx: Connection, rx: Connection)
    requires tx.Valid() && rx.Valid() && Link(tx, rx) && rx.receiver.hasIsn
    ensures 0 < tx.sender.nextSeqno
  {
  }

  /** The oldest outstanding segment, sent again, is one its receiver can use. */
  lemma OldestIsUsable(tx: Connection, rx: Connection, p: Packet)
    requires tx.Valid() && rx.Valid() && Link(tx, rx) && Sustained(tx)
    requires tx.sender.outstanding != [] && p in tx.segmentsOut && SamePiece(p, tx.sender.outstanding[0])
    ensures var o := Outgoing(p.pos, p.seg);
            && CutFrom(o, tx.sender) && 0 < o.seg.Length() && (rx.receiver.hasIsn || o.seg.header.syn)
            && Decodable(o, rx.receiver) && o.pos <= tx.sender.acked <= rx.receiver.ackno
            && tx.sender.acked < o.End()
  {
    hide Chain, Sender.AllCut, Sender.Tiled, Sender.BackedOff, Sender.Filled, Faithful, Reassembler.Valid;
    OldestSegment(tx.sender);
    PositionsAreClose(tx, rx);
  }

  lemma OldestAdvances(tx: Connection, rx: Connection, p: Packet)
    requires tx.Valid() && rx.Valid() && Link(tx, rx)
    requires var o := Outgoing(p.pos, p.seg);
             && CutFrom(o, tx.sender) && 0 < o.seg.Length() && (rx.receiver.hasIsn || o.seg.header.syn)
             && Decodable(o, rx.receiver) && o.pos <= tx.sender.acked <= rx.receiver.ackno && tx.sender.acked < o.End()
    requires rx.receiver.Out().BufferSize() == 0
    ensures tx.sender.acked < rx.receiver.SegmentReceived(p.seg).ackno
  {
    hide Chain, CutFrom, Sender.AllCut, Sender.Tiled, Sender.BackedOff, Sender.Filled, Faithful, AcksBounded,
         Decodable, Receiver.SegmentReceived;
    ReceivedAdvances(rx.receiver, p.seg);
    DeliveryAdvances(tx.sender, rx.receiver, Outgoing(p.pos, p.seg));
  }

  /** The next timeout does not reset the connection: it is at most the eighth in a row that
      counts, and at a zero window none counts. */
  ghost predicate CanRetry(s: Sender) {
    s.retransmissions < 8 || (s.retransmissions == 8 && s.window == 0)
  }

  // ------------------------------------------------------------------ the moves of a round

  /** The application at B reads all it can. */
  lemma MakeRoom(s: System) returns (s': System, m: Move)
    requires s.Valid()
    ensures Possible(s, m) && s' == Next(s, m) && s'.Valid()
    ensures s'.a == s.a && s'.b == s.b.(receiver := s'.b.receiver) && SameInput(s.b, s'.b)
    ensures s'.b.receiver.Out().Valid() && s'.b.receiver.Out().BufferSize() == 0
    ensures (s'.b.receiver.hasIsn, s'.b.receiver.Out().ended) == (s.b.receiver.hasIsn, s.b.receiver.Out().ended)
  {
    hide Link, Sender.Filled, Sender.Valid, CutFrom;
    m := Local(false, Event.Read(s.b.receiver.Out().BufferSize()));
    s' := Next(s, m);
    NextKeeps(s, m);
  }

  /** The timeout passes at A. */
  lemma ResendOldest(s: System) returns (s': System, m: Move, p: Packet)
    requires s.Valid() && s.a.sender.outstanding != [] && CanRetry(s.a.sender)
    ensures Possible(s, m) && s' == Next(s, m) && s'.Valid()
    ensures s'.b == s.b && s'.a.receiver == s.a.receiver && s'.a.rtTimeout == s.a.rtTimeout && p in s'.a.segmentsOut
    ensures SamePiece(p, s.a.sender.outstanding[0]) && Stamped(p, s'.a.receiver) && s'.b.sender.acked <= p.ackPos
    ensures s'.a.sender == s.a.sender.(timer := s'.a.sender.timer, retransmissions := s'.a.sender.retransmissions)
  {
    hide Faithful, AcksBounded, Connection.Sound, Connection.Tick, Sender.Filled;
    var ms := s.a.sender.timer.rto;
    m := Local(true, Event.Tick(ms));
    TimeoutResends(s.a, ms);
    s' := Next(s, m);
    NextKeeps(s, m);
    p := FirstNew(s.a, s'.a);
  }

  /** What a fresh stamp does to the side it arrives at: a new acknowledgment gives back its
      retries, an old one leaves what it keeps for retransmission. */
  lemma StampIsTaken(tx: Connection, rx: Connection, p: Packet)
    requires tx.Valid() && rx.Valid() && Link(tx, rx) && Sustained(tx) && rx.receiver.hasIsn
    requires Stamped(p, rx.receiver) && !p.seg.header.rst && (tx.receiver.hasIsn || p.seg.header.syn)
    ensures var s, s' := tx.sender, tx.SegmentReceived(p.seg).sender;
            && (s.acked < rx.receiver.ackno ==> s'.retransmissions == 0)
            && (s.acked == rx.receiver.ackno && s.outstanding != [] ==> s.outstanding <= s'.outstanding)
            && s'.acked == rx.receiver.ackno
    ensures tx.segmentsOut <= tx.SegmentReceived(p.seg).segmentsOut
  {
    hide Connection.Sound, Sender.Filled, Faithful, AcksBounded, Connection.SegmentReceived, Decodes, Wrap;
    HasSpoken(tx, rx);
    PositionsAreClose(tx, rx);
    IsnAgrees(tx.sender, rx.receiver);
    AckAdvances(tx, p.seg, rx.receiver.ackno);
    if tx.sender.acked == rx.receiver.ackno && tx.sender.outstanding != [] {
      OldAckDropsNothing(tx, p.seg);
    }
    ReceiveKeeps(tx, p.seg);
  }

  /** The segment arrives at B, which has room and answers. */
  lemma SegmentArrives(s: System, p: Packet) returns (s': System, q: Packet)
    requires s.Valid() && Sustained(s.a) && Sustained(s.b)
    requires s.a.sender.outstanding != [] && SamePiece(p, s.a.sender.outstanding[0])
    requires p in s.a.segmentsOut && s.b.receiver.Out().BufferSize() == 0
    requires p.seg.header.ack ==> s.b.sender.acked <= p.ackPos + 65535
    ensures Possible(s, Deliver(false, p)) && s' == Next(s, Deliver(false, p)) && s'.Valid()
    ensures s'.a == s.a && s.a.sender.acked < s'.b.receiver.ackno && s'.b.receiver.hasIsn
    ensures q in s'.b.segmentsOut && Stamped(q, s'.b.receiver) && !q.seg.header.rst
    ensures s.a.receiver.hasIsn ==> 0 < q.pos && s.a.receiver.ackno <= q.pos
    ensures SameInput(s.b, s'.b) && s'.b.sender.retransmissions <= s.b.sender.retransmissions
    ensures (p.seg.header.syn || s.b.receiver.hasIsn) && s'.b == s.b.SegmentReceived(p.seg)
  {
    hide Connection.Sound, Sender.Filled, Faithful, AcksBounded, Connection.SegmentReceived, Decodable, Decodes,
         CutFrom, Receiver.SegmentReceived;
    OldestIsUsable(s.a, s.b, p);
    if s.a.receiver.hasIsn {
      HasSpoken(s.b, s.a);
      PositionsAreClose(s.b, s.a);
    }
    if p.seg.header.ack {
      AckIsUsable(s.b, s.a, p);
    }
    assert Possible(s, Deliver(false, p));
    s' := Next(s, Deliver(false, p));
    NextKeeps(s, Deliver(false, p));
    ReceivingKeepsInput(s.b, p.seg);
    AnswerIsFresh(s.b, p.seg);
    OldestAdvances(s.a, s.b, p);
    q := FirstNew(s.b, s'.b);
  }

  /** An acknowledgment not too far behind is decoded as it was meant. */
  lemma AckIsUsable(tx: Connection, rx: Connection, p: Packet)
    requires tx.Valid() && rx.Valid() && Link(tx, rx) && Sustained(tx)
    requires p in rx.segmentsOut && p.seg.header.ack && tx.sender.acked <= p.ackPos + 65535
    ensures rx.receiver.hasIsn && Decodes(p.ackPos, tx.sender.acked)
  {
    hide Chain, CutFrom, Sender.AllCut, Sender.Tiled, Sender.BackedOff, Sender.Filled, Wrap;
    HasSpoken(tx, rx);
    PositionsAreClose(tx, rx);
  }

  /** An acknowledgment of what is acknowledged already drops nothing. */
  lemma OldAckDropsNothing(c: Connection, seg: TcpSegment)
    requires c.Valid() && seg.header.ack && !seg.header.rst && (c.receiver.hasIsn || seg.header.syn)
    requires seg.header.ackno == Wrap(c.sender.acked, c.sender.isn) && c.sender.acked < 0x1_0000_0000_0000_0000
    requires c.sender.outstanding != []
    ensures c.sender.outstanding <= c.SegmentReceived(seg).sender.outstanding
  {
    hide Chain, CutFrom, Sender.AllCut, Sender.BackedOff, Sender.FillWindow, Receiver.SegmentReceived, Connection.Stamp,
         Unwrap, Wrap, Cuts;
    ReceivedKeepsValid(c.receiver, seg);
    IsnIsKept(c.receiver, seg);
    U64Same(c.sender.acked);
    UnwrapInvertsWrap(c.sender.acked, c.sender.isn, c.sender.acked);
    AckKeeps(c.sender, seg.header.ackno, seg.header.win);
    FillWindowKeeps(c.sender.AckReceived(seg.header.ackno, seg.header.win));
  }

  lemma AnswerIsUsable(tx: Connection, rx: Connection, q: Packet)
    requires tx.Valid() && rx.Valid() && Link(tx, rx) && Sustained(tx)
    requires q in tx.segmentsOut && 0 < q.pos && rx.receiver.ackno <= q.pos
    ensures Decodable(Outgoing(q.pos, q.seg), rx.receiver)
  {
    hide Chain, Sender.AllCut, Sender.Tiled, Sender.BackedOff, Sender.Filled, Faithful, AcksBounded;
    PositionsAreClose(tx, rx);
  }

  /** The answer arrives at A, which takes the acknowledgment. */
  lemma AnswerArrives(s: System, q: Packet) returns (s': System)
    requires s.Valid() && s.a.receiver.hasIsn && s.b.receiver.hasIsn && Sustained(s.a) && Sustained(s.b)
    requires q in s.b.segmentsOut && Stamped(q, s.b.receiver) && !q.seg.header.rst
    requires 0 < q.pos && s.a.receiver.ackno <= q.pos && s.a.sender.acked < s.b.receiver.ackno
    ensures Possible(s, Deliver(true, q)) && s' == Next(s, Deliver(true, q)) && s'.Valid()
    ensures s'.b == s.b && s'.a.receiver.hasIsn && SameInput(s.a, s'.a)
    ensures s'.a.sender.acked == s.b.receiver.ackno && s'.a.sender.retransmissions == 0
  {
    hide Connection.Sound, Sender.Filled, Faithful, AcksBounded, Connection.SegmentReceived, Decodable, Decodes,
         CutFrom, Receiver.SegmentReceived;
    HasSpoken(s.a, s.b);
    PositionsAreClose(s.a, s.b);
    AnswerIsUsable(s.b, s.a, q);
    assert Possible(s, Deliver(true, q));
    s' := Next(s, Deliver(true, q));
    NextKeeps(s, Deliver(true, q));
    IsnAgrees(s.a.sender, s.b.receiver);
    AckAdvances(s.a, q.seg, s.b.receiver.ackno);
    ReceivingKeepsInput(s.a, q.seg);
    StepAdvances(s.a, Receive(q.seg));
  }

  /** One round: the application at B reads, A sends its oldest segment again, and B's answer
      returns. It is possible whenever A has a segment outstanding, and moves the
      acknowledged position. */
  lemma Round(s: System) returns (s': System, run: seq<Move>)
    requires s.Valid() && s.a.receiver.hasIsn && Sustained(s.a) && Sustained(s.b)
    requires s.a.sender.outstanding != [] && CanRetry(s.a.sender)
    ensures PossibleRun(s, run) && s' == Final(s, run)
    ensures s.a.sender.acked < s'.a.sender.acked
    ensures s'.a.receiver.hasIsn && SameInput(s.a, s'.a) && SameInput(s.b, s'.b)
    ensures s'.a.sender.retransmissions == 0 && s'.b.sender.retransmissions <= s.b.sender.retransmissions
    ensures s.b.sender.acked < s.a.receiver.ackno ==> s'.b.sender.retransmissions == 0
  {
    hide Connection.Valid, Link, Possible, Next, PossibleRun, Stamped, Final;
    var s1, m1 := MakeRoom(s);
    var s2, m2, p := ResendOldest(s1);
    var s3, q := SegmentArrives(s2, p);
    StampIsTaken(s2.b, s2.a, p);
    s' := AnswerArrives(s3, q);
    EmptyRun(s');
    RunPrepend(s3, Deliver(true, q), []);
    RunPrepend(s2, Deliver(false, p), [Deliver(true, q)] + []);
    RunPrepend(s1, m2, [Deliver(false, p)] + ([Deliver(true, q)] + []));
    RunPrepend(s, m1, [m2] + ([Deliver(false, p)] + ([Deliver(true, q)] + [])));
    run := [m1] + ([m2] + ([Deliver(false, p)] + ([Deliver(true, q)] + [])));
  }
}
