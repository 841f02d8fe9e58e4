/** The three-way handshake (section 3.4 of RFC 793): it is possible, and it establishes both directions. */
module Handshake {
  import opened MachineIntegers
  import opened WrappingIntegers
  import opened Reassembly
  import opened TcpSegments
  import opened Receiving
  import opened Sending
  import opened Connecting
  import opened ConnectionRuns
  import opened Links
  import opened Protocol

  /** A sender that has nothing to say: open, nothing written, no error. */
  ghost predicate Silent(s: Sender) {
    s.stream.written == [] && !s.stream.ended && !s.stream.error
  }

  lemma ReceivingKeepsBuffer(r: Receiver, seg: TcpSegment)
    requires r.Valid()
    ensures var out := r.SegmentReceived(seg).Out();
            out.error == r.Out().error
  {
    hide Unwrap, Reassembler.Push;
    PushAppends(r.reassembler, seg.payload, U64(r.Position(seg.header) - 1), seg.header.fin);
  }

  /** Once a silent sender has sent anything it has sent just its SYN. */
  lemma SilentSentSyn(s: Sender)
    requires s.Valid() && Silent(s) && s.nextSeqno > 0
    ensures s.nextSeqno == 1
    ensures s.acked == 0 ==> s.outstanding != [] && IsSyn(s.outstanding[0])
  {
    InFlightIffOutstanding(s);
    if s.acked == 0 {
      assert s.outstanding[0] in s.outstanding;
    }
  }

  /** A bare SYN at position zero. */
  ghost predicate IsSyn(o: Outgoing) {
    o.pos == 0 && o.seg.header.syn && !o.seg.header.fin && o.seg.payload == []
  }

  /** What one side receives from a silent peer is nothing but the SYN. */
  lemma NothingReceived(tx: Connection, rx: Connection)
    requires tx.Valid() && rx.Valid() && Link(tx, rx) && Silent(tx.sender)
    ensures rx.receiver.ackno == 1 && !rx.receiver.Out().ended
  {
    hide Chain, CutFrom, Reassembler.Known, Sender.AllCut, Sender.Tiled, Sender.BackedOff;
    LinkDelivers(tx, rx);
  }

  /** Filling the window of a silent sender that was closed puts its SYN into the queue. */
  lemma SynIsQueued(s: Sender)
    requires s.Valid() && Silent(s) && s.nextSeqno == 0 && s.segmentsOut == []
    ensures var s' := s.FillWindow();
            && s'.Valid() && Silent(s') && s'.nextSeqno == 1 && s'.acked == 0
            && s'.segmentsOut != [] && IsSyn(s'.segmentsOut[0]) && !s'.segmentsOut[0].seg.header.rst
  {
    hide Chain, CutFrom;
    FillWindowKeeps(s);
    InFlightIffOutstanding(s);
    SilentSentSyn(s.FillWindow());
  }

  /** What an operation has put at the first free place of the outbound queue. */
  ghost function FirstNew(c: Connection, c': Connection): Packet
    requires |c.segmentsOut| < |c'.segmentsOut|
  {
    c'.segmentsOut[|c.segmentsOut|]
  }

  ghost predicate SentSyn(c: Connection, c': Connection) {
    && |c.segmentsOut| < |c'.segmentsOut|
    && var p := FirstNew(c, c');
       IsSyn(Outgoing(p.pos, p.seg)) && !p.seg.header.rst && Stamped(p, c'.receiver) && p in c'.segmentsOut
  }

  /** Opening sends the SYN. */
  lemma OpenSendsSyn(c: Connection)
    requires c.Valid() && Silent(c.sender) && c.sender.nextSeqno == 0
    ensures var c' := c.Connect();
            && Silent(c'.sender) && c'.sender.nextSeqno == 1 && c'.sender.acked == 0
            && SentSyn(c, c') && c'.receiver == c.receiver
  {
    hide Chain, CutFrom, Sender.FillWindow;
    SynIsQueued(c.sender);
    assert c.sender.FillWindow().AllCut();
    assert c.sender.FillWindow().segmentsOut[0] in c.sender.FillWindow().segmentsOut;
  }

  /** A SYN without acknowledgment makes a closed endpoint send its own, acknowledging it. */
  lemma SynBringsSyn(c: Connection, seg: TcpSegment)
    requires c.Valid() && Silent(c.sender) && c.sender.nextSeqno == 0
    requires seg.header.syn && !seg.header.ack && !seg.header.rst && !seg.header.fin
    ensures var c' := c.SegmentReceived(seg);
            && Silent(c'.sender) && c'.sender.nextSeqno == 1 && c'.sender.acked == 0
            && SentSyn(c, c') && c'.receiver.hasIsn && c'.receiver.Out().error == c.receiver.Out().error
  {
    hide Chain, CutFrom, Sender.FillWindow, Receiver.SegmentReceived;
    ReceivedKeepsValid(c.receiver, seg);
    IsnIsKept(c.receiver, seg);
    ReceivingKeepsBuffer(c.receiver, seg);
    SynIsQueued(c.sender);
    assert c.sender.FillWindow().AllCut();
    assert c.sender.FillWindow().segmentsOut[0] in c.sender.FillWindow().segmentsOut;
  }

  /** A bare acknowledgment at position one. */
  ghost predicate SentAck(c: Connection, c': Connection) {
    && |c.segmentsOut| < |c'.segmentsOut|
    && var p := FirstNew(c, c');
       && p.pos == 1 && p.seg.Length() == 0 && !p.seg.header.syn && !p.seg.header.rst
       && Stamped(p, c'.receiver) && p in c'.segmentsOut
  }

  /** An acknowledgment of position one completes a SYN, after which there is nothing to send. */
  lemma SynIsAcked(s: Sender, win: u16)
    requires s.Valid() && Silent(s) && s.nextSeqno == 1 && s.acked == 0 && s.segmentsOut == []
    ensures var s' := s.AckReceived(Wrap(1, s.isn), win);
            s'.Valid() && s'.FillWindow().Valid() && Silent(s'.FillWindow())
            && s'.FillWindow().nextSeqno == 1 == s'.FillWindow().acked && s'.FillWindow().segmentsOut == []
  {
    hide Chain, CutFrom, Sender.FillWindow, Sender.AckReceived, Unwrap, Cuts;
    UnwrapInvertsWrap(1, s.isn, 0);
    var s' := s.AckReceived(Wrap(1, s.isn), win);
    AckKeeps(s, Wrap(1, s.isn), win);
    AckIsCumulative(s, Wrap(1, s.isn), win, Outgoing(0, TcpSegment(BLANK_HEADER, [])));
    FillWindowKeeps(s');
    SilentSentSyn(s'.FillWindow());
    InFlightIffOutstanding(s'.FillWindow());
  }

  /** An endpoint that has sent only its SYN takes the acknowledgment, and answers a SYN. */
  lemma AckCompletesSyn(c: Connection, seg: TcpSegment)
    requires c.Valid() && Silent(c.sender) && c.sender.nextSeqno == 1 && c.sender.acked == 0
    requires seg.header.ack && !seg.header.rst && (c.receiver.hasIsn || seg.header.syn)
    requires seg.header.ackno == Wrap(1, c.sender.isn)
    ensures var c' := c.SegmentReceived(seg);
            && Silent(c'.sender) && c'.sender.nextSeqno == 1 && c'.sender.acked == 1
            && c'.receiver.hasIsn && c'.receiver.Out().error == c.receiver.Out().error
            && (seg.Length() > 0 ==> SentAck(c, c'))
  {
    hide Chain, CutFrom, Sender.FillWindow, Sender.AckReceived, Receiver.SegmentReceived, Wrap;
    ReceivedKeepsValid(c.receiver, seg);
    IsnIsKept(c.receiver, seg);
    ReceivingKeepsBuffer(c.receiver, seg);
    SynIsAcked(c.sender, seg.header.win);
  }

  ghost predicate Established(c: Connection) {
    SummarizeSender(c.sender) == SynAcked && SummarizeReceiver(c.receiver) == SynRecv
  }

  lemma RunPrepend(sys: System, m: Move, rest: seq<Move>)
    requires sys.Valid() && Possible(sys, m) && Next(sys, m).Valid() && PossibleRun(Next(sys, m), rest)
    ensures PossibleRun(sys, [m] + rest) && Final(sys, [m] + rest) == Final(Next(sys, m), rest)
  {
    hide Possible, Next;
    assert ([m] + rest)[1..] == rest;
  }

  /** From two fresh endpoints, with any configurations: opening one and delivering the three
      segments this brings about is a possible run, and it establishes both directions. */
  lemma HandshakeEstablishes(cfgA: TcpConfig, cfgB: TcpConfig) returns (syn: Packet, synAck: Packet, ack: Packet)
    requires cfgA.Valid() && cfgB.Valid()
    ensures var run := [Local(true, Event.Connect)] + ([Deliver(false, syn)] + ([Deliver(true, synAck)]
                       + ([Deliver(false, ack)] + [])));
            && PossibleRun(Fresh(cfgA, cfgB), run)
            && Established(Final(Fresh(cfgA, cfgB), run).a) && Established(Final(Fresh(cfgA, cfgB), run).b)
  {
    hide Possible, Next, PossibleRun, Established, Connection.Valid;
    var s0 := Fresh(cfgA, cfgB);
    var s1, s2, s3, s4;
    s1, syn := FirstMove(s0);
    s2, synAck := SecondMove(s1, syn);
    s3, ack := ThirdMove(s2, synAck);
    s4 := FourthMove(s3, ack);
    assert PossibleRun(s4, []) && Final(s4, []) == s4 by { EmptyRun(s4); }
    RunPrepend(s3, Deliver(false, ack), []);
    RunPrepend(s2, Deliver(true, synAck), [Deliver(false, ack)] + []);
    RunPrepend(s1, Deliver(false, syn), [Deliver(true, synAck)] + ([Deliver(false, ack)] + []));
    RunPrepend(s0, Local(true, Event.Connect),
               [Deliver(false, syn)] + ([Deliver(true, synAck)] + ([Deliver(false, ack)] + [])));
  }

  lemma EmptyRun(sys: System)
    requires sys.Valid()
    ensures PossibleRun(sys, []) && Final(sys, []) == sys
  {
  }

  /** Neither side has anything to say and neither stream is marked. */
  ghost predicate Quiet(sys: System) {
    && sys.Valid() && Silent(sys.a.sender) && Silent(sys.b.sender)
    && !sys.a.receiver.Out().error && !sys.b.receiver.Out().error
  }

  lemma FirstMove(s: System) returns (s': System, p: Packet)
    requires Quiet(s) && s.a.sender.nextSeqno == 0 && s.b.sender.nextSeqno == 0
    requires !s.a.receiver.hasIsn
    ensures Possible(s, Local(true, Event.Connect)) && s' == Next(s, Local(true, Event.Connect)) && Quiet(s')
    ensures SentSyn(s.a, s'.a) && p == FirstNew(s.a, s'.a) && !s'.a.receiver.hasIsn
    ensures s'.a.sender.nextSeqno == 1 && s'.a.sender.acked == 0 && s'.b.sender.nextSeqno == 0
  {
    hide Connection.Valid, Link, Connection.Connect;
    OpenSendsSyn(s.a);
    s' := Next(s, Local(true, Event.Connect));
    NextKeeps(s, Local(true, Event.Connect));
    p := FirstNew(s.a, s'.a);
  }

  lemma SecondMove(s: System, p: Packet) returns (s': System, p': Packet)
    requires Quiet(s) && s.a.sender.nextSeqno == 1 && s.a.sender.acked == 0 && s.b.sender.nextSeqno == 0
    requires IsSyn(Outgoing(p.pos, p.seg)) && !p.seg.header.rst && !p.seg.header.ack && p in s.a.segmentsOut
    ensures Possible(s, Deliver(false, p)) && s' == Next(s, Deliver(false, p)) && Quiet(s')
    ensures s'.a == s.a && SentSyn(s.b, s'.b) && p' == FirstNew(s.b, s'.b) && s'.b.receiver.hasIsn
    ensures s'.b.sender.nextSeqno == 1 && s'.b.sender.acked == 0
  {
    hide Connection.Valid, Link, Connection.SegmentReceived;
    NothingReceived(s.a, s.b);
    SynBringsSyn(s.b, p.seg);
    s' := Next(s, Deliver(false, p));
    NextKeeps(s, Deliver(false, p));
    p' := FirstNew(s.b, s'.b);
  }

  lemma ThirdMove(s: System, p: Packet) returns (s': System, p': Packet)
    requires Quiet(s) && s.a.sender.nextSeqno == 1 && s.a.sender.acked == 0 && s.b.sender.nextSeqno == 1
    requires IsSyn(Outgoing(p.pos, p.seg)) && !p.seg.header.rst && p in s.b.segmentsOut
    requires s.b.receiver.hasIsn && Stamped(p, s.b.receiver)
    ensures Possible(s, Deliver(true, p)) && s' == Next(s, Deliver(true, p)) && Quiet(s')
    ensures s'.b == s.b && SentAck(s.a, s'.a) && p' == FirstNew(s.a, s'.a) && s'.a.receiver.hasIsn
    ensures s'.a.sender.nextSeqno == 1 && s'.a.sender.acked == 1
  {
    hide Connection.Valid, Connection.SegmentReceived, Faithful;
    NothingReceived(s.a, s.b);
    NothingReceived(s.b, s.a);
    IsnAgrees(s.a.sender, s.b.receiver);
    AckCompletesSyn(s.a, p.seg);
    s' := Next(s, Deliver(true, p));
    NextKeeps(s, Deliver(true, p));
    p' := FirstNew(s.a, s'.a);
  }

  lemma FourthMove(s: System, p: Packet) returns (s': System)
    requires Quiet(s) && s.a.sender.nextSeqno == 1 == s.a.sender.acked
    requires s.b.sender.nextSeqno == 1 && s.b.sender.acked == 0
    requires p.pos == 1 && p.seg.Length() == 0 && !p.seg.header.syn && !p.seg.header.rst && p in s.a.segmentsOut
    requires s.a.receiver.hasIsn && s.b.receiver.hasIsn && Stamped(p, s.a.receiver)
    ensures Possible(s, Deliver(false, p)) && s' == Next(s, Deliver(false, p)) && Quiet(s')
    ensures Established(s'.a) && Established(s'.b)
  {
    hide Connection.Valid, Connection.SegmentReceived, Faithful;
    NothingReceived(s.a, s.b);
    NothingReceived(s.b, s.a);
    IsnAgrees(s.b.sender, s.a.receiver);
    AckCompletesSyn(s.b, p.seg);
    s' := Next(s, Deliver(false, p));
    NextKeeps(s, Deliver(false, p));
    NothingReceived(s'.a, s'.b);
  }
}
