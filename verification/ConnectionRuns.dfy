/** What holds over every run of one endpoint, whatever segments the network brings. */
module ConnectionRuns {
  import opened MachineIntegers
  import opened WrappingIntegers
  import opened TcpSegments
  import opened Reassembly
  import opened Receiving
  import opened Sending
  import opened Connecting

  // ------------------------------------------------------------------ runs

  /** A run is any sequence of operations in which the application reads no more
      than is there. */
  ghost predicate Legal(c: Connection, run: seq<Event>)
    requires c.Valid()
    decreases |run|
  {
    run == [] || (Enabled(c, run[0]) && (StepKeeps(c, run[0]); Legal(Step(c, run[0]), run[1..])))
  }

  ghost function After(c: Connection, run: seq<Event>): (c': Connection)
    requires c.Valid() && Legal(c, run)
    ensures c'.Valid()
    decreases |run|
  {
    if run == [] then c else StepKeeps(c, run[0]); After(Step(c, run[0]), run[1..])
  }

  // ------------------------------------------------------------------ the state summaries

  datatype SenderSummary = Closed | SynSent | SynAcked | FinSent | FinAcked | SenderError {
    function Rank(): nat {
      match this
      case Closed => 0
      case SynSent => 1
      case SynAcked => 2
      case FinSent => 3
      case FinAcked => 4
      case SenderError => 5
    }
  }

  datatype ReceiverSummary = Listen | SynRecv | FinRecv | ReceiverError {
    function Rank(): nat {
      match this
      case Listen => 0
      case SynRecv => 1
      case FinRecv => 2
      case ReceiverError => 3
    }
  }

  function SummarizeSender(s: Sender): SenderSummary {
    if s.stream.error then SenderError
    else if s.nextSeqno == 0 then Closed
    else if s.nextSeqno == s.BytesInFlight() then SynSent
    else if !s.stream.Eof() then SynAcked
    else if s.nextSeqno < |s.stream.written| + 2 then SynAcked
    else if s.BytesInFlight() != 0 then FinSent
    else FinAcked
  }

  function SummarizeReceiver(r: Receiver): ReceiverSummary {
    if r.Out().error then ReceiverError
    else if !r.hasIsn then Listen
    else if r.Out().ended then FinRecv
    else SynRecv
  }

  /** The arithmetic test of the summary is the hidden flag, and the summaries are what the
      flags and counters say. */
  lemma SummaryIsExact(s: Sender)
    requires s.Valid()
    ensures 0 < s.nextSeqno && s.stream.Eof() ==> (s.nextSeqno < |s.stream.written| + 2 <==> !s.sentFin)
    ensures SummarizeSender(s) == SenderError <==> s.stream.error
    ensures !s.stream.error ==>
              && (SummarizeSender(s) == Closed <==> s.nextSeqno == 0)
              && (SummarizeSender(s) == SynSent <==> 0 == s.acked < s.nextSeqno)
              && (SummarizeSender(s) == SynAcked <==> 0 < s.acked && !s.sentFin)
              && (SummarizeSender(s) == FinSent <==> 0 < s.acked < s.nextSeqno && s.sentFin)
              && (SummarizeSender(s) == FinAcked <==> 0 < s.acked == s.nextSeqno && s.sentFin)
  {
  }

  /** A receiver is where its acknowledgment says: before the SYN, between, or past the FIN,
      whether or not everything has been read. */
  lemma ReceiverSummaryIsExact(r: Receiver)
    requires r.Valid()
    ensures SummarizeReceiver(r) == ReceiverError <==> r.Out().error
    ensures !r.Out().error ==>
              && (SummarizeReceiver(r) == Listen <==> r.Ackno().None?)
              && (SummarizeReceiver(r) == SynRecv <==> r.Ackno().Some? && r.ackno == 1 + |r.Out().written|)
              && (SummarizeReceiver(r) == FinRecv <==> r.Ackno().Some? && r.ackno == 2 + |r.Out().written|)
  {
  }

  /** A receiver never takes anything back either. */
  ghost predicate Advances(r: Receiver, r': Receiver) {
    && (r.hasIsn ==> r'.hasIsn) && r.ackno <= r'.ackno
    && r.Out().written <= r'.Out().written && r.Out().popped <= r'.Out().popped
    && (r.Out().ended ==> r'.Out().ended) && (r.Out().error ==> r'.Out().error)
  }

  lemma ReceivedAdvances(r: Receiver, seg: TcpSegment)
    requires r.Valid()
    ensures Advances(r, r.SegmentReceived(seg))
  {
    hide Unwrap, Reassembler.Push;
    PushAppends(r.reassembler, seg.payload, U64(r.Position(seg.header) - 1), seg.header.fin);
  }

  lemma StepAdvances(c: Connection, e: Event)
    requires c.Valid() && Enabled(c, e)
    ensures Advances(c.receiver, Step(c, e).receiver)
  {
    hide Chain, CutFrom, Sender.Tick, Sender.FillWindow, Sender.AckReceived, Receiver.SegmentReceived;
    if e.Receive? {
      ReceivedAdvances(c.receiver, e.seg);
    }
  }

  lemma SenderMovesForward(s: Sender, s': Sender)
    requires s.Valid() && s'.Valid() && Extends(s, s')
    ensures SummarizeSender(s).Rank() <= SummarizeSender(s').Rank()
  {
  }

  /** Over every run both summaries only move forward, and an error stays. */
  lemma {:induction false} SummariesMoveForward(c: Connection, run: seq<Event>)
    requires c.Valid() && Legal(c, run)
    ensures var c' := After(c, run);
            && SummarizeSender(c.sender).Rank() <= SummarizeSender(c'.sender).Rank()
            && SummarizeReceiver(c.receiver).Rank() <= SummarizeReceiver(c'.receiver).Rank()
    decreases |run|
  {
    hide Chain, CutFrom, Step, Sender.Valid, SummarizeSender;
    if run != [] {
      var c1 := Step(c, run[0]);
      StepKeeps(c, run[0]);
      StepAdvances(c, run[0]);
      SenderMovesForward(c.sender, c1.sender);
      SummariesMoveForward(c1, run[1..]);
    }
  }

  // ------------------------------------------------------------------ what goes out

  /** With a receive capacity that fits the field, every segment sent advertises the
      receiver's position and its right edge; otherwise the window is truncated to its low
      sixteen bits, so that 65536 free bytes are advertised as none. */
  lemma AdvertisesWindow(c: Connection, o: Outgoing)
    requires c.receiver.Valid()
    ensures var p := c.Stamp(o);
            && (p.seg.header.win == c.receiver.WindowSize() <==> c.receiver.WindowSize() <= 65535)
            && (c.receiver.WindowSize() - p.seg.header.win) % 65536 == 0
            && (c.receiver.Out().capacity <= 65535 ==> p.ackPos + p.seg.header.win == RightEdge(c.receiver))
            && p.seg.payload == o.seg.payload && p.pos == o.pos
            && (var h := o.seg.header; p.seg.header.(win := h.win, ack := h.ack, ackno := h.ackno) == h)
  {
  }

  /** A segment without sequence numbers of its own, just before those expected next. */
  predicate KeepAlive(r: Receiver, seg: TcpSegment) {
    seg.Length() == 0 && r.hasIsn && seg.header.seqno == U32(Wrap(r.ackno, r.isn) - 1)
  }

  /** Whether a segment gets a bare answer: a keep-alive does, and one that occupies sequence
      numbers and brings no other answer. */
  predicate BareAnswer(r: Receiver, seg: TcpSegment, s: Sender) {
    KeepAlive(r, seg) || (r.hasIsn && 0 < seg.Length() && s.segmentsOut == [])
  }

  /** What a segment brings about, once a SYN has been seen: all that the sender sends, and one
      bare segment more if it gets a bare answer. */
  lemma AnswersExactly(c: Connection, seg: TcpSegment)
    requires c.Valid() && !seg.header.rst
    ensures var r, s := c.receiver.SegmentReceived(seg), Answer(c.sender, seg.header);
            |c.SegmentReceived(seg).segmentsOut| ==
            |c.segmentsOut| + (if r.hasIsn then |s.segmentsOut| else 0) + (if BareAnswer(r, seg, s) then 1 else 0)
  {
    hide Chain, CutFrom, Sender.AllCut, Sender.Tiled, Sender.BackedOff, Receiver.SegmentReceived, Answer, Wrap,
         Connection.Stamp;
    ReceivedKeepsValid(c.receiver, seg);
    AnswerKeeps(c, seg.header);
  }

  /** And in which order: the bare segment last, with nothing set but sequence number,
      acknowledgment and window. */
  lemma AnswersInOrder(c: Connection, seg: TcpSegment, i: nat)
    requires c.Valid() && !seg.header.rst && |c.segmentsOut| <= i < |c.SegmentReceived(seg).segmentsOut|
    ensures var s, p := Answer(c.sender, seg.header), c.SegmentReceived(seg).segmentsOut[i];
            var k := i - |c.segmentsOut|;
            if k < |s.segmentsOut| then p.pos == s.segmentsOut[k].pos && p.seg.payload == s.segmentsOut[k].seg.payload
            else && p.pos == s.nextSeqno && p.seg.payload == []
                 && (var h := p.seg.header;
                     h == BLANK_HEADER.(seqno := Wrap(s.nextSeqno, s.isn), ack := h.ack, ackno := h.ackno, win := h.win))
  {
    hide Chain, CutFrom, Sender.AllCut, Sender.Tiled, Sender.BackedOff, Receiver.SegmentReceived, Answer, Wrap;
    ReceivedKeepsValid(c.receiver, seg);
    AnswerKeeps(c, seg.header);
  }

  /** The window is the one last advertised in an acknowledgment of nothing beyond what was sent. */
  lemma StepWindow(c: Connection, e: Event)
    requires c.Valid() && Enabled(c, e)
    ensures var taken := e.Receive? && e.seg.header.ack && !e.seg.header.rst && (c.receiver.hasIsn || e.seg.header.syn)
                         && Unwrap(e.seg.header.ackno, c.sender.isn, U64(c.sender.acked)) <= c.sender.nextSeqno;
            Step(c, e).sender.window == if taken then e.seg.header.win else c.sender.window
  {
    hide Chain, CutFrom, Sender.AllCut, Sender.Tiled, Sender.BackedOff, Sender.FillWindow, Sender.AckReceived,
         Receiver.SegmentReceived, Unwrap, Cuts, Connection.Stamp;
    match e {
      case Connect =>
        FillWindowKeeps(c.sender);
      case Write(data) =>
        if !c.sender.stream.ended {
          WriteKeeps(c.sender, data);
          FillWindowKeeps(BeforeFilling(c, e));
        }
      case EndInputStream =>
        EndKeeps(c.sender);
        FillWindowKeeps(BeforeFilling(c, e));
      case Tick(ms) =>
        TickKeeps(c.sender, ms);
      case Receive(seg) =>
        IsnIsKept(c.receiver, seg);
        AnswerWindow(c.sender, seg.header);
      case Read(n) =>
    }
  }

  lemma AnswerWindow(s: Sender, header: TcpHeader)
    requires s.Valid()
    ensures Answer(s, header).window ==
            if header.ack && Unwrap(header.ackno, s.isn, U64(s.acked)) <= s.nextSeqno then header.win else s.window
  {
    hide Chain, CutFrom, Sender.AllCut, Sender.Tiled, Sender.BackedOff, Sender.FillWindow, Sender.AckReceived, Unwrap, Cuts;
    AckKeeps(s, header.ackno, header.win);
    AckIsCumulative(s, header.ackno, header.win, Outgoing(0, TcpSegment(header, [])));
    FillWindowKeeps(s);
    FillWindowKeeps(s.AckReceived(header.ackno, header.win));
  }

  lemma AnswerCuts(c: Connection, header: TcpHeader, o: Outgoing)
    requires c.Valid() && o in Answer(c.sender, header).segmentsOut
    ensures c.sender.nextSeqno <= o.pos && Plain(o) && o.End() <= Answer(c.sender, header).nextSeqno
  {
    hide Chain, Sender.FillWindow, Sender.AckReceived, Cuts;
    var s := c.sender.AckReceived(header.ackno, header.win);
    AckKeeps(c.sender, header.ackno, header.win);
    FillWindowKeeps(c.sender);
    FillWindowKeeps(s);
    if header.ack {
      CutsInWindow(s, o);
    } else {
      CutsInWindow(c.sender, o);
    }
  }

  // ------------------------------------------------------------------ staying inside the window

  /** The sender as an operation leaves it just before filling the window. */
  function BeforeFilling(c: Connection, e: Event): Sender
    requires c.sender.stream.Valid()
  {
    match e
    case Write(data) => if c.sender.stream.ended then c.sender else c.sender.(stream := c.sender.stream.Write(data))
    case EndInputStream => c.sender.(stream := c.sender.stream.(ended := true))
    case Receive(seg) => if seg.header.ack then c.sender.AckReceived(seg.header.ackno, seg.header.win) else c.sender
    case _ => c.sender
  }

  lemma AnswerKeepsCuts(s: Sender, header: TcpHeader, o: Outgoing)
    requires s.Valid() && o !in s.outstanding && o in Answer(s, header).outstanding
    ensures var s1 := if header.ack then s.AckReceived(header.ackno, header.win) else s;
            s1.Valid() && o in Cuts(s1) && s1.Right() == Answer(s, header).Right()
  {
    hide Chain, CutFrom, Sender.AllCut, Sender.Tiled, Sender.BackedOff, Sender.FillWindow, Sender.AckReceived, Cuts, Unwrap;
    AckKeeps(s, header.ackno, header.win);
    AckIsCumulative(s, header.ackno, header.win, o);
    FillWindowKeeps(s);
    FillWindowKeeps(s.AckReceived(header.ackno, header.win));
  }

  lemma ReceiveCuts(c: Connection, seg: TcpSegment, o: Outgoing)
    requires c.Valid() && o !in c.sender.outstanding && o in c.SegmentReceived(seg).sender.outstanding
    ensures var s := BeforeFilling(c, Receive(seg));
            s.Valid() && o in Cuts(s) && s.Right() == c.SegmentReceived(seg).sender.Right()
  {
    hide Chain, CutFrom, Sender.AllCut, Sender.Tiled, Sender.BackedOff, Answer, Receiver.SegmentReceived, Cuts,
         Connection.Stamp, Sender.AckReceived, Wrap;
    AnswerKeepsCuts(c.sender, seg.header, o);
  }

  /** A segment that an operation newly keeps was cut by filling the window. */
  lemma StepCuts(c: Connection, e: Event, o: Outgoing)
    requires c.Valid() && Enabled(c, e) && o !in c.sender.outstanding && o in Step(c, e).sender.outstanding
    ensures var s := BeforeFilling(c, e);
            s.Valid() && o in Cuts(s) && s.Right() == Step(c, e).sender.Right()
  {
    hide Chain, CutFrom, Sender.AllCut, Sender.Tiled, Sender.BackedOff, Sender.FillWindow, Cuts, Connection.Stamp,
         Connection.SegmentReceived;
    match e {
      case Connect =>
        FillWindowKeeps(c.sender);
      case Write(data) =>
        if !c.sender.stream.ended {
          WriteKeeps(c.sender, data);
          FillWindowKeeps(BeforeFilling(c, e));
        }
      case EndInputStream =>
        EndKeeps(c.sender);
        FillWindowKeeps(BeforeFilling(c, e));
      case Tick(ms) =>
      case Receive(seg) =>
        ReceiveCuts(c, seg, o);
      case Read(n) =>
    }
  }

  /** A connection that has not sent its SYN has nothing to send: writing would have sent it. */
  lemma UnopenedIsEmpty(c: Connection)
    requires c.Valid() && c.sender.nextSeqno == 0
    ensures c.sender.stream.written == [] && !c.sender.stream.ended
  {
  }

  /** The first cut on an unopened stream is the SYN; the FIN goes along if an empty stream has ended. */
  lemma SynCut(s: Sender, o: Outgoing)
    requires s.Valid() && o in Cuts(s) && o.pos == 0
    ensures s.nextSeqno == 0 && o.seg.header.syn
    ensures o.seg.header.fin ==> s.stream.ended
    ensures s.stream.written == [] && s.stream.ended ==> o.seg.header.fin && o.seg.payload == []
  {
    hide CutFrom, Chain, Sender.AssembleSegment;
    CutsInWindow(s, o);
    CutFacts(s);
    AssembleFrame(s);
    CutIsFromStream(s);
    if o !in OneCut(s) {
      CutsInWindow(s.AssembleSegment(), o);
    }
  }

  /** Until a SYN has arrived the window is the one a connection starts with. */
  ghost predicate FirstWindow(c: Connection) { !c.receiver.hasIsn ==> c.sender.window == 1 }

  lemma StepKeepsFirstWindow(c: Connection, e: Event)
    requires c.Valid() && Enabled(c, e) && FirstWindow(c)
    ensures FirstWindow(Step(c, e))
  {
    hide Chain, CutFrom, Sender.AllCut, Sender.Tiled, Sender.BackedOff, Sender.FillWindow, Sender.AckReceived, Cuts,
         Receiver.SegmentReceived, Connection.Stamp;
    match e {
      case Connect =>
        FillWindowKeeps(c.sender);
      case Write(data) =>
        if !c.sender.stream.ended {
          WriteKeeps(c.sender, data);
          FillWindowKeeps(BeforeFilling(c, e));
        }
      case EndInputStream =>
        EndKeeps(c.sender);
        FillWindowKeeps(BeforeFilling(c, e));
      case Tick(ms) =>
        TickKeeps(c.sender, ms);
      case Receive(seg) =>
        IsnIsKept(c.receiver, seg);
      case Read(n) =>
    }
  }

  lemma {:induction false} RunKeepsFirstWindow(c: Connection, run: seq<Event>)
    requires c.Valid() && Legal(c, run) && FirstWindow(c)
    ensures FirstWindow(After(c, run))
    decreases |run|
  {
    hide Chain, CutFrom, Step, Sender.Valid, Receiver.Valid, FirstWindow;
    if run != [] {
      StepKeeps(c, run[0]);
      StepKeepsFirstWindow(c, run[0]);
      RunKeepsFirstWindow(Step(c, run[0]), run[1..]);
    }
  }

  lemma CutLeavesWindow(c: Connection, e: Event, o: Outgoing)
    requires c.Valid() && Enabled(c, e) && FirstWindow(c)
    requires o !in c.sender.outstanding && o in Step(c, e).sender.outstanding
    ensures var right := Step(c, e).sender.Right();
            && (o.End() > right <==> o.seg.header.syn && o.seg.header.fin)
            && (o.End() > right ==> o.pos == 0 && o.seg.payload == [] && o.End() == right + 1)
  {
    hide Chain, Sender.AllCut, Sender.Tiled, Sender.BackedOff, Sender.FillWindow, Sender.AckReceived, Cuts, Step;
    var s := BeforeFilling(c, e);
    StepCuts(c, e, o);
    CutsInWindow(s, o);
    CutIsTruthful(s, o);
    if o.pos == 0 {
      SynCut(s, o);
      AckKeepsStream(c, e);
      UnopenedIsEmpty(c);
    }
  }

  lemma CutIsTruthful(s: Sender, o: Outgoing)
    requires s.Valid() && o in Cuts(s)
    ensures o.seg.header.syn ==> o.pos == 0
  {
    hide Chain, Sender.Tiled, Sender.BackedOff, Sender.FillWindow, Cuts;
    FillWindowKeeps(s);
    assert o in s.FillWindow().outstanding;
  }

  lemma AckKeepsStream(c: Connection, e: Event)
    requires c.Valid()
    ensures BeforeFilling(c, e).nextSeqno == c.sender.nextSeqno && BeforeFilling(c, e).acked <= c.sender.nextSeqno
    ensures BeforeFilling(c, e).stream.ended == (c.sender.stream.ended || e.EndInputStream?)
    ensures e.EndInputStream? ==> BeforeFilling(c, e).window == c.sender.window
    ensures e.EndInputStream? ==> BeforeFilling(c, e).stream.written == c.sender.stream.written
  {
    hide Chain, CutFrom, Sender.AllCut, Sender.Tiled, Sender.BackedOff, Sender.AckReceived;
    if e.Receive? {
      AckKeeps(c.sender, e.seg.header.ackno, e.seg.header.win);
    }
  }

  /** Over every run of a connection: a segment is cut beyond the window if and only if it is
      the SYN together with the FIN of an empty stream, and then by exactly one. */
  lemma OverrunsExactly(cfg: TcpConfig, run: seq<Event>, e: Event, o: Outgoing)
    requires cfg.Valid() && Legal(NewConnection(cfg), run)
    requires Enabled(After(NewConnection(cfg), run), e)
    requires var c := After(NewConnection(cfg), run);
             o !in c.sender.outstanding && o in Step(c, e).sender.outstanding
    ensures var right := Step(After(NewConnection(cfg), run), e).sender.Right();
            && (o.End() > right <==> o.seg.header.syn && o.seg.header.fin)
            && (o.End() > right ==> o.pos == 0 && o.seg.payload == [] && o.End() == right + 1)
  {
    hide Connection.Valid, Step, Legal, After;
    RunKeepsFirstWindow(NewConnection(cfg), run);
    CutLeavesWindow(After(NewConnection(cfg), run), e, o);
  }

  /** It does happen: ending the outbound stream before opening sends both on a window of one. */
  lemma EndingUnopenedOverruns(cfg: TcpConfig)
    requires cfg.Valid()
    ensures var c := NewConnection(cfg).EndInputStream();
            && c.sender.nextSeqno == 2 && c.sender.Right() == 1
            && |c.segmentsOut| == 1 && c.segmentsOut[0].seg.header.syn && c.segmentsOut[0].seg.header.fin
  {
  }

  /** A reset from the peer ends everything at once, without an answer. */
  lemma ResetIsObeyed(c: Connection, seg: TcpSegment)
    requires c.Valid() && seg.header.rst
    ensures var c' := c.SegmentReceived(seg);
            && !c'.Active() && c'.segmentsOut == c.segmentsOut
            && SummarizeSender(c'.sender) == SenderError && SummarizeReceiver(c'.receiver) == ReceiverError
  {
  }

  /** What the writer's operations do to the outbound stream, and that opening sends a SYN. */
  lemma WriterEffects(c: Connection, data: seq<byte>)
    requires c.Valid()
    ensures var stream, written := c.sender.stream, c.Write(data).sender.stream.written;
            written == if stream.ended then stream.written
                       else stream.written + data[..Min(|data|, stream.RemainingCapacity())]
    ensures var s := c.EndInputStream().sender;
            s.stream.ended && s.stream.written == c.sender.stream.written
    ensures c.Connect().sender.nextSeqno > 0
  {
    hide Chain, CutFrom, Sender.FillWindow, Cuts, Connection.Stamp;
    FillWindowKeeps(c.sender);
    if !c.sender.stream.ended {
      WriteKeeps(c.sender, data);
      EndKeeps(c.sender);
      FillWindowKeeps(c.sender.(stream := c.sender.stream.Write(data)));
      FillWindowKeeps(c.sender.(stream := c.sender.stream.(ended := true)));
    }
  }

  /** When the retry limit is exceeded, one segment goes out, a reset. */
  lemma ResetIsAnnounced(c: Connection, ms: nat)
    requires c.Valid() && c.sender.Tick(ms).retransmissions > 8
    ensures var c' := c.Tick(ms);
            c'.sender.stream.error && c'.receiver.Out().error && !c'.linger
    ensures |c.Tick(ms).segmentsOut| == |c.segmentsOut| + 1
    ensures var p := c.Tick(ms).segmentsOut[|c.segmentsOut|];
            && p.seg.payload == []
            && (var h := p.seg.header;
                h == BLANK_HEADER.(rst := true, seqno := Wrap(c.sender.nextSeqno, c.sender.isn),
                                   ack := h.ack, ackno := h.ackno, win := h.win))
  {
  }

  // ------------------------------------------------------------------ shutdown

  /** A connection that has become inactive without an error has sent its FIN, had every
      sequence number acknowledged, and read the inbound stream to its end. */
  lemma CleanShutdown(c: Connection)
    requires c.Valid() && !c.Active() && !c.sender.stream.error && !c.receiver.Out().error
    ensures c.sender.sentFin && c.sender.acked == c.sender.nextSeqno == |c.sender.stream.written| + 2
    ensures c.receiver.Out().Eof()
    ensures SummarizeSender(c.sender) == FinAcked && SummarizeReceiver(c.receiver) == FinRecv
  {
  }

  lemma {:induction false} LingeringNeverReturns(c: Connection, run: seq<Event>)
    requires c.Valid() && Legal(c, run) && !c.linger
    ensures !After(c, run).linger
    decreases |run|
  {
    hide Chain, CutFrom, Sender.Valid, Receiver.Valid, Sender.FillWindow, Sender.Tick, Answer, Receiver.SegmentReceived,
         Connection.Stamp;
    if run != [] {
      StepKeeps(c, run[0]);
      LingeringNeverReturns(Step(c, run[0]), run[1..]);
    }
  }

  /** The side that is told first does not linger: after a FIN that finds our stream not yet
      done, over every run without an error, the connection is active exactly as long as our
      stream is not completely acknowledged or theirs not completely read. */
  lemma PassiveCloserDoesNotLinger(c: Connection, seg: TcpSegment, run: seq<Event>)
    requires c.Valid() && !seg.header.rst && seg.header.fin && (c.receiver.hasIsn || seg.header.syn)
    requires !Answer(c.sender, seg.header).stream.Eof()
    requires c.SegmentReceived(seg).Valid() && Legal(c.SegmentReceived(seg), run)
    ensures var end := After(c.SegmentReceived(seg), run);
            !end.sender.stream.error && !end.receiver.Out().error ==>
            (end.Active() <==> SummarizeSender(end.sender) != FinAcked || !end.receiver.Out().Eof())
  {
    hide Chain, CutFrom, Receiver.SegmentReceived, Answer, Connection.Stamp, Step, Legal;
    ReceivedKeepsValid(c.receiver, seg);
    IsnIsKept(c.receiver, seg);
    LingeringNeverReturns(c.SegmentReceived(seg), run);
  }

  /** Both streams are done, everything is acknowledged, and the connection lingers. */
  ghost predicate TimeWait(c: Connection) {
    && c.linger && !c.sender.stream.error && !c.receiver.Out().error
    && SummarizeSender(c.sender) == FinAcked && c.receiver.Out().Eof()
  }

  lemma TickInTimeWait(c: Connection, ms: nat)
    requires c.Valid() && TimeWait(c)
    ensures var c' := c.Tick(ms);
            && c'.timePassed == c.timePassed + ms && c'.rtTimeout == c.rtTimeout
            && (if c'.timePassed < 10 * c.rtTimeout then TimeWait(c') else !c'.Active())
  {
    InFlightIffOutstanding(c.sender);
    hide Chain, CutFrom, Connection.Stamp, Connection.SendRst;
  }

  /** Left alone in that state, the connection stays up for exactly ten initial timeouts
      since the last segment: it is gone with the first tick that reaches them. */
  lemma {:induction false} LingersExactly(c: Connection, run: seq<Event>)
    requires c.Valid() && TimeWait(c) && c.timePassed + Elapsed(run) < 10 * c.rtTimeout
    requires forall k :: 0 <= k < |run| ==> run[k].Tick?
    ensures Legal(c, run) && TimeWait(After(c, run)) && After(c, run).Active()
    ensures forall ms: nat :: c.timePassed + Elapsed(run) + ms >= 10 * c.rtTimeout ==> !After(c, run).Tick(ms).Active()
    decreases |run|
  {
    hide Chain, CutFrom, Step, TimeWait, Connection.Tick, Sender.Valid, Receiver.Valid;
    if run == [] {
      forall ms: nat | c.timePassed + ms >= 10 * c.rtTimeout
        ensures !c.Tick(ms).Active()
      {
        TickInTimeWait(c, ms);
      }
      TimeWaitIsActive(c);
    } else {
      StepKeeps(c, run[0]);
      TickInTimeWait(c, run[0].ms);
      TickStep(c, run[0]);
      LingersExactly(Step(c, run[0]), run[1..]);
    }
  }

  lemma TimeWaitIsActive(c: Connection)
    requires TimeWait(c)
    ensures c.Active()
  {
  }

  lemma TickStep(c: Connection, e: Event)
    requires c.sender.Valid() && c.receiver.Valid() && e.Tick?
    ensures Enabled(c, e) && Step(c, e) == c.Tick(e.ms)
  {
  }

  // ------------------------------------------------------------------ time

  function Elapsed(run: seq<Event>): nat {
    if run == [] then 0 else (if run[0].Tick? then run[0].ms else 0) + Elapsed(run[1..])
  }

  lemma FillWindowClock(s: Sender)
    requires s.Valid()
    ensures s.FillWindow().timer.sinceReset <= s.timer.sinceReset
  {
    hide Chain, CutFrom, Sender.Cut;
    CutKeeps(s);
  }

  lemma AnswerClock(c: Connection, header: TcpHeader)
    requires c.Valid()
    ensures Answer(c.sender, header).timer.sinceReset <= c.sender.timer.sinceReset
  {
    hide Chain, CutFrom, Sender.FillWindow, Unwrap, DropAcked;
    AckKeeps(c.sender, header.ackno, header.win);
    FillWindowClock(c.sender);
    FillWindowClock(c.sender.AckReceived(header.ackno, header.win));
  }

  lemma TickClock(c: Connection, ms: nat)
    requires c.Valid()
    ensures c.Tick(ms).sender.timer.sinceReset == c.sender.timer.sinceReset + ms
  {
    hide Chain, CutFrom, Connection.Stamp, Sender.AllCut, Sender.Tiled;
  }

  /** No operation makes the time since the last reset grow faster than the clock. */
  lemma StepClock(c: Connection, e: Event)
    requires c.Valid() && Enabled(c, e)
    ensures Step(c, e).sender.timer.sinceReset <= c.sender.timer.sinceReset + Elapsed([e])
  {
    hide Chain, CutFrom, Sender.FillWindow, Answer, Receiver.SegmentReceived, Connection.Tick, Connection.Stamp;
    match e {
      case Connect =>
        FillWindowClock(c.sender);
      case Write(data) =>
        if !c.sender.stream.ended {
          WriteKeeps(c.sender, data);
          FillWindowClock(c.sender.(stream := c.sender.stream.Write(data)));
        }
      case EndInputStream =>
        EndKeeps(c.sender);
        FillWindowClock(c.sender.(stream := c.sender.stream.(ended := true)));
      case Tick(ms) =>
        TickClock(c, ms);
      case Receive(seg) =>
        AnswerClock(c, seg.header);
      case Read(n) =>
    }
  }

  lemma {:induction false} RunClock(c: Connection, run: seq<Event>)
    requires c.Valid() && Legal(c, run)
    ensures var c' := After(c, run);
            && c'.sender.timer.sinceReset <= c.sender.timer.sinceReset + Elapsed(run)
            && c'.sender.timer.initialRto == c.sender.timer.initialRto
    decreases |run|
  {
    hide Chain, CutFrom, Step, Sender.Valid;
    if run != [] {
      StepKeeps(c, run[0]);
      StepClock(c, run[0]);
      RunClock(Step(c, run[0]), run[1..]);
    }
  }

  /** In every run of a new connection, `k` consecutive backed-off retransmissions have
      taken at least (2^k - 1) initial timeouts. */
  lemma BackoffTakesTime(cfg: TcpConfig, run: seq<Event>)
    requires cfg.Valid() && Legal(NewConnection(cfg), run)
    ensures var c := After(NewConnection(cfg), run);
            cfg.rtTimeout * (Pow2(c.sender.retransmissions) - 1) <= Elapsed(run)
  {
    hide Chain, CutFrom, Step;
    var c0 := NewConnection(cfg);
    var c := After(c0, run);
    RunClock(c0, run);
    BackoffLaw(cfg.rtTimeout, c.sender.retransmissions);
  }

  lemma {:induction false} WaitsGrow(rto: nat, j: nat, k: nat)
    requires j <= k
    ensures Waits(rto, j) <= Waits(rto, k)
    decreases k
  {
    if j < k {
      WaitsGrow(rto, j, k - 1);
    }
  }

  lemma RetriesTakeTime(s: Sender)
    requires s.BackedOff() && s.retransmissions > 8
    ensures 511 * s.timer.initialRto <= s.timer.sinceReset
  {
    WaitsGrow(s.timer.initialRto, 9, s.retransmissions);
    BackoffLaw(s.timer.initialRto, 9);
    assert Pow2(9) == 512;
  }

  lemma AbortNeedsRetries(c: Connection, ms: nat)
    requires c.Valid()
    ensures !c.sender.stream.error && c.Tick(ms).sender.stream.error ==> c.sender.Tick(ms).retransmissions > 8
    ensures c.sender.Tick(ms).timer.sinceReset == c.sender.timer.sinceReset + ms
  {
  }

  /** The connection gives up on its peer no earlier than 511 initial timeouts into any run. */
  lemma NoEarlyAbort(cfg: TcpConfig, run: seq<Event>, ms: nat)
    requires cfg.Valid() && Legal(NewConnection(cfg), run)
    ensures var c := After(NewConnection(cfg), run);
            !c.sender.stream.error && c.Tick(ms).sender.stream.error ==> 511 * cfg.rtTimeout <= Elapsed(run) + ms
  {
    hide Chain, CutFrom, Step, Sender.Tick, Connection.Tick, Sender.BackedOff;
    var c0 := NewConnection(cfg);
    var c := After(c0, run);
    RunClock(c0, run);
    TickKeeps(c.sender, ms);
    AbortNeedsRetries(c, ms);
    if c.sender.Tick(ms).retransmissions > 8 {
      RetriesTakeTime(c.sender.Tick(ms));
    }
  }
}
