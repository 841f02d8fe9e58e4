/**
 Time in an endpoint: when exactly a segment is sent again, and how long the endpoint
 stays up after both streams are done, over every run.
 */
module Timing {
  import opened MachineIntegers
  import ByteStreams
  import opened WrappingIntegers
  import opened TcpSegments
  import opened Receiving
  import opened Sending
  import opened Connecting
  import opened ConnectionRuns
  import opened Handshake
  import opened Progress

  // ------------------------------------------------------------------ the retransmission timer

  /** What becomes of the timer and the retries between two states of a sender: only a new
      acknowledgment, an expiry, or having had nothing outstanding sets the waiting time back. */
  ghost predicate Timed(s: Sender, s': Sender, elapsed: nat, expired: bool) {
    var idle, news := s.outstanding == [], s.acked < s'.acked;
    s'.outstanding != [] ==>
      && s'.timer.waited == (if idle || news || expired then 0 else s.timer.waited + elapsed)
      && s'.timer.rto == (if idle || news then s.timer.initialRto
                          else if expired && s.window != 0 then 2 * s.timer.rto else s.timer.rto)
      && s'.retransmissions == (if idle || news then 0
                                else if expired && s.window != 0 then s.retransmissions + 1 else s.retransmissions)
  }

  lemma FillTimed(s: Sender)
    requires s.Valid()
    ensures Timed(s, s.FillWindow(), 0, false)
  {
    hide Chain, CutFrom, Sender.AllCut, Sender.Tiled, Sender.FillWindow, Cuts;
    FillWindowKeeps(s);
  }

  lemma AnswerTimed(s: Sender, header: TcpHeader)
    requires s.Valid()
    ensures Timed(s, Answer(s, header), 0, false)
  {
    hide Chain, CutFrom, Sender.AllCut, Sender.Tiled, Sender.FillWindow, Sender.AckReceived, Cuts, Unwrap;
    FillWindowKeeps(s);
    if header.ack {
      var s1 := s.AckReceived(header.ackno, header.win);
      AckKeeps(s, header.ackno, header.win);
      AckIsCumulative(s, header.ackno, header.win, Outgoing(0, TcpSegment(header, [])));
      if s.outstanding != [] {
        OldestOrNone(s, header);
      }
      FillWindowKeeps(s1);
    }
  }

  /** An acknowledgment that is not new drops nothing. */
  lemma OldestOrNone(s: Sender, header: TcpHeader)
    requires s.Valid() && s.outstanding != []
    ensures var s' := s.AckReceived(header.ackno, header.win);
            s'.acked == s.acked ==> s'.outstanding == s.outstanding
  {
    hide CutFrom, Unwrap;
    DropTiles(s.outstanding, s.acked, s.nextSeqno);
  }

  lemma SenderTickTimed(s: Sender, ms: nat)
    requires s.Valid()
    ensures Timed(s, s.Tick(ms), ms, Expires(s, Event.Tick(ms)))
    ensures s.Tick(ms).outstanding == s.outstanding && s.Tick(ms).acked == s.acked && s.Tick(ms).window == s.window
  {
    hide Chain, CutFrom, Sender.AllCut, Sender.Tiled;
  }

  /** Giving up on the peer marks the stream, and touches nothing else of the sender. */
  lemma TickSender(c: Connection, ms: nat)
    requires c.Valid()
    ensures var s, s' := c.sender.Tick(ms), c.Tick(ms).sender;
            s' == s.(segmentsOut := [], stream := s.stream.(error := s.stream.error || s.retransmissions > 8))
  {
    hide Chain, CutFrom, Sender.AllCut, Sender.Tiled, Sender.BackedOff, Sender.Tick, Connection.Stamp;
    TickKeeps(c.sender, ms);
  }

  lemma TickTimed(c: Connection, ms: nat)
    requires c.Valid()
    ensures Timed(c.sender, c.Tick(ms).sender, ms, Expires(c.sender, Event.Tick(ms)))
    ensures var s := c.Tick(ms).sender;
            s.outstanding == c.sender.outstanding && s.acked == c.sender.acked && s.window == c.sender.window
  {
    hide Chain, CutFrom, Sender.Valid, Sender.Tick, Connection.Tick;
    SenderTickTimed(c.sender, ms);
    TickSender(c, ms);
  }

  /** The operation is a tick that reaches the timeout. */
  ghost predicate Expires(s: Sender, e: Event) {
    e.Tick? && s.outstanding != [] && s.timer.rto <= s.timer.waited + e.ms
  }

  /** Exactly what every operation, with any argument and any segment, does to the timer. */
  lemma StepTimed(c: Connection, e: Event)
    requires c.Valid() && Enabled(c, e)
    ensures Timed(c.sender, Step(c, e).sender, Elapsed([e]), Expires(c.sender, e))
  {
    hide Chain, CutFrom, Sender.AllCut, Sender.Tiled, Sender.BackedOff, Sender.FillWindow, Answer, Connection.Tick,
         Receiver.SegmentReceived, Connection.Stamp;
    assert Elapsed([e]) == if e.Tick? then e.ms else 0 by { assert [e][1..] == []; }
    match e {
      case Connect =>
        FillTimed(c.sender);
      case Write(data) =>
        if !c.sender.stream.ended {
          WriteKeeps(c.sender, data);
          FillTimed(c.sender.(stream := c.sender.stream.Write(data)));
        }
      case EndInputStream =>
        EndKeeps(c.sender);
        FillTimed(c.sender.(stream := c.sender.stream.(ended := true)));
      case Tick(ms) =>
        TickTimed(c, ms);
      case Receive(seg) =>
        AnswerTimed(c.sender, seg.header);
      case Read(n) =>
    }
  }

  /** Everything sent since is at positions from `pos` on, which had not been used: nothing was
      sent again. */
  ghost predicate OnlyNew(before: seq<Packet>, after: seq<Packet>, pos: nat) {
    before <= after && forall i :: |before| <= i < |after| ==> pos <= after[i].pos
  }

  lemma FlushOnlyNew(c: Connection, pos: nat)
    requires c.receiver.Out().Valid() && forall o :: o in c.sender.segmentsOut ==> pos <= o.pos
    ensures OnlyNew(c.segmentsOut, c.Flush().segmentsOut, pos)
  {
    forall i | |c.segmentsOut| <= i < |c.Flush().segmentsOut|
      ensures pos <= c.Flush().segmentsOut[i].pos
    {
      assert c.sender.segmentsOut[i - |c.segmentsOut|] in c.sender.segmentsOut;
    }
  }

  lemma FillOnlyNew(c: Connection, stream: ByteStreams.Fifo)
    requires c.Valid() && c.sender.(stream := stream).Valid()
    ensures var s := c.sender.(stream := stream).FillWindow();
            && OnlyNew(c.segmentsOut, c.(sender := s).Flush().segmentsOut, c.sender.nextSeqno)
            && c.sender.outstanding <= s.outstanding
  {
    hide Chain, CutFrom, Sender.AllCut, Sender.Tiled, Sender.BackedOff, Sender.FillWindow, Connection.Flush, Cuts, OnlyNew;
    var s := c.sender.(stream := stream);
    FillWindowKeeps(s);
    forall o | o in s.FillWindow().segmentsOut
      ensures c.sender.nextSeqno <= o.pos
    {
      CutsInWindow(s, o);
    }
    FlushOnlyNew(c.(sender := s.FillWindow()), c.sender.nextSeqno);
  }

  lemma AnswerOnlyNew(c: Connection, header: TcpHeader)
    requires c.Valid()
    ensures forall o :: o in Answer(c.sender, header).segmentsOut ==> c.sender.nextSeqno <= o.pos
    ensures var s := Answer(c.sender, header);
            c.sender.nextSeqno <= s.nextSeqno
            && (c.sender.outstanding != [] && s.acked == c.sender.acked ==> c.sender.outstanding <= s.outstanding)
  {
    hide Chain, CutFrom, Sender.AllCut, Sender.Tiled, Sender.BackedOff, Sender.FillWindow, Sender.AckReceived, Cuts, Unwrap;
    forall o | o in Answer(c.sender, header).segmentsOut
      ensures c.sender.nextSeqno <= o.pos
    {
      AnswerCuts(c, header, o);
    }
    FillWindowKeeps(c.sender);
    AckKeeps(c.sender, header.ackno, header.win);
    FillWindowKeeps(c.sender.AckReceived(header.ackno, header.win));
    if c.sender.outstanding != [] {
      OldestOrNone(c.sender, header);
    }
  }

  lemma ReceiveOnlyNew(c: Connection, seg: TcpSegment)
    requires c.Valid()
    ensures var c' := c.SegmentReceived(seg);
            && OnlyNew(c.segmentsOut, c'.segmentsOut, c.sender.nextSeqno)
            && (c.sender.outstanding != [] && c'.sender.acked == c.sender.acked ==>
                  c.sender.outstanding <= c'.sender.outstanding)
  {
    hide Chain, CutFrom, Sender.AllCut, Sender.Tiled, Sender.BackedOff, Answer, Receiver.SegmentReceived, Wrap,
         Connection.Stamp, Connection.StampAll;
    ReceivedKeepsValid(c.receiver, seg);
    AnswerOnlyNew(c, seg.header);
    hide OnlyNew;
    var s := Answer(c.sender, seg.header);
    var c1 := c.(receiver := c.receiver.SegmentReceived(seg), sender := s,
                 linger := c.linger && !(seg.header.fin && !s.stream.Eof()));
    FlushOnlyNew(c1, c.sender.nextSeqno);
    FlushOnlyNew(c1.(sender := s.SendEmpty()), c.sender.nextSeqno);
    assert OnlyNew(c.segmentsOut, c.segmentsOut, c.sender.nextSeqno) by { NothingSent(c); }
  }

  lemma NothingSent(c: Connection)
    ensures OnlyNew(c.segmentsOut, c.segmentsOut, c.sender.nextSeqno)
  {
  }

  lemma TickOnlyNew(c: Connection, ms: nat)
    requires c.Valid() && !Expires(c.sender, Event.Tick(ms))
    ensures OnlyNew(c.segmentsOut, c.Tick(ms).segmentsOut, c.sender.nextSeqno)
  {
    hide Chain, CutFrom, Sender.AllCut, Sender.Tiled, Sender.BackedOff, Wrap;
  }

  /** Unless a tick reaches the timeout, no operation sends anything again; and unless something
      new is acknowledged, what is kept for retransmission stays, in order. */
  lemma StepOnlyNew(c: Connection, e: Event)
    requires c.Valid() && Enabled(c, e)
    ensures var c' := Step(c, e);
            && (!Expires(c.sender, e) ==> OnlyNew(c.segmentsOut, c'.segmentsOut, c.sender.nextSeqno))
            && (c.sender.outstanding != [] && c'.sender.acked == c.sender.acked ==>
                  c.sender.outstanding <= c'.sender.outstanding)
  {
    hide Chain, CutFrom, Sender.AllCut, Sender.Tiled, Sender.BackedOff, Sender.FillWindow, Connection.Tick,
         Connection.SegmentReceived, Connection.Stamp, OnlyNew;
    NothingSent(c);
    match e {
      case Connect =>
        FillOnlyNew(c, c.sender.stream);
      case Write(data) =>
        if !c.sender.stream.ended {
          WriteKeeps(c.sender, data);
          FillOnlyNew(c, c.sender.stream.Write(data));
        }
      case EndInputStream =>
        EndKeeps(c.sender);
        FillOnlyNew(c, c.sender.stream.(ended := true));
      case Tick(ms) =>
        TickTimed(c, ms);
        if !Expires(c.sender, e) {
          TickOnlyNew(c, ms);
        }
      case Receive(seg) =>
        ReceiveOnlyNew(c, seg);
      case Read(n) =>
    }
  }

  lemma {:induction false} RunAcksGrow(c: Connection, run: seq<Event>)
    requires c.Valid() && Legal(c, run)
    ensures c.sender.acked <= After(c, run).sender.acked
    decreases |run|
  {
    hide Chain, CutFrom, Step, Sender.Valid;
    if run != [] {
      StepKeeps(c, run[0]);
      RunAcksGrow(Step(c, run[0]), run[1..]);
    }
  }

  /** While nothing new is acknowledged and the timeout is not reached, whatever is written,
      ended, read or received: the waiting time is the time elapsed, nothing is sent again, and
      what is outstanding stays so. */
  lemma {:induction false} WaitsOutTheTimeout(c: Connection, run: seq<Event>)
    requires c.Valid() && Legal(c, run) && c.sender.outstanding != []
    requires After(c, run).sender.acked == c.sender.acked && c.sender.timer.waited + Elapsed(run) < c.sender.timer.rto
    ensures var c' := After(c, run);
            && c'.sender.timer.waited == c.sender.timer.waited + Elapsed(run)
            && c'.sender.timer.rto == c.sender.timer.rto && c'.sender.retransmissions == c.sender.retransmissions
            && c.sender.outstanding <= c'.sender.outstanding
            && OnlyNew(c.segmentsOut, c'.segmentsOut, c.sender.nextSeqno)
    decreases |run|
  {
    hide Chain, CutFrom, Step, Sender.Valid, Receiver.Valid;
    if run == [] {
      NothingSent(c);
    } else {
      var c1 := Step(c, run[0]);
      StepKeeps(c, run[0]);
      RunAcksGrow(c1, run[1..]);
      StepTimed(c, run[0]);
      StepOnlyNew(c, run[0]);
      FirstElapsed(run);
      WaitsOutTheTimeout(c1, run[1..]);
    }
  }

  lemma FirstElapsed(run: seq<Event>)
    requires run != []
    ensures Elapsed(run) == Elapsed([run[0]]) + Elapsed(run[1..])
  {
    assert [run[0]][1..] == [];
  }

  /** And the tick that reaches the timeout sends the oldest segment again, and nothing else. */
  lemma RetransmitsOnTime(c: Connection, run: seq<Event>, ms: nat)
    requires c.Valid() && Legal(c, run) && c.sender.outstanding != []
    requires After(c, run).sender.acked == c.sender.acked && CanRetry(After(c, run).sender)
    requires c.sender.timer.waited + Elapsed(run) < c.sender.timer.rto <= c.sender.timer.waited + Elapsed(run) + ms
    ensures var c1 := After(c, run);
            var c2 := c1.Tick(ms);
            && OnlyNew(c.segmentsOut, c1.segmentsOut, c.sender.nextSeqno)
            && |c2.segmentsOut| == |c1.segmentsOut| + 1 && SamePiece(FirstNew(c1, c2), c.sender.outstanding[0])
            && c2.sender.timer.waited == 0
  {
    hide Chain, CutFrom, Sender.AllCut, Sender.Tiled, Sender.BackedOff, Step, Legal, After, Connection.Tick, OnlyNew,
         SamePiece, Sender.Filled;
    WaitsOutTheTimeout(c, run);
    TimeoutResends(After(c, run), ms);
    TickTimed(After(c, run), ms);
  }

  lemma {:induction false} TicksKeepSending(c: Connection, run: seq<Event>)
    requires c.Valid() && forall k :: 0 <= k < |run| ==> run[k].Tick?
    ensures Legal(c, run)
    ensures After(c, run).sender.acked == c.sender.acked && After(c, run).sender.window == c.sender.window
    decreases |run|
  {
    hide Chain, CutFrom, Step, Sender.Valid, Receiver.Valid, Connection.Tick;
    if run != [] {
      StepKeeps(c, run[0]);
      TickStep(c, run[0]);
      TickTimed(c, run[0].ms);
      TicksKeepSending(Step(c, run[0]), run[1..]);
    }
  }

  /** However the time is cut into ticks: nothing is sent again before their sum reaches what is
      left of the timeout, and the oldest segment goes out with exactly the tick that reaches it. */
  lemma TicksRetransmitExactly(c: Connection, ticks: seq<Event>, ms: nat)
    requires c.Valid() && c.sender.outstanding != [] && CanRetry(c.sender)
    requires forall k :: 0 <= k < |ticks| ==> ticks[k].Tick?
    requires c.sender.timer.waited + Elapsed(ticks) < c.sender.timer.rto
    ensures Legal(c, ticks)
    ensures var c1 := After(c, ticks);
            var c2 := c1.Tick(ms);
            && OnlyNew(c.segmentsOut, c1.segmentsOut, c.sender.nextSeqno)
            && if c.sender.timer.waited + Elapsed(ticks) + ms < c.sender.timer.rto
               then OnlyNew(c.segmentsOut, c2.segmentsOut, c.sender.nextSeqno)
               else |c2.segmentsOut| == |c1.segmentsOut| + 1 && SamePiece(FirstNew(c1, c2), c.sender.outstanding[0])
  {
    hide Chain, CutFrom, Sender.AllCut, Sender.Tiled, Sender.BackedOff, Step, Legal, After, Connection.Tick, SamePiece,
         Sender.Filled;
    TicksKeepSending(c, ticks);
    WaitsOutTheTimeout(c, ticks);
    var c1 := After(c, ticks);
    if c.sender.timer.waited + Elapsed(ticks) + ms < c.sender.timer.rto {
      TickOnlyNew(c1, ms);
      ExtendsAfter(c, ticks);
    } else {
      RetransmitsOnTime(c, ticks, ms);
    }
  }

  lemma {:induction false} ExtendsAfter(c: Connection, run: seq<Event>)
    requires c.Valid() && Legal(c, run)
    ensures c.sender.nextSeqno <= After(c, run).sender.nextSeqno
    decreases |run|
  {
    hide Chain, CutFrom, Step, Sender.Valid;
    if run != [] {
      StepKeeps(c, run[0]);
      ExtendsAfter(Step(c, run[0]), run[1..]);
    }
  }

  // ------------------------------------------------------------------ silence

  /** Whether a SYN has been received, told from the events alone. */
  function Heard(run: seq<Event>, heard: bool): bool {
    if run == [] then heard
    else Heard(run[1..], heard || (run[0].Receive? && run[0].seg.header.syn && !run[0].seg.header.rst))
  }

  /** The sequence number of the last SYN received, told from the events alone. */
  function LastSyn(run: seq<Event>, isn: u32): u32 {
    if run == [] then isn
    else LastSyn(run[1..], if run[0].Receive? && run[0].seg.header.syn && !run[0].seg.header.rst
                           then run[0].seg.header.seqno else isn)
  }

  /** How long the peer has been silent, told from the events alone: a reset does not count as
      hearing from it, nor does anything before its SYN. */
  function Silence(run: seq<Event>, heard: bool, t: nat): nat {
    if run == [] then t
    else Silence(run[1..], Heard(run[..1], heard), SilenceAfter(run[0], Heard(run[..1], heard), t))
  }

  function SilenceAfter(e: Event, heard: bool, t: nat): nat {
    match e
    case Tick(ms) => t + ms
    case Receive(seg) => if heard && !seg.header.rst then 0 else t
    case _ => t
  }

  lemma StepSilence(c: Connection, e: Event)
    requires c.Valid() && Enabled(c, e)
    ensures var c' := Step(c, e);
            && c'.receiver.hasIsn == Heard([e], c.receiver.hasIsn)
            && c'.receiver.isn == LastSyn([e], c.receiver.isn)
            && c'.timePassed == SilenceAfter(e, c'.receiver.hasIsn, c.timePassed)
            && c'.rtTimeout == c.rtTimeout
  {
    hide Chain, CutFrom, Sender.AllCut, Sender.Tiled, Sender.BackedOff, Sender.FillWindow, Sender.Tick, Answer,
         Receiver.SegmentReceived, Connection.Stamp;
    assert [e][1..] == [];
    if e.Receive? {
      IsnIsKept(c.receiver, e.seg);
    }
  }

  /** Over every run the endpoint knows whether it has heard a SYN, counts from the last one, and
      measures the silence. */
  lemma {:induction false} RunSilence(c: Connection, run: seq<Event>)
    requires c.Valid() && Legal(c, run)
    ensures var c' := After(c, run);
            && c'.receiver.hasIsn == Heard(run, c.receiver.hasIsn)
            && c'.receiver.isn == LastSyn(run, c.receiver.isn)
            && c'.timePassed == Silence(run, c.receiver.hasIsn, c.timePassed)
            && c'.rtTimeout == c.rtTimeout
    decreases |run|
  {
    hide Chain, CutFrom, Step, Sender.Valid, Receiver.Valid, SilenceAfter;
    if run != [] {
      assert run[..1] == [run[0]] && [run[0]][1..] == [];
      StepKeeps(c, run[0]);
      StepSilence(c, run[0]);
      RunSilence(Step(c, run[0]), run[1..]);
    }
  }

  // ------------------------------------------------------------------ lingering

  /** The operation does not tell the endpoint not to linger: it is no reset either way, no FIN
      that finds the outbound stream not at its end, and does not complete ten timeouts of
      silence when both streams are done. `t` is the silence before it. */
  ghost predicate LetsLinger(c: Connection, e: Event, t: nat)
    requires c.Valid() && Enabled(c, e)
  {
    var c' := Step(c, e);
    match e
    case Receive(seg) =>
      !seg.header.rst && (seg.header.fin && c'.receiver.hasIsn ==> c'.sender.stream.Eof())
    case Tick(ms) =>
      && c'.sender.retransmissions <= 8
      && !(c.sender.stream.Eof() && c.receiver.Out().Eof() && t + ms >= 10 * c.rtTimeout)
    case _ => true
  }

  ghost predicate MayLinger(c: Connection, run: seq<Event>, t: nat)
    requires c.Valid() && Legal(c, run)
    decreases |run|
  {
    run == [] ||
    (StepKeeps(c, run[0]);
     && LetsLinger(c, run[0], t)
     && MayLinger(Step(c, run[0]), run[1..], SilenceAfter(run[0], Step(c, run[0]).receiver.hasIsn, t)))
  }

  lemma TickLingers(c: Connection, ms: nat)
    requires c.Valid()
    ensures c.Tick(ms).linger <==> c.linger && LetsLinger(c, Event.Tick(ms), c.timePassed)
  {
    hide Chain, CutFrom, Sender.AllCut, Sender.Tiled, Sender.BackedOff, Sender.Tick, Connection.Stamp;
    TickKeeps(c.sender, ms);
  }

  lemma ReceiveLingers(c: Connection, seg: TcpSegment)
    requires c.Valid()
    ensures c.SegmentReceived(seg).linger <==> c.linger && LetsLinger(c, Receive(seg), c.timePassed)
  {
    hide Chain, CutFrom, Sender.AllCut, Sender.Tiled, Sender.BackedOff, Answer, Receiver.SegmentReceived, Wrap,
         Connection.Stamp;
    ReceivedKeepsValid(c.receiver, seg);
  }

  lemma StepLingers(c: Connection, e: Event)
    requires c.Valid() && Enabled(c, e)
    ensures Step(c, e).linger <==> c.linger && LetsLinger(c, e, c.timePassed)
  {
    hide Chain, CutFrom, Sender.AllCut, Sender.Tiled, Sender.BackedOff, Sender.FillWindow, Connection.Tick,
         Connection.SegmentReceived, Connection.Stamp;
    if e.Tick? {
      TickLingers(c, e.ms);
    } else if e.Receive? {
      ReceiveLingers(c, e.seg);
    }
  }

  /** Over every run: the endpoint lingers if and only if nothing has told it not to. */
  lemma {:induction false} LingersUntilTold(c: Connection, run: seq<Event>)
    requires c.Valid() && Legal(c, run)
    ensures After(c, run).linger <==> c.linger && MayLinger(c, run, c.timePassed)
    decreases |run|
  {
    hide Chain, CutFrom, Step, Sender.Valid, Receiver.Valid, SilenceAfter;
    if run != [] {
      assert [run[0]][1..] == [];
      StepKeeps(c, run[0]);
      StepLingers(c, run[0]);
      StepSilence(c, run[0]);
      LingersUntilTold(Step(c, run[0]), run[1..]);
    }
  }

  /** The operation makes the connection fail: a reset arrives, or the retry limit is exceeded. */
  ghost predicate Fails(c: Connection, e: Event)
    requires c.Valid() && Enabled(c, e)
  {
    (e.Receive? && e.seg.header.rst) || (e.Tick? && Step(c, e).sender.retransmissions > 8)
  }

  ghost predicate FailsIn(c: Connection, run: seq<Event>)
    requires c.Valid() && Legal(c, run)
    decreases |run|
  {
    run != [] && (StepKeeps(c, run[0]); Fails(c, run[0]) || FailsIn(Step(c, run[0]), run[1..]))
  }

  /** Both streams are marked together, and then the endpoint does not linger. */
  ghost predicate ErrorsAgree(c: Connection) {
    c.sender.stream.error == c.receiver.Out().error && (c.sender.stream.error ==> !c.linger)
  }

  lemma TickErrors(c: Connection, ms: nat)
    requires c.Valid() && ErrorsAgree(c)
    ensures ErrorsAgree(c.Tick(ms))
    ensures c.Tick(ms).sender.stream.error <==> c.sender.stream.error || Fails(c, Event.Tick(ms))
  {
    hide Chain, CutFrom, Sender.AllCut, Sender.Tiled, Sender.BackedOff, Sender.Tick, Connection.Stamp;
    TickKeeps(c.sender, ms);
  }

  lemma ReceiveErrors(c: Connection, seg: TcpSegment)
    requires c.Valid() && ErrorsAgree(c)
    ensures ErrorsAgree(c.SegmentReceived(seg))
    ensures c.SegmentReceived(seg).sender.stream.error <==> c.sender.stream.error || seg.header.rst
  {
    hide Chain, CutFrom, Sender.AllCut, Sender.Tiled, Sender.BackedOff, Answer, Receiver.SegmentReceived, Wrap,
         Connection.Stamp;
    ReceivedKeepsValid(c.receiver, seg);
    ReceivingKeepsBuffer(c.receiver, seg);
    AnswerKeepsInput(c.sender, seg.header);
  }

  lemma StepErrors(c: Connection, e: Event)
    requires c.Valid() && Enabled(c, e) && ErrorsAgree(c)
    ensures ErrorsAgree(Step(c, e))
    ensures Step(c, e).sender.stream.error <==> c.sender.stream.error || Fails(c, e)
  {
    hide Chain, CutFrom, Sender.AllCut, Sender.Tiled, Sender.BackedOff, Sender.FillWindow, Connection.Tick,
         Connection.SegmentReceived, Connection.Stamp, Cuts;
    match e {
      case Connect =>
        FillWindowKeeps(c.sender);
      case Write(data) =>
        if !c.sender.stream.ended {
          WriteKeeps(c.sender, data);
          FillWindowKeeps(c.sender.(stream := c.sender.stream.Write(data)));
        }
      case EndInputStream =>
        EndKeeps(c.sender);
        FillWindowKeeps(c.sender.(stream := c.sender.stream.(ended := true)));
      case Tick(ms) =>
        TickErrors(c, ms);
      case Receive(seg) =>
        ReceiveErrors(c, seg);
      case Read(n) =>
    }
  }

  lemma {:induction false} RunErrors(c: Connection, run: seq<Event>)
    requires c.Valid() && Legal(c, run) && ErrorsAgree(c)
    ensures ErrorsAgree(After(c, run))
    ensures After(c, run).sender.stream.error <==> c.sender.stream.error || FailsIn(c, run)
    decreases |run|
  {
    hide Chain, CutFrom, Step, Sender.Valid, Receiver.Valid, ErrorsAgree, Fails;
    if run != [] {
      StepKeeps(c, run[0]);
      StepErrors(c, run[0]);
      RunErrors(Step(c, run[0]), run[1..]);
    }
  }

  /**
   When exactly an endpoint is active, over every run of a new one: the run has not made it fail
   and its stream is not completely acknowledged or the peer's not completely read, or it may
   linger. So an endpoint that closes first does wait: with both streams complete it is in
   TIME_WAIT.
   */
  lemma ActiveExactly(cfg: TcpConfig, run: seq<Event>)
    requires cfg.Valid() && Legal(NewConnection(cfg), run)
    ensures var c0, c := NewConnection(cfg), After(NewConnection(cfg), run);
            var done := SummarizeSender(c.sender) == FinAcked && c.receiver.Out().Eof();
            if FailsIn(c0, run) then !c.Active() && !MayLinger(c0, run, 0)
            else && (c.Active() <==> !done || MayLinger(c0, run, 0))
                 && (TimeWait(c) <==> done && MayLinger(c0, run, 0))
  {
    hide Step, Legal, MayLinger, FailsIn;
    LingersUntilTold(NewConnection(cfg), run);
    RunErrors(NewConnection(cfg), run);
  }
}
