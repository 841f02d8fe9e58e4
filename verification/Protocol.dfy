/**
 Two endpoints and a network that keeps every segment ever sent and may lose,
 repeat, delay and reorder them: what holds over every run of the whole.
 */
module Protocol {
  import opened WrappingIntegers
  import opened TcpSegments
  import opened Sending
  import opened Connecting
  import opened Links

  /** Two connections; what each has sent is what the network may deliver to the other. */
  datatype System = System(a: Connection, b: Connection) {
    ghost predicate Valid() {
      a.Valid() && b.Valid() && Link(a, b) && Link(b, a)
    }
  }

  /** An endpoint does something by itself, or a segment its peer once sent arrives at it. */
  datatype Move = Local(atA: bool, e: Event) | Deliver(toA: bool, p: Packet)

  /** The only demand on deliveries: the 32-bit fields are not ambiguous, that is, decoding
      them relative to the reader's position gives the position the writer meant. */
  ghost predicate Deliverable(from: Connection, to: Connection, p: Packet) {
    && p in from.segmentsOut
    && (!p.seg.header.rst ==>
          && (to.receiver.hasIsn || p.seg.header.syn ==> Decodable(Outgoing(p.pos, p.seg), to.receiver))
          && (p.seg.header.ack ==> Decodes(p.ackPos, to.sender.acked)))
  }

  ghost predicate Possible(sys: System, m: Move) {
    match m
    case Local(atA, e) => !e.Receive? && Enabled(if atA then sys.a else sys.b, e)
    case Deliver(toA, p) => if toA then Deliverable(sys.b, sys.a, p) else Deliverable(sys.a, sys.b, p)
  }

  ghost function Next(sys: System, m: Move): System
    requires sys.Valid() && Possible(sys, m)
  {
    var e := if m.Local? then m.e else Receive(m.p.seg);
    if (if m.Local? then m.atA else m.toA) then sys.(a := Step(sys.a, e)) else sys.(b := Step(sys.b, e))
  }

  lemma NextKeeps(sys: System, m: Move)
    requires sys.Valid() && Possible(sys, m)
    ensures Next(sys, m).Valid()
  {
    hide Connection.Valid, Link, Decodable, Step;
    var e := if m.Local? then m.e else Receive(m.p.seg);
    var p := if m.Local? then Packet(0, 0, TcpSegment(BLANK_HEADER, [])) else m.p;
    if (if m.Local? then m.atA else m.toA) {
      StepKeeps(sys.a, e);
      LinkWhenSenderSteps(sys.a, sys.b, e, p);
      LinkWhenReceiverSteps(sys.b, sys.a, e, p);
    } else {
      StepKeeps(sys.b, e);
      LinkWhenSenderSteps(sys.b, sys.a, e, p);
      LinkWhenReceiverSteps(sys.a, sys.b, e, p);
    }
  }

  ghost predicate PossibleRun(sys: System, run: seq<Move>)
    requires sys.Valid()
    decreases |run|
  {
    run == [] || (Possible(sys, run[0]) && (NextKeeps(sys, run[0]); PossibleRun(Next(sys, run[0]), run[1..])))
  }

  ghost function Final(sys: System, run: seq<Move>): (sys': System)
    requires sys.Valid() && PossibleRun(sys, run)
    ensures sys'.Valid()
    decreases |run|
  {
    if run == [] then sys else NextKeeps(sys, run[0]); Final(Next(sys, run[0]), run[1..])
  }

  /** Two fresh endpoints, each with its own configuration. */
  function Fresh(cfgA: TcpConfig, cfgB: TcpConfig): (sys: System)
    requires cfgA.Valid() && cfgB.Valid()
    ensures sys.Valid()
  {
    System(NewConnection(cfgA), NewConnection(cfgB))
  }

  // ------------------------------------------------------------------ every run

  /** Over every run: each side has received a prefix of what the other wrote, its stream
      ends only at the full length, and acknowledgments never run ahead of assembly or
      behind what the sender believes. */
  lemma RunsAreSafe(cfgA: TcpConfig, cfgB: TcpConfig, run: seq<Move>)
    requires cfgA.Valid() && cfgB.Valid() && PossibleRun(Fresh(cfgA, cfgB), run)
    ensures var end := Final(Fresh(cfgA, cfgB), run);
            Delivered(end.a, end.b) && Delivered(end.b, end.a)
  {
    hide Connection.Valid, Link, PossibleRun, Delivered;
    var end := Final(Fresh(cfgA, cfgB), run);
    LinkDelivers(end.a, end.b);
    LinkDelivers(end.b, end.a);
  }

  /** Over every run, whatever happens next: a segment that a sender stops keeping for
      retransmission has been assembled by its peer. */
  lemma NothingIsForgotten(cfgA: TcpConfig, cfgB: TcpConfig, run: seq<Move>, m: Move, o: Outgoing)
    requires cfgA.Valid() && cfgB.Valid() && PossibleRun(Fresh(cfgA, cfgB), run)
    requires Possible(Final(Fresh(cfgA, cfgB), run), m)
    ensures var sys := Final(Fresh(cfgA, cfgB), run);
            var sys' := Next(sys, m);
            && (o in sys.a.sender.outstanding && o !in sys'.a.sender.outstanding ==> Assembled(o, sys'.b.receiver))
            && (o in sys.b.sender.outstanding && o !in sys'.b.sender.outstanding ==> Assembled(o, sys'.a.receiver))
  {
    hide PossibleRun, Possible, Link, Chain, CutFrom, Assembled, Step, Sender.Tiled, Sender.BackedOff;
    var sys := Final(Fresh(cfgA, cfgB), run);
    NextKeeps(sys, m);
    DroppedIsAssembled(sys, m, o);
  }

  lemma DroppedIsAssembled(sys: System, m: Move, o: Outgoing)
    requires sys.Valid() && Possible(sys, m) && Next(sys, m).Valid()
    ensures var sys' := Next(sys, m);
            && (o in sys.a.sender.outstanding && o !in sys'.a.sender.outstanding ==> Assembled(o, sys'.b.receiver))
            && (o in sys.b.sender.outstanding && o !in sys'.b.sender.outstanding ==> Assembled(o, sys'.a.receiver))
  {
    hide Link, CutFrom, Assembled, Step, Sender.BackedOff, Decodable;
    var sys', e := Next(sys, m), if m.Local? then m.e else Receive(m.p.seg);
    if (if m.Local? then m.atA else m.toA) {
      if o in sys.a.sender.outstanding && o !in sys'.a.sender.outstanding {
        ForgottenIsAssembled(sys.a, sys.b, e, o);
      }
    } else {
      if o in sys.b.sender.outstanding && o !in sys'.b.sender.outstanding {
        ForgottenIsAssembled(sys.b, sys.a, e, o);
      }
    }
  }

  /** Over every run: an endpoint that has closed without an error knows that its peer has
      assembled its whole stream and has seen it end. */
  lemma ShutdownIsMutual(cfgA: TcpConfig, cfgB: TcpConfig, run: seq<Move>)
    requires cfgA.Valid() && cfgB.Valid() && PossibleRun(Fresh(cfgA, cfgB), run)
    ensures var end := Final(Fresh(cfgA, cfgB), run);
            && (ClosedCleanly(end.a) ==> Exchanged(end.a, end.b))
            && (ClosedCleanly(end.b) ==> Exchanged(end.b, end.a))
  {
    hide PossibleRun, Link, Connection.Valid, ClosedCleanly, Exchanged;
    var end := Final(Fresh(cfgA, cfgB), run);
    if ClosedCleanly(end.a) {
      ClosedMeansExchanged(end.a, end.b);
    }
    if ClosedCleanly(end.b) {
      ClosedMeansExchanged(end.b, end.a);
    }
  }
}
