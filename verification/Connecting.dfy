/** A TCP endpoint: a sender and a receiver joined by the segments they exchange with the peer. */
module Connecting {
  import opened MachineIntegers
  import opened WrappingIntegers
  import opened ByteStreams
  import opened TcpSegments
  import opened Receiving
  import opened Sending

  /** A segment as it leaves the endpoint. The two positions are bookkeeping: the absolute
      sequence number the segment was cut at and the absolute position it acknowledges. */
  datatype Packet = Packet(pos: nat, ackPos: nat, seg: TcpSegment)

  datatype Connection = Connection(
    rtTimeout: u16, sender: Sender, receiver: Receiver, segmentsOut: seq<Packet>, timePassed: nat, linger: bool) {

    /** Fills in the fields that the receiver decides. */
    function Stamp(o: Outgoing): Packet
      requires receiver.Out().Valid()
    {
      var header := o.seg.header.(win := U16(receiver.WindowSize()));
      Packet(o.pos, receiver.ackno,
             o.seg.(header := if receiver.hasIsn
                              then header.(ack := true, ackno := Wrap(receiver.ackno, receiver.isn)) else header))
    }

    /** The first `k` of the given segments, stamped. */
    function StampAll(out: seq<Outgoing>, k: nat): (packets: seq<Packet>)
      requires receiver.Out().Valid() && k <= |out|
      ensures |packets| == k && forall i :: 0 <= i < k ==> packets[i] == Stamp(out[i])
    {
      seq(k, i requires 0 <= i < k => Stamp(out[i]))
    }

    /** Moves every segment of the sender to the outbound queue. */
    function Flush(): Connection
      requires receiver.Out().Valid()
    {
      var out := sender.segmentsOut;
      this.(segmentsOut := segmentsOut + StampAll(out, |out|),
            sender := sender.(segmentsOut := []))
    }

    function SendRst(): Connection
      requires receiver.Out().Valid()
    {
      var out := sender.SendEmpty().segmentsOut;
      var rst := out[|out| - 1].(seg := out[|out| - 1].seg.(header := out[|out| - 1].seg.header.(rst := true)));
      this.(sender := sender.(segmentsOut := out[|out| - 1 := rst])).Flush()
    }

    function DirtyAbort(): Connection {
      this.(sender := sender.(stream := sender.stream.(error := true)), receiver := receiver.WithError(),
            linger := false)
    }

    predicate Active() {
      || linger
      || ((sender.BytesInFlight() != 0 || !sender.stream.Eof()) && !sender.stream.error)
      || (!receiver.Out().Eof() && !receiver.Out().error)
    }

    // ---------------------------------------------------------------- the public operations

    /** The bare acknowledgment owed for a keep-alive, or for a segment that got no other reply. */
    function Acknowledge(seg: TcpSegment): Connection {
      var keepAlive := seg.Length() == 0 && receiver.hasIsn
                       && seg.header.seqno == U32(Wrap(receiver.ackno, receiver.isn) - 1);
      if keepAlive || (seg.Length() != 0 && sender.segmentsOut == [])
      then this.(sender := sender.SendEmpty()) else this
    }

    function SegmentReceived(seg: TcpSegment): Connection
      requires sender.Valid() && receiver.Valid()
    {
      if seg.header.rst then DirtyAbort()
      else
        ReceivedKeepsValid(receiver, seg);
        var c := this.(receiver := receiver.SegmentReceived(seg));
        if !c.receiver.hasIsn then c
        else
          var s := Answer(sender, seg.header);
          c.(sender := s, linger := linger && !(seg.header.fin && !s.stream.Eof()))
            .Acknowledge(seg).Flush().(timePassed := 0)
    }

    function Write(data: seq<byte>): Connection
      requires sender.Valid() && receiver.Valid()
    {
      if sender.stream.ended then this
      else
        WriteKeeps(sender, data);
        this.(sender := sender.(stream := sender.stream.Write(data)).FillWindow()).Flush()
    }

    /** Resets the connection when the retry limit is exceeded. */
    function GiveUp(): (c: Connection)
      requires receiver.Out().Valid()
      ensures c.receiver.Out().Valid()
    {
      if sender.retransmissions > 8
      then this.(sender := sender.(segmentsOut := [])).SendRst().DirtyAbort() else this
    }

    /** Stops lingering once both streams are done and the peer has been silent long enough. */
    function CheckLinger(): Connection {
      if sender.stream.Eof() && receiver.Out().Eof() && linger && timePassed >= 10 * rtTimeout
      then this.(linger := false) else this
    }

    function Tick(ms: nat): Connection
      requires sender.Valid() && receiver.Valid()
    {
      this.(timePassed := timePassed + ms, sender := sender.Tick(ms)).GiveUp().CheckLinger().Flush()
    }

    function EndInputStream(): Connection
      requires sender.Valid() && receiver.Valid()
    {
      if sender.stream.ended then this
      else
        EndKeeps(sender);
        this.(sender := sender.(stream := sender.stream.(ended := true)).FillWindow()).Flush()
    }

    function Connect(): Connection
      requires sender.Valid() && receiver.Valid()
    {
      this.(sender := sender.FillWindow()).Flush()
    }

    function Read(n: nat): Connection
      requires receiver.Out().Valid() && n <= receiver.Out().BufferSize()
    {
      this.(receiver := receiver.Read(n))
    }

    // ---------------------------------------------------------------- what always holds

    /** Both halves are sound, nothing waits in the sender's own queue, and every
        segment ever sent says what the outbound stream says. */
    ghost predicate Sound() {
      && sender.Valid() && receiver.Valid()
      && sender.segmentsOut == []
      && sender.timer.initialRto == rtTimeout
      && (forall p :: p in segmentsOut ==> CutFrom(Outgoing(p.pos, p.seg), sender))
    }

    /** What holds between operations: moreover nothing more could be sent. */
    ghost predicate Valid() {
      Sound() && sender.Filled() && (receiver.hasIsn ==> 0 < sender.nextSeqno)
    }
  }

  /** What an incoming segment makes the sender do. */
  function Answer(s: Sender, header: TcpHeader): Sender
    requires s.Valid()
  {
    if header.ack then
      AckKeeps(s, header.ackno, header.win);
      s.AckReceived(header.ackno, header.win).FillWindow()
    else if header.syn then s.FillWindow()
    else s
  }

  /** The configuration of an endpoint; the initial sequence number is always given. */
  datatype TcpConfig = TcpConfig(rtTimeout: u16, recvCapacity: nat, sendCapacity: nat, isn: u32) {
    predicate Valid() { 0 < recvCapacity && 0 < sendCapacity }
  }

  function NewConnection(cfg: TcpConfig): (c: Connection)
    requires cfg.Valid()
    ensures c.Valid()
  {
    Connection(cfg.rtTimeout, NewSender(cfg.sendCapacity, cfg.rtTimeout, cfg.isn), NewReceiver(cfg.recvCapacity),
               [], 0, true)
  }

  // ------------------------------------------------------------------ one step

  datatype Event =
    | Connect
    | Write(data: seq<byte>)
    | EndInputStream
    | Tick(ms: nat)
    | Receive(seg: TcpSegment)
    | Read(n: nat)

  predicate Enabled(c: Connection, e: Event) {
    e.Read? ==> c.receiver.Out().Valid() && e.n <= c.receiver.Out().BufferSize()
  }

  function Step(c: Connection, e: Event): Connection
    requires c.sender.Valid() && c.receiver.Valid() && Enabled(c, e)
  {
    match e
    case Connect => c.Connect()
    case Write(data) => c.Write(data)
    case EndInputStream => c.EndInputStream()
    case Tick(ms) => c.Tick(ms)
    case Receive(seg) => c.SegmentReceived(seg)
    case Read(n) => c.Read(n)
  }

  lemma DrainKeeps(s: Sender)
    requires s.Valid()
    ensures s.(segmentsOut := []).Valid() && Extends(s, s.(segmentsOut := []))
  {
  }

  lemma StampCut(c: Connection, o: Outgoing, s: Sender)
    requires c.receiver.Out().Valid() && CutFrom(o, s)
    ensures CutFrom(Outgoing(c.Stamp(o).pos, c.Stamp(o).seg), s)
  {
  }

  /** Flushing adds the stamped segments of the sender to what the connection has sent. */
  lemma FlushKeeps(c: Connection, s: Sender)
    requires c.Sound() && s.Valid() && Extends(c.sender, s)
    ensures var c' := c.(sender := s).Flush();
            && c'.Sound() && Extends(c.sender, c'.sender) && c.segmentsOut <= c'.segmentsOut
            && (s.Filled() && (c.receiver.hasIsn ==> 0 < s.nextSeqno) ==> c'.Valid())
  {
    hide Chain, CutFrom, Sender.AllCut, Sender.Tiled, Sender.BackedOff;
    var c' := c.(sender := s).Flush();
    DrainKeeps(s);
    forall i | 0 <= i < |c'.segmentsOut|
      ensures CutFrom(Outgoing(c'.segmentsOut[i].pos, c'.segmentsOut[i].seg), c'.sender)
    {
      SentIsCut(c, s, i);
    }
  }

  lemma SentIsCut(c: Connection, s: Sender, i: nat)
    requires c.Sound() && s.Valid() && Extends(c.sender, s) && i < |c.(sender := s).Flush().segmentsOut|
    ensures var c' := c.(sender := s).Flush();
            CutFrom(Outgoing(c'.segmentsOut[i].pos, c'.segmentsOut[i].seg), c'.sender)
  {
    hide Chain, CutFrom, Sender.Tiled, Sender.BackedOff;
    var c' := c.(sender := s).Flush();
    var p, n := c'.segmentsOut[i], |c.segmentsOut|;
    DrainKeeps(s);
    if i < n {
      assert p in c.segmentsOut;
      CutStays(Outgoing(p.pos, p.seg), c.sender, s);
    } else {
      assert s.segmentsOut[i - n] in s.segmentsOut;
      StampCut(c, s.segmentsOut[i - n], s);
    }
    CutStays(Outgoing(p.pos, p.seg), s, c'.sender);
  }

  lemma ExtendsSelf(s: Sender)
    ensures Extends(s, s)
  {
  }

  lemma ExtendsTrans(a: Sender, b: Sender, c: Sender)
    requires Extends(a, b) && Extends(b, c)
    ensures Extends(a, c)
  {
  }

  lemma AnswerKeeps(c: Connection, header: TcpHeader)
    requires c.Valid()
    ensures var s := Answer(c.sender, header);
            && s.Valid() && Extends(c.sender, s) && s.Filled()
            && (0 < c.sender.nextSeqno || header.ack || header.syn ==> 0 < s.nextSeqno)
  {
    hide Chain, CutFrom, Sender.AllCut, Sender.Tiled, Sender.BackedOff, Sender.FillWindow, Sender.AckReceived, Cuts;
    if header.ack {
      AckKeeps(c.sender, header.ackno, header.win);
      FillWindowKeeps(c.sender.AckReceived(header.ackno, header.win));
      ExtendsTrans(c.sender, c.sender.AckReceived(header.ackno, header.win), Answer(c.sender, header));
    } else if header.syn {
      FillWindowKeeps(c.sender);
    }
  }

  lemma ReceiveKeeps(c: Connection, seg: TcpSegment)
    requires c.Valid()
    ensures var c' := c.SegmentReceived(seg);
            c'.Valid() && Extends(c.sender, c'.sender) && c.segmentsOut <= c'.segmentsOut
  {
    hide Chain, CutFrom, Sender.AllCut, Sender.Tiled, Sender.BackedOff, Receiver.SegmentReceived,
         Sender.FillWindow, Sender.AckReceived, Answer, Connection.Flush, Extends, Sender.Accounted;
    ExtendsSelf(c.sender);
    if seg.header.rst {
      AbortKeeps(c);
    } else {
      ReceivedKeepsValid(c.receiver, seg);
      IsnIsKept(c.receiver, seg);
      AnswerKeeps(c, seg.header);
      var s := Answer(c.sender, seg.header);
      SendEmptyKeeps(s);
      ExtendsTrans(c.sender, s, s.SendEmpty());
      var c1 := c.(receiver := c.receiver.SegmentReceived(seg),
                   linger := c.linger && !(seg.header.fin && !s.stream.Eof()));
      FlushKeeps(c1, s);
      FlushKeeps(c1, s.SendEmpty());
    }
  }

  lemma IsnIsKept(r: Receiver, seg: TcpSegment)
    requires r.Valid()
    ensures r.SegmentReceived(seg).hasIsn == (r.hasIsn || seg.header.syn)
    ensures r.SegmentReceived(seg).isn == if seg.header.syn then seg.header.seqno else r.isn
  {
  }

  lemma AbortKeeps(c: Connection)
    requires c.Sound()
    ensures var c' := c.DirtyAbort();
            && c'.Sound() && Extends(c.sender, c'.sender) && c'.segmentsOut == c.segmentsOut
            && (c.Valid() ==> c'.Valid())
  {
  }

  lemma WriterKeeps(c: Connection, stream: Fifo)
    requires c.Valid() && c.sender.(stream := stream).Valid() && Extends(c.sender, c.sender.(stream := stream))
    ensures var c' := c.(sender := c.sender.(stream := stream).FillWindow()).Flush();
            c'.Valid() && Extends(c.sender, c'.sender) && c.segmentsOut <= c'.segmentsOut
  {
    hide Chain, CutFrom, Sender.AllCut, Sender.Tiled, Sender.BackedOff, Sender.FillWindow, Connection.Flush, Cuts;
    var s := c.sender.(stream := stream);
    FillWindowKeeps(s);
    ExtendsTrans(c.sender, s, s.FillWindow());
    FlushKeeps(c, s.FillWindow());
  }

  lemma SendRstKeeps(c: Connection)
    requires c.Sound()
    ensures var c' := c.SendRst();
            && c'.Sound() && Extends(c.sender, c'.sender) && c.segmentsOut <= c'.segmentsOut
            && c'.sender.(segmentsOut := []) == c.sender && c'.(sender := c.sender, segmentsOut := c.segmentsOut) == c
  {
  }

  /** At the retry limit the connection resets itself. */
  lemma GiveUpKeeps(c: Connection, s: Sender)
    requires c.Valid() && s.Valid() && Extends(c.sender, s) && s.Filled() && (c.receiver.hasIsn ==> 0 < s.nextSeqno)
    requires s.retransmissions > 8
    ensures var d := c.(sender := s).GiveUp();
            d.Valid() && Extends(c.sender, d.sender) && c.segmentsOut <= d.segmentsOut && !d.linger
  {
    hide Chain, CutFrom, Sender.AllCut, Sender.Tiled, Sender.BackedOff, Connection.Flush, Connection.SendRst;
    DrainKeeps(s);
    var c2 := c.(sender := s.(segmentsOut := []));
    ExtendsTrans(c.sender, s, c2.sender);
    QuietKeeps(c, c2.sender);
    SendRstKeeps(c2);
    AbortKeeps(c2.SendRst());
    ExtendsTrans(c.sender, c2.sender, c2.SendRst().sender);
    ExtendsTrans(c.sender, c2.SendRst().sender, c2.SendRst().DirtyAbort().sender);
  }

  lemma TickStepKeeps(c: Connection, ms: nat)
    requires c.Valid()
    ensures var c' := c.Tick(ms);
            c'.Valid() && Extends(c.sender, c'.sender) && c.segmentsOut <= c'.segmentsOut
  {
    hide Chain, CutFrom, Sender.AllCut, Sender.Tiled, Sender.BackedOff, Sender.Tick, Connection.Flush,
         Connection.SendRst, Connection.DirtyAbort, Extends, Sender.Accounted;
    var s := c.sender.Tick(ms);
    TickKeeps(c.sender, ms);
    var c1 := c.(timePassed := c.timePassed + ms);
    if s.retransmissions > 8 {
      GiveUpKeeps(c1, s);
      var d := c1.(sender := s).GiveUp();
      ExtendsSelf(d.sender);
      FlushKeeps(d, d.sender);
      ExtendsTrans(c.sender, d.sender, d.Flush().sender);
    } else {
      FlushKeeps(c1, s);
      FlushKeeps(c1.(linger := false), s);
    }
  }

  /** Moving the sender on without sending anything. */
  lemma QuietKeeps(c: Connection, s: Sender)
    requires c.Sound() && s.Valid() && Extends(c.sender, s) && s.segmentsOut == []
    ensures c.(sender := s).Sound()
  {
  }

  /** Every operation, with any argument and any incoming segment, keeps the invariant
      and takes nothing back. */
  lemma StepKeeps(c: Connection, e: Event)
    requires c.Valid() && Enabled(c, e)
    ensures var c' := Step(c, e);
            c'.Valid() && Extends(c.sender, c'.sender) && c.segmentsOut <= c'.segmentsOut
  {
    hide Chain, CutFrom, Sender.AllCut, Sender.Tiled, Sender.BackedOff, Sender.FillWindow, Connection.Flush,
         Connection.Tick, Connection.SegmentReceived;
    match e {
      case Connect =>
        WriterKeeps(c, c.sender.stream);
      case Write(data) =>
        if !c.sender.stream.ended {
          WriteKeeps(c.sender, data);
          WriterKeeps(c, c.sender.stream.Write(data));
        }
      case EndInputStream =>
        EndKeeps(c.sender);
        WriterKeeps(c, c.sender.stream.(ended := true));
      case Tick(ms) =>
        TickStepKeeps(c, ms);
      case Receive(seg) =>
        ReceiveKeeps(c, seg);
      case Read(n) =>
        ReadKeepsValid(c.receiver, n);
    }
  }
}
