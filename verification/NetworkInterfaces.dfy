/** The network interface: IP datagrams over Ethernet, with address resolution (RFC 826). */
module NetworkInterfaces {
  import opened MachineIntegers
  import opened Options

  type Mac = x: int | 0 <= x < 0x1_0000_0000_0000

  const EMPTY_ADDRESS: Mac := 0
  const BROADCAST: Mac := 0xFFFF_FFFF_FFFF

  datatype Datagram = Datagram(ttl: byte, src: u32, dst: u32, payload: seq<byte>)

  datatype Opcode = Request | Reply

  datatype ArpMessage = ArpMessage(opcode: Opcode, senderMac: Mac, senderIp: u32, targetMac: Mac, targetIp: u32)

  /** The type field and the payload of a frame; `None` is a payload that does not parse. */
  datatype Body = IPv4(dgram: Option<Datagram>) | ARP(msg: Option<ArpMessage>) | Other

  datatype Frame = Frame(dst: Mac, src: Mac, body: Body)

  /** When an address was learnt. */
  datatype Mapping = Mapping(mac: Mac, at: nat)

  datatype Interface = Interface(
    mac: Mac, ip: u32, framesOut: seq<Frame>, mappings: map<u32, Mapping>, arpSent: map<u32, nat>,
    waiting: map<u32, seq<Datagram>>, now: nat) {

    /** Whether the hop's Ethernet address is known and fresh. */
    predicate Live(hop: u32) {
      hop in mappings && now - mappings[hop].at < 30000
    }

    /** The datagrams queued for a hop. */
    function Queue(hop: u32): seq<Datagram> {
      if hop in waiting then waiting[hop] else []
    }

    function IpFrame(dst: Mac, dgram: Datagram): Frame {
      Frame(dst, mac, IPv4(Some(dgram)))
    }

    function ArpFrame(dst: Mac, target: u32, opcode: Opcode): Frame {
      Frame(if dst == EMPTY_ADDRESS then BROADCAST else dst, mac, ARP(Some(ArpMessage(opcode, mac, ip, dst, target))))
    }

    /** Whether queueing a datagram for the hop makes the interface ask for its address. */
    predicate Asks(hop: u32) {
      hop !in arpSent || now - arpSent[hop] >= 5000
    }

    function SendDatagram(dgram: Datagram, hop: u32): Interface {
      if Live(hop) then this.(framesOut := framesOut + [IpFrame(mappings[hop].mac, dgram)])
      else
        var asked := if Asks(hop)
                     then this.(framesOut := framesOut + [ArpFrame(EMPTY_ADDRESS, hop, Request)],
                                arpSent := if hop in arpSent then arpSent else arpSent[hop := now])
                     else this;
        asked.(waiting := waiting[hop := Queue(hop) + [dgram]])
    }

    /** Whether a frame is meant for this interface. */
    predicate Accepts(frame: Frame) {
      frame.dst == mac || frame.dst == BROADCAST
    }

    function Flushed(dst: Mac, queue: seq<Datagram>): seq<Frame> {
      seq(|queue|, i requires 0 <= i < |queue| => IpFrame(dst, queue[i]))
    }

    /** What an ARP message teaches: an address learnt is not replaced by a later one. */
    function Learn(msg: ArpMessage): Interface {
      this.(mappings := if msg.senderIp in mappings then mappings
                        else mappings[msg.senderIp := Mapping(msg.senderMac, now)],
            framesOut := framesOut + Flushed(msg.senderMac, Queue(msg.senderIp)),
            waiting := waiting - {msg.senderIp})
    }

    function Respond(msg: ArpMessage): Interface {
      if msg.targetMac == EMPTY_ADDRESS && msg.targetIp == ip
      then this.(framesOut := framesOut + [ArpFrame(msg.senderMac, msg.senderIp, Reply)]) else this
    }

    function RecvFrame(frame: Frame): (Interface, Option<Datagram>) {
      if !Accepts(frame) then (this, None)
      else match frame.body
        case IPv4(dgram) => (this, dgram)
        case ARP(Some(msg)) => (Learn(msg).Respond(msg), None)
        case _ => (this, None)
    }

    function Tick(ms: nat): Interface {
      this.(now := now + ms)
    }
  }

  // ------------------------------------------------------------------ histories

  datatype Submission = Submission(hop: u32, dgram: Datagram)
  datatype Emission = Emission(hop: u32, dgram: Datagram, dst: Mac, at: nat)
  datatype Announcement = Announcement(ip: u32, mac: Mac, at: nat)

  /** An interface together with everything that was submitted to it, that it emitted, and
      that was announced to it. */
  datatype History = History(
    iface: Interface, submitted: seq<Submission>, emitted: seq<Emission>, announced: set<Announcement>) {

    /** The IP frames that left are exactly the emissions, in order. */
    ghost predicate Recorded() {
      IpFrames(iface.framesOut) == FramesOf(iface.mac, emitted)
    }

    /** What was submitted for a hop has been emitted or is queued, in order. */
    ghost predicate Conserved() {
      forall hop: u32 :: SubmittedTo(submitted, hop) == EmittedTo(emitted, hop) + iface.Queue(hop)
    }

    /** Every emission went to an address announced for its hop less than 30 seconds before. */
    ghost predicate Addressed() {
      forall e :: e in emitted ==>
        exists a :: a in announced && a.ip == e.hop && a.mac == e.dst && a.at <= e.at < a.at + 30000
    }

    /** Learnt addresses were announced, and no hop has both a live address and a queue. */
    ghost predicate Resolved() {
      && (forall hop :: hop in iface.mappings ==>
            iface.mappings[hop].at <= iface.now
            && Announcement(hop, iface.mappings[hop].mac, iface.mappings[hop].at) in announced)
      && (forall hop :: hop in iface.waiting ==> iface.waiting[hop] != [] && !iface.Live(hop))
    }

    ghost predicate Valid() {
      Recorded() && Conserved() && Addressed() && Resolved()
    }
  }

  function SubmittedTo(log: seq<Submission>, hop: u32): seq<Datagram> {
    if log == [] then []
    else SubmittedTo(log[..|log| - 1], hop) + (if log[|log| - 1].hop == hop then [log[|log| - 1].dgram] else [])
  }

  function EmittedTo(log: seq<Emission>, hop: u32): seq<Datagram> {
    if log == [] then []
    else EmittedTo(log[..|log| - 1], hop) + (if log[|log| - 1].hop == hop then [log[|log| - 1].dgram] else [])
  }

  function IpFrames(frames: seq<Frame>): seq<Frame> {
    if frames == [] then []
    else IpFrames(frames[..|frames| - 1])
         + (if frames[|frames| - 1].body.IPv4? then [frames[|frames| - 1]] else [])
  }

  function FramesOf(src: Mac, log: seq<Emission>): seq<Frame> {
    seq(|log|, i requires 0 <= i < |log| => Frame(log[i].dst, src, IPv4(Some(log[i].dgram))))
  }

  datatype Event = Submit(dgram: Datagram, hop: u32) | Receive(frame: Frame) | Tick(ms: nat)

  function Emissions(hop: u32, queue: seq<Datagram>, dst: Mac, at: nat): seq<Emission> {
    seq(|queue|, i requires 0 <= i < |queue| => Emission(hop, queue[i], dst, at))
  }

  function Step(h: History, e: Event): History {
    match e
    case Submit(dgram, hop) =>
      h.(iface := h.iface.SendDatagram(dgram, hop), submitted := h.submitted + [Submission(hop, dgram)],
         emitted := if h.iface.Live(hop)
                    then h.emitted + [Emission(hop, dgram, h.iface.mappings[hop].mac, h.iface.now)] else h.emitted)
    case Receive(frame) =>
      if h.iface.Accepts(frame) && frame.body.ARP? && frame.body.msg.Some? then
        var msg := frame.body.msg.value;
        h.(iface := h.iface.RecvFrame(frame).0,
           emitted := h.emitted + Emissions(msg.senderIp, h.iface.Queue(msg.senderIp), msg.senderMac, h.iface.now),
           announced := h.announced + {Announcement(msg.senderIp, msg.senderMac, h.iface.now)})
      else h.(iface := h.iface.RecvFrame(frame).0)
    case Tick(ms) => h.(iface := h.iface.Tick(ms))
  }

  function Fresh(mac: Mac, ip: u32): (h: History)
    ensures h.Valid()
  {
    History(Interface(mac, ip, [], map[], map[], map[], 0), [], [], {})
  }

  function Run(h: History, events: seq<Event>): History
    decreases |events|
  {
    if events == [] then h else Run(Step(h, events[0]), events[1..])
  }

  // ------------------------------------------------------------------ submitting

  lemma SubmittedAppend(log: seq<Submission>, s: Submission, hop: u32)
    ensures SubmittedTo(log + [s], hop) == SubmittedTo(log, hop) + (if s.hop == hop then [s.dgram] else [])
  {
  }

  lemma EmittedAppend(log: seq<Emission>, e: Emission, hop: u32)
    ensures EmittedTo(log + [e], hop) == EmittedTo(log, hop) + (if e.hop == hop then [e.dgram] else [])
  {
  }

  lemma IpAppend(frames: seq<Frame>, f: Frame)
    ensures IpFrames(frames + [f]) == IpFrames(frames) + (if f.body.IPv4? then [f] else [])
  {
  }

  lemma SubmitKeeps(h: History, dgram: Datagram, hop: u32)
    requires h.Valid()
    ensures Step(h, Submit(dgram, hop)).Valid()
  {
    hide SubmittedTo, EmittedTo, IpFrames;
    var h' := Step(h, Submit(dgram, hop));
    SubmitRecords(h, dgram, hop);
    forall x: u32
      ensures SubmittedTo(h'.submitted, x) == EmittedTo(h'.emitted, x) + h'.iface.Queue(x)
    {
      SubmitConserves(h, dgram, hop, x);
    }
  }

  lemma SubmitRecords(h: History, dgram: Datagram, hop: u32)
    requires h.Recorded()
    ensures Step(h, Submit(dgram, hop)).Recorded()
  {
  }

  lemma SubmitConserves(h: History, dgram: Datagram, hop: u32, x: u32)
    requires h.Conserved() && h.Resolved()
    ensures var h' := Step(h, Submit(dgram, hop));
            SubmittedTo(h'.submitted, x) == EmittedTo(h'.emitted, x) + h'.iface.Queue(x)
  {
    hide SubmittedTo, EmittedTo;
    SubmittedAppend(h.submitted, Submission(hop, dgram), x);
    if h.iface.Live(hop) {
      EmittedAppend(h.emitted, Emission(hop, dgram, h.iface.mappings[hop].mac, h.iface.now), x);
    }
  }

  // ------------------------------------------------------------------ receiving

  lemma {:induction false} EmittedFlush(log: seq<Emission>, ip: u32, queue: seq<Datagram>, dst: Mac, at: nat, hop: u32)
    ensures EmittedTo(log + Emissions(ip, queue, dst, at), hop) == EmittedTo(log, hop) + (if ip == hop then queue else [])
    decreases |queue|
  {
    hide EmittedTo;
    if queue == [] {
      assert log + Emissions(ip, queue, dst, at) == log;
    } else {
      var front, last := queue[..|queue| - 1], queue[|queue| - 1];
      EmittedFlush(log, ip, front, dst, at, hop);
      assert log + Emissions(ip, queue, dst, at) == (log + Emissions(ip, front, dst, at)) + [Emission(ip, last, dst, at)];
      EmittedAppend(log + Emissions(ip, front, dst, at), Emission(ip, last, dst, at), hop);
    }
  }

  lemma {:induction false} IpFlush(i: Interface, frames: seq<Frame>, dst: Mac, queue: seq<Datagram>)
    ensures IpFrames(frames + i.Flushed(dst, queue)) == IpFrames(frames) + i.Flushed(dst, queue)
    decreases |queue|
  {
    hide IpFrames;
    if queue == [] {
      assert frames + i.Flushed(dst, queue) == frames;
    } else {
      var front, last := queue[..|queue| - 1], queue[|queue| - 1];
      IpFlush(i, frames, dst, front);
      assert frames + i.Flushed(dst, queue) == (frames + i.Flushed(dst, front)) + [i.IpFrame(dst, last)];
      IpAppend(frames + i.Flushed(dst, front), i.IpFrame(dst, last));
    }
  }

  lemma ReceiveRecords(h: History, frame: Frame)
    requires h.Recorded()
    ensures Step(h, Receive(frame)).Recorded()
  {
    hide IpFrames;
    if h.iface.Accepts(frame) && frame.body.ARP? && frame.body.msg.Some? {
      var i, msg := h.iface, frame.body.msg.value;
      var queue := i.Queue(msg.senderIp);
      IpFlush(i, i.framesOut, msg.senderMac, queue);
      IpAppend(i.framesOut + i.Flushed(msg.senderMac, queue), i.ArpFrame(msg.senderMac, msg.senderIp, Reply));
    }
  }

  lemma ReceiveConserves(h: History, frame: Frame, x: u32)
    requires h.Conserved()
    ensures var h' := Step(h, Receive(frame));
            SubmittedTo(h'.submitted, x) == EmittedTo(h'.emitted, x) + h'.iface.Queue(x)
  {
    hide SubmittedTo, EmittedTo;
    if h.iface.Accepts(frame) && frame.body.ARP? && frame.body.msg.Some? {
      var msg := frame.body.msg.value;
      EmittedFlush(h.emitted, msg.senderIp, h.iface.Queue(msg.senderIp), msg.senderMac, h.iface.now, x);
    }
  }

  lemma ReceiveAddresses(h: History, frame: Frame)
    requires h.Addressed()
    ensures Step(h, Receive(frame)).Addressed()
  {
  }

  lemma ReceiveResolves(h: History, frame: Frame)
    requires h.Resolved()
    ensures Step(h, Receive(frame)).Resolved()
  {
  }

  lemma ReceiveKeeps(h: History, frame: Frame)
    requires h.Valid()
    ensures Step(h, Receive(frame)).Valid()
  {
    hide SubmittedTo, EmittedTo, IpFrames, History.Recorded, History.Addressed, History.Resolved;
    var h' := Step(h, Receive(frame));
    ReceiveRecords(h, frame);
    ReceiveAddresses(h, frame);
    ReceiveResolves(h, frame);
    forall x: u32
      ensures SubmittedTo(h'.submitted, x) == EmittedTo(h'.emitted, x) + h'.iface.Queue(x)
    {
      ReceiveConserves(h, frame, x);
    }
  }

  // ------------------------------------------------------------------ every run

  lemma TickKeeps(h: History, ms: nat)
    requires h.Valid()
    ensures Step(h, Tick(ms)).Valid()
  {
  }

  /** Over every run of a new interface: what was submitted for a hop was emitted in exactly
      one frame each and in order, or is still queued in order; every emission went to an
      address announced for the hop less than 30 seconds before; and no hop with a fresh
      address has anything queued. */
  lemma {:induction false} RunKeeps(h: History, events: seq<Event>)
    requires h.Valid()
    ensures Run(h, events).Valid()
    decreases |events|
  {
    hide History.Valid, Step;
    if events != [] {
      match events[0] {
        case Submit(dgram, hop) => SubmitKeeps(h, dgram, hop);
        case Receive(frame) => ReceiveKeeps(h, frame);
        case Tick(ms) => TickKeeps(h, ms);
      }
      RunKeeps(Step(h, events[0]), events[1..]);
    }
  }

  /** What a run submits, read off its events alone. */
  function Submissions(events: seq<Event>): seq<Submission> {
    if events == [] then []
    else (if events[0].Submit? then [Submission(events[0].hop, events[0].dgram)] else []) + Submissions(events[1..])
  }

  lemma StepSubmits(h: History, e: Event)
    ensures Step(h, e).submitted == h.submitted + (if e.Submit? then [Submission(e.hop, e.dgram)] else [])
    ensures Step(h, e).iface.mac == h.iface.mac
  {
  }

  lemma {:induction false} RunSubmits(h: History, events: seq<Event>)
    ensures Run(h, events).submitted == h.submitted + Submissions(events)
    ensures Run(h, events).iface.mac == h.iface.mac
    decreases |events|
  {
    hide Step, History.Valid;
    if events != [] {
      StepSubmits(h, events[0]);
      RunSubmits(Step(h, events[0]), events[1..]);
      assert Run(h, events) == Run(Step(h, events[0]), events[1..]);
    }
  }

  /** Over every run of a new interface: what the run submitted for a hop was emitted in
      exactly one frame each and in order, or is still queued in order; every emission went
      to an address announced for the hop less than 30 seconds before; and nothing is
      queued for a hop whose address is fresh. */
  lemma RunsDeliver(mac: Mac, ip: u32, events: seq<Event>, hop: u32)
    ensures var h := Run(Fresh(mac, ip), events);
            && SubmittedTo(Submissions(events), hop) == EmittedTo(h.emitted, hop) + h.iface.Queue(hop)
            && IpFrames(h.iface.framesOut) == FramesOf(mac, h.emitted)
            && h.Addressed()
            && (h.iface.Live(hop) ==> h.iface.Queue(hop) == [])
  {
    hide SubmittedTo, EmittedTo, IpFrames, Step, History.Addressed;
    RunKeeps(Fresh(mac, ip), events);
    RunSubmits(Fresh(mac, ip), events);
    assert Run(Fresh(mac, ip), events).submitted == Submissions(events);
  }

  // ------------------------------------------------------------------ how often it asks

  lemma {:induction false} FirstAskSticks(h: History, events: seq<Event>, hop: u32)
    requires hop in h.iface.arpSent
    ensures var i := Run(h, events).iface;
            hop in i.arpSent && i.arpSent[hop] == h.iface.arpSent[hop]
    decreases |events|
  {
    if events != [] {
      FirstAskSticks(Step(h, events[0]), events[1..], hop);
    }
  }

  /** From five seconds after the first request on, and only then, every datagram queued
      for the hop makes the interface ask again. */
  lemma AsksAgainExactly(h: History, events: seq<Event>, hop: u32, dgram: Datagram)
    requires hop in h.iface.arpSent
    ensures var i := Run(h, events).iface;
            var request := i.ArpFrame(EMPTY_ADDRESS, hop, Request);
            i.SendDatagram(dgram, hop).framesOut == i.framesOut + [request] <==>
            !i.Live(hop) && i.now - h.iface.arpSent[hop] >= 5000
  {
    FirstAskSticks(h, events, hop);
    hide Step, Run;
    var i := Run(h, events).iface;
    var request := i.ArpFrame(EMPTY_ADDRESS, hop, Request);
    assert (i.framesOut + [request])[|i.framesOut|] == request;
    if i.Live(hop) {
      assert i.SendDatagram(dgram, hop).framesOut[|i.framesOut|].body.IPv4?;
    } else if !i.Asks(hop) {
      assert |i.SendDatagram(dgram, hop).framesOut| == |i.framesOut|;
    }
  }

  /** So requests for the same hop are not kept five seconds apart. */
  lemma NotRateLimited(mac: Mac, ip: u32, dgram: Datagram, hop: u32)
    ensures var first := Step(Fresh(mac, ip), Submit(dgram, hop));
            var second := Step(Step(first, Tick(5000)), Submit(dgram, hop));
            var third := Step(second, Submit(dgram, hop));
            var request := first.iface.ArpFrame(EMPTY_ADDRESS, hop, Request);
            third.iface.framesOut == [request, request, request] && third.iface.now == second.iface.now
  {
  }

  lemma {:induction false} FirstMappingSticks(h: History, events: seq<Event>, hop: u32)
    requires hop in h.iface.mappings
    ensures var i := Run(h, events).iface;
            hop in i.mappings && i.mappings[hop] == h.iface.mappings[hop]
    decreases |events|
  {
    if events != [] {
      FirstMappingSticks(Step(h, events[0]), events[1..], hop);
    }
  }

  /** An address is fresh for the 30 seconds after it was first learnt and never again. */
  lemma FreshOnlyOnce(h: History, events: seq<Event>, hop: u32)
    requires hop in h.iface.mappings
    ensures var i := Run(h, events).iface;
            i.Live(hop) <==> i.now - h.iface.mappings[hop].at < 30000
  {
    FirstMappingSticks(h, events, hop);
  }

  // ------------------------------------------------------------------ what is passed up

  /** A datagram is passed up if and only if the frame brings it and is meant for this interface,
      and such a frame changes nothing. */
  lemma PassesUpExactly(i: Interface, frame: Frame, dgram: Datagram)
    ensures i.RecvFrame(frame).1 == Some(dgram) <==>
            (frame.dst == i.mac || frame.dst == BROADCAST) && frame.body == IPv4(Some(dgram))
    ensures frame.body.IPv4? ==> i.RecvFrame(frame).0 == i
    ensures i.RecvFrame(frame).0.mac == i.mac
  {
  }

  /** An interface after frames have arrived one after the other, and what it has passed up. */
  function Received(i: Interface, frames: seq<Frame>): (i': Interface)
    ensures i'.mac == i.mac
    decreases |frames|
  {
    if frames == [] then i else Received(i, frames[..|frames| - 1]).RecvFrame(frames[|frames| - 1]).0
  }

  function PassedUp(i: Interface, frames: seq<Frame>): seq<Datagram>
    decreases |frames|
  {
    if frames == [] then []
    else
      var n := |frames| - 1;
      var dgram := Received(i, frames[..n]).RecvFrame(frames[n]).1;
      PassedUp(i, frames[..n]) + (if dgram.Some? then [dgram.value] else [])
  }

  /** The datagrams emitted to one address, or to all. */
  function EmittedAt(log: seq<Emission>, mac: Mac): seq<Datagram> {
    if log == [] then []
    else
      var e := log[|log| - 1];
      EmittedAt(log[..|log| - 1], mac) + (if e.dst == mac || e.dst == BROADCAST then [e.dgram] else [])
  }

  lemma PassedUpNext(i: Interface, frames: seq<Frame>, f: Frame)
    ensures PassedUp(i, frames + [f]) == PassedUp(i, frames) +
            if (f.dst == i.mac || f.dst == BROADCAST) && f.body.IPv4? && f.body.dgram.Some? then [f.body.dgram.value] else []
  {
    assert (frames + [f])[..|frames|] == frames;
  }

  /** The IP frames alone decide what is passed up. */
  lemma {:induction false} OnlyIpIsPassedUp(i: Interface, frames: seq<Frame>)
    ensures PassedUp(i, frames) == PassedUp(i, IpFrames(frames))
    decreases |frames|
  {
    hide IpFrames, PassedUp;
    if frames == [] {
      assert IpFrames(frames) == [] by { NoFrames(); }
    } else {
      var front, f := frames[..|frames| - 1], frames[|frames| - 1];
      assert frames == front + [f];
      OnlyIpIsPassedUp(i, front);
      IpAppend(front, f);
      PassedUpNext(i, front, f);
      PassedUpNext(i, IpFrames(front), f);
      assert IpFrames(front) + [] == IpFrames(front) && PassedUp(i, front) + [] == PassedUp(i, front);
    }
  }

  lemma NoFrames()
    ensures IpFrames([]) == []
  {
  }

  lemma {:induction false} EmissionsArrive(i: Interface, src: Mac, log: seq<Emission>)
    ensures PassedUp(i, FramesOf(src, log)) == EmittedAt(log, i.mac)
    decreases |log|
  {
    hide PassedUp;
    if log == [] {
      assert PassedUp(i, []) == [] by { NothingPassedUp(i); }
    } else {
      var front, e := log[..|log| - 1], log[|log| - 1];
      EmissionsArrive(i, src, front);
      assert FramesOf(src, log) == FramesOf(src, front) + [Frame(e.dst, src, IPv4(Some(e.dgram)))];
      PassedUpNext(i, FramesOf(src, front), Frame(e.dst, src, IPv4(Some(e.dgram))));
    }
  }

  lemma NothingPassedUp(i: Interface)
    ensures PassedUp(i, []) == []
  {
  }

  /** The two ends agree, over every run of the sending one: delivering all its frames to another
      interface passes up exactly what was emitted to that interface's address, in order. */
  lemma EmittedIsPassedUp(mac: Mac, ip: u32, events: seq<Event>, b: Interface)
    ensures var h := Run(Fresh(mac, ip), events);
            PassedUp(b, h.iface.framesOut) == EmittedAt(h.emitted, b.mac)
  {
    hide Run, PassedUp, EmittedAt, IpFrames, History.Conserved, History.Addressed, History.Resolved;
    RunKeeps(Fresh(mac, ip), events);
    RunSubmits(Fresh(mac, ip), events);
    var h := Run(Fresh(mac, ip), events);
    OnlyIpIsPassedUp(b, h.iface.framesOut);
    EmissionsArrive(b, mac, h.emitted);
  }

  /** The addresses announced are true of `b`: its IP address has its Ethernet address, and no other has. */
  ghost predicate Honest(announced: set<Announcement>, b: Interface) {
    forall a :: a in announced ==> a.mac != BROADCAST && (a.mac == b.mac <==> a.ip == b.ip)
  }

  lemma {:induction false} HonestEmissions(log: seq<Emission>, b: Interface)
    requires forall e :: e in log ==> e.dst != BROADCAST && (e.dst == b.mac <==> e.hop == b.ip)
    ensures EmittedAt(log, b.mac) == EmittedTo(log, b.ip)
    decreases |log|
  {
    if log != [] {
      HonestEmissions(log[..|log| - 1], b);
      assert log[|log| - 1] in log;
    }
  }

  /** Over every run in which what is announced about `b` is true: everything submitted for it
      is passed up by it once the frames arrive, exactly once and in order, or is still queued. */
  lemma SubmittedIsPassedUp(mac: Mac, ip: u32, events: seq<Event>, b: Interface)
    requires Honest(Run(Fresh(mac, ip), events).announced, b)
    ensures var i := Run(Fresh(mac, ip), events).iface;
            SubmittedTo(Submissions(events), b.ip) == PassedUp(b, i.framesOut) + i.Queue(b.ip)
  {
    hide Run, PassedUp, EmittedAt, EmittedTo, IpFrames, SubmittedTo, Submissions;
    RunsDeliver(mac, ip, events, b.ip);
    EmittedIsPassedUp(mac, ip, events, b);
    HonestEmissions(Run(Fresh(mac, ip), events).emitted, b);
  }

  // ------------------------------------------------------------------ what is learnt

  /** The sender of an ARP message that a frame brings to an interface with address `mac`. */
  function Announces(mac: Mac, frame: Frame): Option<(u32, Mac)> {
    if (frame.dst == mac || frame.dst == BROADCAST) && frame.body.ARP? && frame.body.msg.Some?
    then Some((frame.body.msg.value.senderIp, frame.body.msg.value.senderMac)) else None
  }

  /** Every ARP message that arrives, whoever it asks for, teaches its sender's address if none is
      known, and releases what waits for it; nothing else does either. */
  lemma LearnsExactly(i: Interface, frame: Frame, hop: u32)
    ensures var i', a := i.RecvFrame(frame).0, Announces(i.mac, frame);
            var heard := a.Some? && a.value.0 == hop;
            && (hop in i'.mappings <==> hop in i.mappings || heard)
            && (hop in i'.mappings ==>
                  i'.mappings[hop] == if hop in i.mappings then i.mappings[hop] else Mapping(a.value.1, i.now))
            && i'.Queue(hop) == (if heard then [] else i.Queue(hop))
            && i'.arpSent == i.arpSent && i'.now == i.now && (i'.mac, i'.ip) == (i.mac, i.ip)
  {
  }

  /** The first address announced for a hop and when, told from the events alone. */
  function FirstHeard(mac: Mac, events: seq<Event>, hop: u32): Option<Mapping> {
    if events == [] then None
    else
      var n := |events| - 1;
      var before := FirstHeard(mac, events[..n], hop);
      if before.Some? || !events[n].Receive? then before
      else
        var a := Announces(mac, events[n].frame);
        if a.Some? && a.value.0 == hop then Some(Mapping(a.value.1, Clock(events))) else None
  }

  function Clock(events: seq<Event>): nat {
    if events == [] then 0
    else Clock(events[..|events| - 1]) + (if events[|events| - 1].Tick? then events[|events| - 1].ms else 0)
  }

  lemma {:induction false} RunNext(h: History, events: seq<Event>, e: Event)
    ensures Run(h, events + [e]) == Step(Run(h, events), e)
    decreases |events|
  {
    hide Step;
    if events == [] {
      assert (events + [e])[1..] == [] && (events + [e])[0] == e;
      assert Run(Step(h, e), []) == Step(h, e);
    } else {
      assert (events + [e])[1..] == events[1..] + [e];
      RunNext(Step(h, events[0]), events[1..], e);
    }
  }

  lemma StepLearns(h: History, e: Event, hop: u32)
    ensures var i, i' := h.iface, Step(h, e).iface;
            && (i'.mac, i'.now) == (i.mac, i.now + (if e.Tick? then e.ms else 0))
            && (e.Receive? ==> i' == i.RecvFrame(e.frame).0)
            && (!e.Receive? ==> i'.mappings == i.mappings)
  {
  }

  /** Over every run: the address known for a hop is the first one announced, from then on. */
  lemma {:induction false} KnowsFirstHeard(mac: Mac, ip: u32, events: seq<Event>, hop: u32)
    ensures var i, first := Run(Fresh(mac, ip), events).iface, FirstHeard(mac, events, hop);
            && i.mac == mac && i.now == Clock(events)
            && (hop in i.mappings <==> first.Some?) && (hop in i.mappings ==> i.mappings[hop] == first.value)
    decreases |events|
  {
    hide Step, Interface.RecvFrame, Announces;
    if events != [] {
      var front, e := events[..|events| - 1], events[|events| - 1];
      assert events == front + [e];
      KnowsFirstHeard(mac, ip, front, hop);
      RunNext(Fresh(mac, ip), front, e);
      hide Run;
      StepLearns(Run(Fresh(mac, ip), front), e, hop);
      if e.Receive? {
        LearnsExactly(Run(Fresh(mac, ip), front).iface, e.frame, hop);
      }
    }
  }

  /** Whether an address is fresh, told from the events alone: it was first announced less than
      30 seconds ago. */
  predicate FreshNow(mac: Mac, events: seq<Event>, hop: u32) {
    var first := FirstHeard(mac, events, hop);
    first.Some? && Clock(events) - first.value.at < 30000
  }

  lemma FreshExactly(mac: Mac, ip: u32, events: seq<Event>, hop: u32)
    ensures Run(Fresh(mac, ip), events).iface.Live(hop) <==> FreshNow(mac, events, hop)
  {
    hide Run, FirstHeard, Clock;
    KnowsFirstHeard(mac, ip, events, hop);
  }

  // ------------------------------------------------------------------ requests and replies

  /** Whoever answers a request owns the address asked for, and answers the asker alone with its
      own address; nothing else is ever answered. */
  lemma RepliesExactly(i: Interface, frame: Frame)
    ensures var i' := i.RecvFrame(frame).0;
            var asked := (frame.dst == i.mac || frame.dst == BROADCAST) && frame.body.ARP? && frame.body.msg.Some?
                         && frame.body.msg.value.targetMac == EMPTY_ADDRESS && frame.body.msg.value.targetIp == i.ip;
            && (asked ==> |i'.framesOut| > |i.framesOut|
                          && var msg := frame.body.msg.value;
                             var reply := i'.framesOut[|i'.framesOut| - 1];
                             && reply.src == i.mac
                             && reply.dst == (if msg.senderMac == EMPTY_ADDRESS then BROADCAST else msg.senderMac)
                             && reply.body == ARP(Some(ArpMessage(Reply, i.mac, i.ip, msg.senderMac, msg.senderIp))))
            && (!asked ==> forall k :: |i.framesOut| <= k < |i'.framesOut| ==> i'.framesOut[k].body.IPv4?)
            && (forall k :: |i.framesOut| <= k < |i'.framesOut| - 1 ==> i'.framesOut[k].body.IPv4?)
  {
  }

  /** When a hop was first asked for: with the first datagram for it that found no fresh address. */
  function FirstAsk(mac: Mac, events: seq<Event>, hop: u32): Option<nat> {
    if events == [] then None
    else
      var front, e := events[..|events| - 1], events[|events| - 1];
      var before := FirstAsk(mac, front, hop);
      if before.Some? || !e.Submit? || e.hop != hop || FreshNow(mac, front, hop) then before else Some(Clock(front))
  }

  lemma StepAsks(h: History, e: Event, hop: u32)
    ensures var i, i' := h.iface, Step(h, e).iface;
            var first := hop !in i.arpSent && e.Submit? && e.hop == hop && !i.Live(hop);
            && (hop in i'.arpSent <==> hop in i.arpSent || first)
            && (hop in i'.arpSent ==> i'.arpSent[hop] == if first then i.now else i.arpSent[hop])
  {
  }

  lemma {:induction false} RemembersFirstAsk(mac: Mac, ip: u32, events: seq<Event>, hop: u32)
    ensures var i, first := Run(Fresh(mac, ip), events).iface, FirstAsk(mac, events, hop);
            (hop in i.arpSent <==> first.Some?) && (hop in i.arpSent ==> i.arpSent[hop] == first.value)
    decreases |events|
  {
    hide Step, FreshNow, Clock;
    if events != [] {
      var front, e := events[..|events| - 1], events[|events| - 1];
      assert events == front + [e];
      RemembersFirstAsk(mac, ip, front, hop);
      RunNext(Fresh(mac, ip), front, e);
      hide Run;
      StepAsks(Run(Fresh(mac, ip), front), e, hop);
      FreshExactly(mac, ip, front, hop);
      KnowsFirstHeard(mac, ip, front, hop);
    }
  }

  /** Over every run, what a datagram makes the interface send: a frame with it if the address is
      fresh, else a request if the hop was never asked for or first five seconds ago or more. */
  lemma SubmitSendsExactly(mac: Mac, ip: u32, events: seq<Event>, dgram: Datagram, hop: u32)
    ensures var i, ask := Run(Fresh(mac, ip), events).iface, FirstAsk(mac, events, hop);
            var asks := ask.None? || Clock(events) - ask.value >= 5000;
            i.SendDatagram(dgram, hop).framesOut == i.framesOut +
              (if FreshNow(mac, events, hop)
               then [Frame(FirstHeard(mac, events, hop).value.mac, i.mac, IPv4(Some(dgram)))]
               else if asks then [Frame(BROADCAST, i.mac, ARP(Some(ArpMessage(Request, i.mac, i.ip, EMPTY_ADDRESS, hop))))]
               else [])
  {
    hide Run, FirstHeard, Clock, FirstAsk, Interface.SendDatagram;
    FreshExactly(mac, ip, events, hop);
    KnowsFirstHeard(mac, ip, events, hop);
    RemembersFirstAsk(mac, ip, events, hop);
    RequestsExactly(Run(Fresh(mac, ip), events).iface, dgram, hop);
  }

  /** An interface asks for an address it has no fresh entry for, of everyone, under its own name. */
  lemma RequestsExactly(i: Interface, dgram: Datagram, hop: u32)
    ensures var i' := i.SendDatagram(dgram, hop);
            var asks := !i.Live(hop) && (hop !in i.arpSent || i.now - i.arpSent[hop] >= 5000);
            i'.framesOut == i.framesOut +
              (if i.Live(hop) then [Frame(i.mappings[hop].mac, i.mac, IPv4(Some(dgram)))]
               else if asks then [Frame(BROADCAST, i.mac, ARP(Some(ArpMessage(Request, i.mac, i.ip, EMPTY_ADDRESS, hop))))]
               else [])
  {
  }

  // ------------------------------------------------------------------ a resolution

  /** Two interfaces on one network: the request for an address, delivered, brings a reply,
      and that, delivered, releases everything that waited, in order, to the right address. */
  lemma ResolutionCompletes(a: Interface, b: Interface, dgram: Datagram)
    requires a.mac != b.mac && !a.Live(b.ip) && a.Asks(b.ip) && a.mac != EMPTY_ADDRESS
    ensures var a1 := a.SendDatagram(dgram, b.ip);
            var request := a1.framesOut[|a.framesOut|];
            var b1 := b.RecvFrame(request).0;
            && |b1.framesOut| > |b.framesOut|
            && var reply := b1.framesOut[|b1.framesOut| - 1];
               var a2 := a1.RecvFrame(reply).0;
               && a2.Queue(b.ip) == []
               && a2.framesOut == a1.framesOut + a.Flushed(b.mac, a.Queue(b.ip) + [dgram])
               && (b.ip !in a.mappings ==> a2.Live(b.ip) && a2.mappings[b.ip].mac == b.mac)
               && (a.ip !in b.mappings ==> b1.Live(a.ip) && b1.mappings[a.ip].mac == a.mac)
  {
  }

  // ------------------------------------------------------------------ the program

  class NetworkInterface {
    const mac: Mac
    const ip: u32
    var framesOut: seq<Frame>
    var mappings: map<u32, Mapping>
    var arpSent: map<u32, nat>
    var waiting: map<u32, seq<Datagram>>
    var now: nat

    ghost function View(): Interface
      reads this
    {
      Interface(mac, ip, framesOut, mappings, arpSent, waiting, now)
    }

    constructor (mac: Mac, ip: u32)
      ensures View() == Fresh(mac, ip).iface
    {
      this.mac, this.ip := mac, ip;
      framesOut, mappings, arpSent, waiting, now := [], map[], map[], map[], 0;
    }

    function GenerateIpFrame(dst: Mac, dgram: Datagram): (frame: Frame)
      reads this
      ensures frame == View().IpFrame(dst, dgram)
    {
      Frame(dst, mac, IPv4(Some(dgram)))
    }

    function GenerateArpFrame(dst: Mac, target: u32, opcode: Opcode): (frame: Frame)
      reads this
      ensures frame == View().ArpFrame(dst, target, opcode)
    {
      Frame(if dst == EMPTY_ADDRESS then BROADCAST else dst, mac, ARP(Some(ArpMessage(opcode, mac, ip, dst, target))))
    }

    method SendDatagram(dgram: Datagram, nextHop: u32)
      modifies this
      ensures View() == old(View()).SendDatagram(dgram, nextHop)
    {
      // a fresh address: nothing to resolve
      if nextHop in mappings && now - mappings[nextHop].at < 30000 {
        framesOut := framesOut + [GenerateIpFrame(mappings[nextHop].mac, dgram)];
        return;
      }
      // ask for the address; only the first request is put on record
      if nextHop !in arpSent || now - arpSent[nextHop] >= 5000 {
        framesOut := framesOut + [GenerateArpFrame(EMPTY_ADDRESS, nextHop, Request)];
        if nextHop !in arpSent {
          arpSent := arpSent[nextHop := now];
        }
      }
      waiting := waiting[nextHop := (if nextHop in waiting then waiting[nextHop] else []) + [dgram]];
    }

    method RecvFrame(frame: Frame) returns (received: Option<Datagram>)
      modifies this
      ensures (View(), received) == old(View()).RecvFrame(frame)
      ensures received.Some? <==>
                (frame.dst == mac || frame.dst == BROADCAST) && frame.body.IPv4? && frame.body.dgram.Some?
      ensures received.Some? ==> received == frame.body.dgram
    {
      if frame.dst != mac && frame.dst != BROADCAST {
        return None;
      }
      match frame.body {
        case IPv4(dgram) =>
          return dgram;
        case ARP(Some(msg)) =>
          Learn(msg);
          if msg.targetMac == EMPTY_ADDRESS && msg.targetIp == ip {
            framesOut := framesOut + [GenerateArpFrame(msg.senderMac, msg.senderIp, Reply)];
          }
          return None;
        case _ =>
          return None;
      }
    }

    /** Records the sender's address, unless one is known, and sends what waited for it. */
    method Learn(msg: ArpMessage)
      modifies this
      ensures View() == old(View()).Learn(msg)
    {
      if msg.senderIp !in mappings {
        mappings := mappings[msg.senderIp := Mapping(msg.senderMac, now)];
      }
      if msg.senderIp in waiting {
        var queue := waiting[msg.senderIp];
        ghost var learnt := View();
        for k := 0 to |queue|
          invariant framesOut == old(framesOut) + old(View()).Flushed(msg.senderMac, queue[..k])
          invariant View() == learnt.(framesOut := framesOut)
        {
          framesOut := framesOut + [GenerateIpFrame(msg.senderMac, queue[k])];
        }
        assert queue[..|queue|] == queue;
        waiting := waiting - {msg.senderIp};
      } else {
        assert waiting - {msg.senderIp} == waiting && old(View()).Flushed(msg.senderMac, []) == [];
      }
    }

    method Tick(msSinceLastTick: nat)
      modifies this
      ensures View() == old(View()).Tick(msSinceLastTick)
    {
      now := now + msSinceLastTick;
    }
  }
}
