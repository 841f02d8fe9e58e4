/**
 The sending half of a TCP endpoint: segmentation, flow control, cumulative
 acknowledgment and retransmission with backoff (section 5 of RFC 6298).
 */
module Sending {
  import opened MachineIntegers
  import opened WrappingIntegers
  import opened ByteStreams
  import opened TcpSegments

  /** The retransmission timer. `sinceReset` is bookkeeping: the time that has passed
      since the timeout was last set back to its initial value. */
  datatype Timer = Timer(initialRto: nat, rto: nat, waited: nat, running: bool, sinceReset: nat) {
    function Reset(): Timer { this.(rto := initialRto, sinceReset := 0) }
    function Twice(): Timer { this.(rto := rto * 2) }
    function Start(): Timer { this.(running := true, waited := 0) }
    function Stop(): Timer { this.(running := false) }
    function Tick(ms: nat): Timer { this.(waited := waited + ms, sinceReset := sinceReset + ms) }
    predicate Expired() { running && rto <= waited }
  }

  /** A segment and the absolute sequence number it was cut at. */
  datatype Outgoing = Outgoing(pos: nat, seg: TcpSegment) {
    function End(): nat { pos + seg.Length() }
  }

  datatype Sender = Sender(
    isn: u32, segmentsOut: seq<Outgoing>, outstanding: seq<Outgoing>, timer: Timer,
    retransmissions: nat, stream: Fifo, nextSeqno: nat, acked: nat, window: u16, sentFin: bool) {

    function BytesInFlight(): int { nextSeqno - acked }

    /** The first sequence number beyond the window; a zero window counts as one. */
    function Right(): nat { acked + Max(1, window) }

    // ---------------------------------------------------------------- cutting one segment

    /** What the window leaves for payload and FIN of the next segment. */
    function Room(): nat
      requires acked <= nextSeqno < Right()
    {
      Right() - nextSeqno - (if nextSeqno == 0 then 1 else 0)
    }

    /** Whether the next segment carries the FIN. The subtraction wraps when a SYN
        has used the whole window, and then only the payload limit counts. */
    predicate FinDue()
      requires stream.Valid() && acked <= nextSeqno < Right()
    {
      !sentFin && stream.ended && stream.BufferSize() <= Min(U64(Room() - 1), 1000)
    }

    function PayloadSize(): (n: nat)
      requires stream.Valid() && acked <= nextSeqno < Right()
    {
      Min(if FinDue() then U64(Room() - 1) else Room(), Min(stream.BufferSize(), 1000))
    }

    function NextSegment(): TcpSegment
      requires stream.Valid() && acked <= nextSeqno < Right()
    {
      TcpSegment(BLANK_HEADER.(seqno := Wrap(nextSeqno, isn), syn := nextSeqno == 0, fin := FinDue()),
                 stream.Buffered()[..PayloadSize()])
    }

    function AssembleSegment(): Sender
      requires stream.Valid() && acked <= nextSeqno < Right()
    {
      var seg := NextSegment();
      var s := this.(stream := stream.Pop(PayloadSize()), sentFin := sentFin || FinDue());
      if seg.Length() == 0 then s
      else s.(segmentsOut := segmentsOut + [Outgoing(nextSeqno, seg)],
              outstanding := outstanding + [Outgoing(nextSeqno, seg)],
              nextSeqno := nextSeqno + seg.Length())
    }

    /** Cuts segments until the window is full or the stream is drained. */
    function Cut(): Sender
      requires stream.Valid() && acked <= nextSeqno
      decreases Right() - nextSeqno
    {
      if nextSeqno >= Right() then this
      else
        CutFacts(this);
        var s := AssembleSegment();
        if s.stream.BufferSize() == 0 then s else s.Cut()
    }

    function FillWindow(): Sender
      requires stream.Valid() && acked <= nextSeqno
    {
      var s := Cut();
      if !s.timer.running && s.outstanding != [] then s.(timer := s.timer.Reset().Start()) else s
    }

    // ---------------------------------------------------------------- acknowledgments and time

    function ClearBuffer(): Sender {
      var s := this.(outstanding := DropAcked(outstanding, acked));
      if s.outstanding == [] then s.(timer := timer.Stop()) else s
    }

    function AckReceived(ackno: u32, win: u16): Sender {
      var absAckno := Unwrap(ackno, isn, U64(acked));
      if absAckno > nextSeqno then this
      else
        var s := if absAckno > acked
                 then this.(acked := absAckno, retransmissions := 0, timer := timer.Reset().Start()) else this;
        s.(window := win).ClearBuffer()
    }

    function Retransmit(): Sender
      requires outstanding != []
    {
      var s := if window != 0 then this.(timer := timer.Twice(), retransmissions := retransmissions + 1) else this;
      s.(timer := s.timer.Start(), segmentsOut := segmentsOut + [outstanding[0]])
    }

    function Tick(ms: nat): Sender
      requires timer.running ==> outstanding != []
    {
      var s := this.(timer := timer.Tick(ms));
      if s.timer.Expired() then s.Retransmit() else s
    }

    function SendEmpty(): Sender {
      this.(segmentsOut := segmentsOut
                           + [Outgoing(nextSeqno, TcpSegment(BLANK_HEADER.(seqno := Wrap(nextSeqno, isn)), []))])
    }

    // ---------------------------------------------------------------- what always holds

    /** The bytes sent so far, SYN and FIN are what the sequence numbers count. */
    ghost predicate Accounted() {
      && stream.Valid() && acked <= nextSeqno
      && nextSeqno == (if nextSeqno == 0 then 0 else 1) + stream.popped + (if sentFin then 1 else 0)
      && (nextSeqno == 0 ==> stream.popped == 0 && !sentFin)
      && (sentFin ==> stream.Eof())
      && BytesInFlight() <= 65535
    }

    /** The outstanding segments tile the unacknowledged sequence numbers. */
    ghost predicate Tiled() {
      if outstanding == [] then acked == nextSeqno
      else outstanding[0].pos <= acked < outstanding[0].End() && Chain(outstanding[0].pos, outstanding, nextSeqno)
    }

    ghost predicate AllCut() {
      && (forall o :: o in outstanding ==> CutFrom(o, this) && Plain(o))
      && (forall o :: o in segmentsOut ==> CutFrom(o, this) && !o.seg.header.ack)
    }

    ghost predicate BackedOff() {
      && (!timer.running ==> retransmissions == 0)
      && (timer.running ==> timer.rto == Backoff(timer.initialRto, retransmissions)
                            && Waits(timer.initialRto, retransmissions) + timer.waited <= timer.sinceReset)
    }

    ghost predicate Valid() {
      && Accounted() && Tiled() && AllCut() && BackedOff()
      && (timer.running <==> outstanding != [])
    }

    /** Nothing more could be sent: the window is full, or the stream and any due FIN are out. */
    ghost predicate Filled() {
      nextSeqno >= Right() || (stream.popped == |stream.written| && (stream.ended ==> sentFin))
    }
  }

  function NewSender(capacity: nat, rto: u16, isn: u32): Sender {
    Sender(isn, [], [], Timer(rto, 0, 0, false, 0), 0, Fifo(capacity, [], 0, false, false), 0, 0, 1, false)
  }

  function DropAcked(q: seq<Outgoing>, acked: nat): seq<Outgoing> {
    if q == [] || q[0].End() > acked then q else DropAcked(q[1..], acked)
  }

  /** Consecutive segments without gap or overlap from `pos` to `end`. */
  ghost predicate Chain(pos: nat, q: seq<Outgoing>, end: nat)
    decreases |q|
  {
    if q == [] then pos == end
    else q[0].pos == pos && 0 < q[0].seg.Length() && Chain(q[0].End(), q[1..], end)
  }

  /** A segment says what the sender's stream says at that position; it has the SYN
      exactly at position zero and the FIN only at the end of an ended stream. */
  ghost predicate CutFrom(o: Outgoing, s: Sender) {
    var header, first := o.seg.header, if o.pos == 0 then 0 else o.pos - 1;
    && header.seqno == Wrap(o.pos, s.isn)
    && o.End() <= s.nextSeqno
    && (header.syn ==> o.pos == 0)
    && (0 < o.seg.Length() ==>
          && (o.pos == 0 ==> header.syn)
          && first + |o.seg.payload| <= s.stream.popped <= |s.stream.written|
          && o.seg.payload == s.stream.written[first..first + |o.seg.payload|])
    && (header.fin ==> s.sentFin && first + |o.seg.payload| == |s.stream.written|)
  }

  /** A segment as it is cut: without the flags that are filled in later, and with a payload
      of at most the maximum size. */
  predicate Plain(o: Outgoing) {
    var h := o.seg.header;
    h == BLANK_HEADER.(seqno := h.seqno, syn := h.syn, fin := h.fin) && |o.seg.payload| <= 1000
  }

  /** The timeout after `k` doublings, and the time that many expirations take. */
  ghost function Backoff(rto: nat, k: nat): nat {
    if k == 0 then rto else 2 * Backoff(rto, k - 1)
  }

  ghost function Waits(rto: nat, k: nat): nat {
    if k == 0 then 0 else Waits(rto, k - 1) + Backoff(rto, k - 1)
  }

  lemma {:induction false} BackoffLaw(rto: nat, k: nat)
    ensures Backoff(rto, k) == rto * Pow2(k)
    ensures Waits(rto, k) == rto * (Pow2(k) - 1)
  {
    if k > 0 {
      BackoffLaw(rto, k - 1);
    }
  }

  // ------------------------------------------------------------------ one cut

  lemma CutFacts(s: Sender)
    requires s.stream.Valid() && s.acked <= s.nextSeqno < s.Right()
    ensures s.PayloadSize() <= s.stream.BufferSize() && |s.NextSegment().payload| == s.PayloadSize() <= 1000
    ensures s.FinDue() ==> s.PayloadSize() == s.stream.BufferSize()
    ensures s.NextSegment().Length() == 0 ==> s.stream.BufferSize() == 0
    ensures s.PayloadSize() == s.stream.BufferSize() && s.stream.ended && !s.sentFin && !s.FinDue()
            ==> s.nextSeqno + s.NextSegment().Length() == s.Right()
    ensures s.PayloadSize() < Min(s.stream.BufferSize(), 1000) ==> s.nextSeqno + s.NextSegment().Length() == s.Right()
  {
  }

  /** A cut stays inside the window, except that a SYN which uses up a window of at
      most one takes a short stream that has already ended along beyond it. */
  lemma CutWithinWindow(s: Sender)
    requires s.Accounted() && s.nextSeqno < s.Right()
    ensures s.nextSeqno + s.NextSegment().Length() <= s.Right() <==>
            !(s.nextSeqno == 0 && s.window <= 1 && s.stream.ended && s.stream.BufferSize() <= 1000)
    ensures s.nextSeqno + s.NextSegment().Length() <= Max(s.Right(), 1002)
  {
  }

  lemma {:induction false} ChainAppend(pos: nat, q: seq<Outgoing>, end: nat, o: Outgoing)
    requires Chain(pos, q, end) && o.pos == end && 0 < o.seg.Length()
    ensures Chain(pos, q + [o], o.End())
    decreases |q|
  {
    if q != [] {
      ChainAppend(q[0].End(), q[1..], end, o);
      assert (q + [o])[1..] == q[1..] + [o];
    }
  }

  lemma {:induction false} ChainAdvances(pos: nat, q: seq<Outgoing>, end: nat)
    requires Chain(pos, q, end)
    ensures pos <= end
    decreases |q|
  {
    if q != [] {
      ChainAdvances(q[0].End(), q[1..], end);
    }
  }

  /** Nothing in flight, nothing outstanding and no timer running are the same thing. */
  lemma InFlightIffOutstanding(s: Sender)
    requires s.Valid()
    ensures 0 <= s.BytesInFlight() <= 65535
    ensures (s.BytesInFlight() == 0 <==> s.outstanding == []) && (s.timer.running <==> s.outstanding != [])
  {
    if s.outstanding != [] {
      ChainAdvances(s.outstanding[0].End(), s.outstanding[1..], s.nextSeqno);
    }
  }

  /** How a sender may change over time: it never takes anything back. */
  ghost predicate Extends(s: Sender, s': Sender) {
    && s'.isn == s.isn && s.nextSeqno <= s'.nextSeqno && s.acked <= s'.acked
    && s.stream.written <= s'.stream.written && s.stream.popped <= s'.stream.popped
    && (s.stream.ended ==> s'.stream.ended && s'.stream.written == s.stream.written)
    && (s.sentFin ==> s'.sentFin && s'.nextSeqno == s.nextSeqno)
    && (s.stream.error ==> s'.stream.error)
    && s'.timer.initialRto == s.timer.initialRto
  }

  lemma CutStays(o: Outgoing, s: Sender, s': Sender)
    requires CutFrom(o, s) && Extends(s, s') && s'.stream.Valid() && (s.sentFin ==> s.stream.ended)
    ensures CutFrom(o, s')
  {
  }

  lemma AllCutStays(s: Sender, s': Sender)
    requires s.Accounted() && s.AllCut() && Extends(s, s') && s'.stream.Valid()
    requires forall o :: o in s'.outstanding ==> o in s.outstanding || (CutFrom(o, s') && Plain(o))
    requires forall o :: o in s'.segmentsOut ==>
               o in s.segmentsOut || o in s.outstanding || (CutFrom(o, s') && !o.seg.header.ack)
    ensures s'.AllCut()
  {
    hide CutFrom;
    forall o | o in s.outstanding || o in s.segmentsOut
      ensures CutFrom(o, s')
    {
      CutStays(o, s, s');
    }
  }

  /** The new segment carries the next bytes of the stream. */
  lemma CutIsFromStream(s: Sender)
    requires s.Accounted() && s.nextSeqno < s.Right()
    ensures var s', o := s.AssembleSegment(), Outgoing(s.nextSeqno, s.NextSegment());
            Extends(s, s') && s'.Accounted() && CutFrom(o, s') && Plain(o)
  {
    CutFacts(s);
    CutWithinWindow(s);
    assert s.sentFin ==> s.NextSegment().Length() == 0;
  }

  lemma CutOneKeeps(s: Sender)
    requires s.Accounted() && s.Tiled() && s.AllCut() && s.nextSeqno < s.Right()
    ensures var s' := s.AssembleSegment();
            && s'.Accounted() && s'.Tiled() && s'.AllCut() && Extends(s, s')
  {
    hide CutFrom, Sender.FinDue, Sender.PayloadSize;
    CutIsFromStream(s);
    var s', o := s.AssembleSegment(), Outgoing(s.nextSeqno, s.NextSegment());
    AllCutStays(s, s');
    if s.NextSegment().Length() > 0 {
      if s.outstanding == [] {
        assert s'.outstanding == [o] && [o][1..] == [];
        assert Chain(o.pos, [o], o.End());
      } else {
        ChainAppend(s.outstanding[0].pos, s.outstanding, s.nextSeqno, o);
      }
    }
  }

  // ------------------------------------------------------------------ filling the window

  /** The segment one cut yields, if it is not empty. */
  function OneCut(s: Sender): seq<Outgoing>
    requires s.stream.Valid() && s.acked <= s.nextSeqno < s.Right()
  {
    if s.NextSegment().Length() == 0 then [] else [Outgoing(s.nextSeqno, s.NextSegment())]
  }

  /** The segments that filling the window cuts, in order. */
  function Cuts(s: Sender): seq<Outgoing>
    requires s.stream.Valid() && s.acked <= s.nextSeqno
    decreases s.Right() - s.nextSeqno
  {
    if s.nextSeqno >= s.Right() then []
    else
      CutFacts(s);
      var s' := s.AssembleSegment();
      OneCut(s) + (if s'.stream.BufferSize() == 0 then [] else Cuts(s'))
  }

  /** What a cut leaves alone, and what it must have done when it drains the stream. */
  lemma AssembleFrame(s: Sender)
    requires s.Accounted() && s.nextSeqno < s.Right()
    ensures var s' := s.AssembleSegment();
            && s' == s.(segmentsOut := s'.segmentsOut, outstanding := s'.outstanding, sentFin := s'.sentFin,
                        stream := s.stream.(popped := s'.stream.popped), nextSeqno := s'.nextSeqno)
            && (s'.stream.BufferSize() == 0 ==> s'.Filled())
            && (s'.stream.BufferSize() > 0 ==> s.nextSeqno < s'.nextSeqno)
            && s'.nextSeqno > 0
            && s'.outstanding == s.outstanding + OneCut(s) && s'.segmentsOut == s.segmentsOut + OneCut(s)
  {
    CutFacts(s);
  }

  /** Filling the window keeps the invariants and ends with nothing left to send. */
  lemma {:induction false} CutKeeps(s: Sender)
    requires s.Accounted() && s.Tiled() && s.AllCut()
    ensures var s' := s.Cut();
            && s'.Accounted() && s'.Tiled() && s'.AllCut() && Extends(s, s') && s'.Filled() && s'.nextSeqno > 0
            && s' == s.(segmentsOut := s'.segmentsOut, outstanding := s'.outstanding, sentFin := s'.sentFin,
                        stream := s.stream.(popped := s'.stream.popped), nextSeqno := s'.nextSeqno)
    decreases s.Right() - s.nextSeqno
  {
    hide CutFrom, Chain, Sender.AssembleSegment, Sender.Tiled, Sender.AllCut;
    if s.nextSeqno < s.Right() {
      CutOneKeeps(s);
      AssembleFrame(s);
      if s.AssembleSegment().stream.BufferSize() > 0 {
        CutKeeps(s.AssembleSegment());
      }
    }
  }

  /** Every cut goes out and is kept for retransmission. */
  lemma {:induction false} CutAppends(s: Sender)
    requires s.Accounted()
    ensures s.Cut().outstanding == s.outstanding + Cuts(s)
    ensures s.Cut().segmentsOut == s.segmentsOut + Cuts(s)
    decreases s.Right() - s.nextSeqno
  {
    hide CutFrom, Sender.AssembleSegment, OneCut;
    if s.nextSeqno < s.Right() {
      CutIsFromStream(s);
      AssembleFrame(s);
      if s.AssembleSegment().stream.BufferSize() > 0 {
        CutAppends(s.AssembleSegment());
      }
    }
  }

  /** All cuts but a SYN on an ended stream stay inside the window. */
  lemma {:induction false} CutsInWindow(s: Sender, o: Outgoing)
    requires s.Accounted() && o in Cuts(s)
    ensures s.nextSeqno <= o.pos && 0 < o.seg.Length()
    ensures 0 < o.pos || !s.stream.ended ==> o.End() <= s.Right()
    decreases s.Right() - s.nextSeqno
  {
    hide CutFrom, Sender.AssembleSegment;
    CutIsFromStream(s);
    AssembleFrame(s);
    CutWithinWindow(s);
    if o !in OneCut(s) {
      CutsInWindow(s.AssembleSegment(), o);
    }
  }

  /** The FIN is cut at most once, last, and only when the stream has ended and is
      drained by it; after it nothing is cut. */
  lemma {:induction false} FinIsLast(s: Sender, k: nat)
    requires s.Accounted() && k < |Cuts(s)|
    ensures !s.sentFin
    ensures Cuts(s)[k].seg.header.fin ==> k == |Cuts(s)| - 1 && s.Cut().sentFin && s.Cut().stream.Eof()
    decreases s.Right() - s.nextSeqno
  {
    hide CutFrom;
    CutIsFromStream(s);
    CutFacts(s);
    var s' := s.AssembleSegment();
    if s'.stream.BufferSize() > 0 {
      assert OneCut(s) == [Outgoing(s.nextSeqno, s.NextSegment())] && !s'.sentFin;
      if k > 0 {
        FinIsLast(s', k - 1);
      }
    }
  }

  lemma FillWindowKeeps(s: Sender)
    requires s.Valid()
    ensures var s' := s.FillWindow();
            && s'.Valid() && Extends(s, s') && s'.Filled() && s'.nextSeqno > 0
            && s' == s.(segmentsOut := s'.segmentsOut, outstanding := s'.outstanding, sentFin := s'.sentFin,
                        stream := s.stream.(popped := s'.stream.popped), nextSeqno := s'.nextSeqno, timer := s'.timer)
            && s'.outstanding == s.outstanding + Cuts(s) && s'.segmentsOut == s.segmentsOut + Cuts(s)
            && (s.timer.running || s'.outstanding == [] ==> s'.timer == s.timer)
            && (!s.timer.running && s'.outstanding != [] ==>
                  s'.timer.running && s'.timer.waited == 0 && s'.timer.rto == s.timer.initialRto)
  {
    hide CutFrom, Sender.Cut, Chain, Sender.AllCut, Cuts;
    CutKeeps(s);
    CutAppends(s);
    AllCutStays(s.Cut(), s.FillWindow());
  }

  // ------------------------------------------------------------------ acknowledgments

  lemma {:induction false} DropTiles(q: seq<Outgoing>, acked: nat, end: nat)
    requires q != [] ==> q[0].pos <= acked && Chain(q[0].pos, q, end)
    requires q == [] ==> acked == end
    requires acked <= end
    ensures var q' := DropAcked(q, acked);
            && (q' == [] ==> acked == end)
            && (q' != [] ==> q'[0].pos <= acked < q'[0].End() && Chain(q'[0].pos, q', end))
            && (forall o :: o in q' ==> o in q)
            && (q != [] && acked < q[0].End() ==> q' == q)
    decreases |q|
  {
    if q != [] && q[0].End() <= acked {
      assert q[1..] != [] ==> q[1..][0].pos == q[0].End();
      DropTiles(q[1..], acked, end);
    }
  }

  lemma AckKeeps(s: Sender, ackno: u32, win: u16)
    requires s.Valid()
    ensures var s' := s.AckReceived(ackno, win);
            && s'.Valid() && Extends(s, s')
            && (s'.stream, s'.sentFin, s'.nextSeqno, s'.segmentsOut) == (s.stream, s.sentFin, s.nextSeqno, s.segmentsOut)
            && (s'.acked == s.acked || s'.acked == Unwrap(ackno, s.isn, U64(s.acked)))
  {
    hide CutFrom, Unwrap;
    var s' := s.AckReceived(ackno, win);
    DropTiles(s.outstanding, s'.acked, s.nextSeqno);
    AllCutStays(s, s');
  }

  lemma {:induction false} DropAckedExactly(q: seq<Outgoing>, pos: nat, end: nat, acked: nat, o: Outgoing)
    requires Chain(pos, q, end)
    ensures o in DropAcked(q, acked) <==> o in q && acked < o.End()
    decreases |q|
  {
    if q != [] {
      DropAckedExactly(q[1..], q[0].End(), end, acked, o);
      if q[0].End() > acked && o in q {
        ChainEndsAfter(pos, q, end, o);
      }
    }
  }

  lemma {:induction false} ChainEndsAfter(pos: nat, q: seq<Outgoing>, end: nat, o: Outgoing)
    requires Chain(pos, q, end) && o in q
    ensures q[0].End() <= o.End()
    decreases |q|
  {
    if o != q[0] {
      ChainEndsAfter(q[0].End(), q[1..], end, o);
    }
  }

  /** Acknowledgment is cumulative: one beyond what was sent changes nothing; any other
      advances the mark if it is ahead of it, sets the window even if it is not, drops
      exactly the segments that end at or below the mark, and if it was news restarts a
      timer that is still needed at the initial timeout. */
  lemma AckIsCumulative(s: Sender, ackno: u32, win: u16, o: Outgoing)
    requires s.Valid()
    ensures var a, s' := Unwrap(ackno, s.isn, U64(s.acked)), s.AckReceived(ackno, win);
            && (a > s.nextSeqno ==> s' == s)
            && (a <= s.nextSeqno ==>
                  && s'.acked == Max(s.acked, a) && s'.window == win
                  && (o in s'.outstanding <==> o in s.outstanding && s'.acked < o.End())
                  && (a > s.acked ==> s'.retransmissions == 0)
                  && (a > s.acked && s'.outstanding != [] ==> s'.timer == s.timer.Reset().Start())
                  && (a <= s.acked ==> s'.retransmissions == s.retransmissions && s'.timer == s.timer))
  {
    hide Unwrap, CutFrom;
    var s' := s.AckReceived(ackno, win);
    AckKeeps(s, ackno, win);
    DropTiles(s.outstanding, s'.acked, s.nextSeqno);
    if s.outstanding != [] {
      DropAckedExactly(s.outstanding, s.outstanding[0].pos, s.nextSeqno, s'.acked, o);
    }
  }

  // ------------------------------------------------------------------ time and the writer

  /** A tick retransmits exactly when the timeout has passed, and then the oldest
      unacknowledged segment; it backs off only if the window is open. Any other tick
      adds to the waiting time. */
  lemma TickRetransmits(s: Sender, ms: nat)
    requires s.Valid()
    ensures var s', expired := s.Tick(ms), s.timer.running && s.timer.rto <= s.timer.waited + ms;
            && (!expired ==> s'.segmentsOut == s.segmentsOut && s'.retransmissions == s.retransmissions)
            && (!expired ==> (s'.timer.running, s'.timer.rto, s'.timer.waited)
                             == (s.timer.running, s.timer.rto, s.timer.waited + ms))
            && (expired ==> exists o :: o in s.outstanding && o.pos <= s.acked < o.End()
                              && s'.segmentsOut == s.segmentsOut + [o])
            && (expired ==> s'.timer.waited == 0 && s'.timer.running)
            && (expired && s.window == 0 ==> (s'.timer.rto, s'.retransmissions) == (s.timer.rto, s.retransmissions))
            && (expired && s.window != 0 ==>
                  (s'.timer.rto, s'.retransmissions) == (2 * s.timer.rto, s.retransmissions + 1))
  {
  }

  lemma TickKeeps(s: Sender, ms: nat)
    requires s.Valid()
    ensures var s' := s.Tick(ms);
            && s'.Valid() && Extends(s, s')
            && (s'.stream, s'.sentFin, s'.nextSeqno, s'.acked, s'.window)
               == (s.stream, s.sentFin, s.nextSeqno, s.acked, s.window)
  {
    hide CutFrom, Chain;
    AllCutStays(s, s.Tick(ms));
  }

  lemma SendEmptyKeeps(s: Sender)
    requires s.Valid()
    ensures s.SendEmpty().Valid() && Extends(s, s.SendEmpty())
  {
  }

  /** Writing keeps the invariants if and only if it does not add bytes after the FIN was sent,
      which the stream itself does not prevent. */
  lemma WriteKeeps(s: Sender, data: seq<byte>)
    requires s.Valid()
    ensures var s' := s.(stream := s.stream.Write(data));
            && (s'.Valid() <==> s.sentFin ==> s'.stream == s.stream)
            && (!s.stream.ended ==> s'.Valid() && Extends(s, s'))
  {
    hide Chain;
    var s' := s.(stream := s.stream.Write(data));
    if !s.sentFin {
      forall o | CutFrom(o, s)
        ensures CutFrom(o, s')
      {
      }
    }
  }

  /** A bare sender takes a short stream that was ended before it sent anything along with its
      SYN, beyond the initial window of one. */
  lemma EndedEarlyOverruns(capacity: nat, rto: u16, isn: u32, data: seq<byte>)
    requires 0 < capacity && |data| <= Min(capacity, 1000)
    ensures var s := NewSender(capacity, rto, isn).(stream := Fifo(capacity, data, 0, true, false)).FillWindow();
            s.nextSeqno == |data| + 2 && s.Right() == 1 && |s.segmentsOut| == 1
  {
    var s := NewSender(capacity, rto, isn).(stream := Fifo(capacity, data, 0, true, false));
    CutFacts(s);
  }

  lemma EndKeeps(s: Sender)
    requires s.Valid()
    ensures var s' := s.(stream := s.stream.(ended := true));
            s'.Valid() && Extends(s, s')
  {
  }
}
