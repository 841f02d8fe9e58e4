/** The receiving half of a TCP endpoint. */
module Receiving {
  import opened MachineIntegers
  import opened WrappingIntegers
  import opened ByteStreams
  import opened Options
  import opened Runs
  import opened Reassembly
  import opened StreamReassemblers
  import opened TcpSegments

  datatype Receiver = Receiver(
    reassembler: Reassembler, isn: u32, ackno: nat, hasIsn: bool, hasFin: bool, sentFin: bool) {

    function Out(): Fifo { reassembler.out }

    /** The acknowledgment number is one past everything assembled, SYN and FIN included. */
    ghost predicate Valid() {
      && reassembler.Valid()
      && ackno == 1 + |Out().written| + (if Out().ended then 1 else 0)
      && sentFin == Out().ended
      && (reassembler.eof ==> hasFin)
      && (!hasIsn ==> reassembler.runs == [] && Out().written == [] && !reassembler.eof)
    }

    /** The absolute sequence number of the first payload byte, as the receiver decodes it. */
    function Position(header: TcpHeader): u64 {
      if header.syn then Unwrap(U32(header.seqno + 1), header.seqno, U64(ackno))
      else Unwrap(header.seqno, isn, U64(ackno))
    }

    function SegmentReceived(seg: TcpSegment): Receiver
      requires Valid()
    {
      var header := seg.header;
      if !hasIsn && !header.syn then this
      else
        var re := reassembler.Push(seg.payload, U64(Position(header) - 1), header.fin);
        PushKeepsValid(reassembler, seg.payload, U64(Position(header) - 1), header.fin);
        PushAppends(reassembler, seg.payload, U64(Position(header) - 1), header.fin);
        var fin := hasFin || (header.fin && !sentFin);
        var finished := fin && !sentFin && re.out.ended;
        Receiver(re, if header.syn then header.seqno else isn,
                 ackno + (re.out.BufferSize() - Out().BufferSize()) + (if finished then 1 else 0),
                 true, fin, sentFin || finished)
    }

    function Ackno(): Option<u32> {
      if hasIsn then Some(Wrap(ackno, isn)) else None
    }

    function WindowSize(): nat
      requires Out().Valid()
    {
      Out().RemainingCapacity()
    }

    /** The application takes `n` bytes from the inbound stream. */
    function Read(n: nat): Receiver
      requires Out().Valid() && n <= Out().BufferSize()
    {
      this.(reassembler := reassembler.(out := Out().Pop(n)))
    }

    function WithError(): Receiver {
      this.(reassembler := reassembler.(out := Out().(error := true)))
    }
  }

  function NewReceiver(capacity: nat): Receiver {
    Receiver(Reassembler(Fifo(capacity, [], 0, false, false), [], 0, 0, false), 0, 1, false, false, false)
  }

  /** A push only appends to the output, and ends it only at the announced length. */
  lemma PushAppends(r: Reassembler, data: seq<byte>, index: u64, fin: bool)
    requires r.Valid()
    ensures var r' := r.Push(data, index, fin);
            && r'.out.(written := r.out.written, ended := r.out.ended) == r.out
            && r.out.written <= r'.out.written
            && (r.out.ended ==> r'.out.ended)
            && r'.out.Valid() && r.out.BufferSize() <= r'.out.BufferSize()
            && r'.eof == (r.eof || fin)
  {
    hide Reassembler.Assemble, Reassembler.Output, Sorted, EndBy;
    AssembleKeeps(r, data, index);
    OutputKeeps(r.Assemble(data, index));
  }

  lemma ReceivedKeepsValid(r: Receiver, seg: TcpSegment)
    requires r.Valid()
    ensures r.SegmentReceived(seg).Valid()
  {
    hide Unwrap, Sorted, EndBy, Reassembler.Push;
    var index := U64(r.Position(seg.header) - 1);
    PushKeepsValid(r.reassembler, seg.payload, index, seg.header.fin);
    PushAppends(r.reassembler, seg.payload, index, seg.header.fin);
  }

  lemma ReadKeepsValid(r: Receiver, n: nat)
    requires r.Valid() && n <= r.Out().BufferSize()
    ensures r.Read(n).Valid()
  {
  }

  // ------------------------------------------------------------------ any segment at all

  /** The position of a segment's first byte, whoever sent it: a SYN counts from its own sequence
      number, any other from that of the last SYN; and of the positions with its sequence number
      it is the one nearest to the acknowledgment, of two the upper. */
  lemma PositionIsNearest(r: Receiver, header: TcpHeader, x: u64)
    requires r.ackno < 0x1_0000_0000_0000_0000
    requires if header.syn then Wrap(x, header.seqno) == U32(header.seqno + 1) else Wrap(x, r.isn) == header.seqno
    ensures var pos := r.Position(header);
            && (if header.syn then Wrap(pos, header.seqno) == U32(header.seqno + 1) else Wrap(pos, r.isn) == header.seqno)
            && (x != pos ==> Distance(pos, r.ackno) < Distance(x, r.ackno)
                             || (Distance(pos, r.ackno) == Distance(x, r.ackno) && x < pos))
  {
    hide Unwrap, Wrap, U32, U64;
    U64Same(r.ackno);
    if header.syn {
      UnwrapIsNearest(U32(header.seqno + 1), header.seqno, r.ackno, x);
    } else {
      UnwrapIsNearest(header.seqno, r.isn, r.ackno, x);
    }
  }

  /** What a receiver knows after any segment: before a SYN nothing changes; after it, the old
      bytes and those of the payload that lie in the window, from the segment's position on. */
  lemma ReceivesExactly(r: Receiver, seg: TcpSegment, i: int)
    requires r.Valid() && U64(r.Position(seg.header) - 1) + |seg.payload| < 0x1_0000_0000_0000_0000
    ensures var r', re := r.SegmentReceived(seg), r.reassembler;
            var first := U64(r.Position(seg.header) - 1);
            && (!r.hasIsn && !seg.header.syn ==> r' == r)
            && (r.hasIsn || seg.header.syn ==>
                  && (r'.reassembler.Known(i).Some? <==>
                        re.Known(i).Some? || (first <= i < first + |seg.payload| && re.next <= i < re.Upper()))
                  && (re.Known(i).None? && r'.reassembler.Known(i).Some? ==>
                        r'.reassembler.Known(i) == Some(seg.payload[i - first]))
                  && r'.reassembler.eof == (re.eof || seg.header.fin)
                  && r'.reassembler.eofNum == if seg.header.fin then first + |seg.payload| else re.eofNum)
  {
    hide Unwrap, Reassembler.Push, Reassembler.Known, Reassembler.Upper, Kept, Receiver.Position, Reassembler.Clip;
    var first := U64(r.Position(seg.header) - 1);
    hide U64;
    U64Same(first + |seg.payload|);
    PushAppends(r.reassembler, seg.payload, first, seg.header.fin);
    PushEnds(r.reassembler, seg.payload, first, seg.header.fin);
    PushIsUnion(r.reassembler, seg.payload, first, seg.header.fin, i);
    ClipExact(r.reassembler, seg.payload, first, i);
  }

  // ------------------------------------------------------------------ the advertised window

  /** The first sequence number beyond the advertised window. */
  ghost function RightEdge(r: Receiver): nat
    requires r.Valid()
  {
    r.ackno + r.WindowSize()
  }

  /** Until the FIN is assembled, the window advertised ends where acceptance ends. */
  lemma EdgeIsAcceptanceLimit(r: Receiver)
    requires r.Valid()
    ensures RightEdge(r) == r.reassembler.Upper() + 1 + (if r.Out().ended then 1 else 0)
  {
  }

  /** Whatever arrives and however much is read, the right edge never moves left. */
  lemma EdgeNeverMovesLeft(r: Receiver, seg: TcpSegment, n: nat)
    requires r.Valid()
    ensures r.SegmentReceived(seg).Valid() && RightEdge(r) <= RightEdge(r.SegmentReceived(seg))
    ensures r.ackno <= r.SegmentReceived(seg).ackno
    ensures n <= r.Out().BufferSize() ==> r.Read(n).Valid() && RightEdge(r.Read(n)) == RightEdge(r) + n
  {
    hide Unwrap, Sorted, EndBy, Reassembler.Push;
    ReceivedKeepsValid(r, seg);
    PushAppends(r.reassembler, seg.payload, U64(r.Position(seg.header) - 1), seg.header.fin);
    if n <= r.Out().BufferSize() {
      ReadKeepsValid(r, n);
    }
  }

  class TCPReceiver {
    const capacity: nat
    const reassembler: StreamReassembler
    var isn: u32
    var ackno: nat
    var hasIsn: bool
    var hasFin: bool
    var sentFin: bool

    ghost function Footprint(): set<object> {
      {this} + reassembler.Footprint()
    }

    ghost function View(): Receiver
      requires reassembler.output.Valid()
      reads this, reassembler, reassembler.output.Footprint()
    {
      Receiver(reassembler.View(), isn, ackno, hasIsn, hasFin, sentFin)
    }

    ghost predicate Valid()
      reads this, reassembler.Footprint()
      ensures Valid() ==> reassembler.output.Valid() && View().Valid()
    {
      && this !in reassembler.Footprint()
      && reassembler.Valid() && View().Valid() && capacity == reassembler.capacity
    }

    constructor (capacity: nat)
      requires 0 < capacity
      ensures Valid() && fresh(Footprint()) && View() == NewReceiver(capacity)
    {
      this.capacity := capacity;
      reassembler := new StreamReassembler(capacity);
      isn, ackno, hasIsn, hasFin, sentFin := 0, 1, false, false, false;
    }

    method SegmentReceived(seg: TcpSegment)
      requires Valid()
      modifies Footprint()
      ensures Valid() && View() == old(View()).SegmentReceived(seg)
    {
      hide Unwrap, Sorted, EndBy, Reassembler.Push;
      ghost var r := View();
      ReceivedKeepsValid(r, seg);
      var header := seg.header;
      if header.syn {
        isn := header.seqno;
        hasIsn := true;
      }
      if !hasIsn {
        return;
      }
      if header.fin && !sentFin {
        hasFin := true;
      }
      var start := if header.syn then Unwrap(U32(header.seqno + 1), isn, U64(ackno))
                   else Unwrap(header.seqno, isn, U64(ackno));
      assert start == r.Position(header);
      Deliver(seg.payload, U64(start - 1), header.fin);
      assert View().reassembler == r.SegmentReceived(seg).reassembler;
    }

    /** Hands the payload to the reassembler and acknowledges what that assembled. */
    method Deliver(payload: seq<byte>, index: u64, fin: bool)
      requires this !in reassembler.Footprint() && reassembler.Valid() && capacity == reassembler.capacity
      modifies Footprint()
      ensures reassembler.Valid() && reassembler.View() == old(reassembler.View()).Push(payload, index, fin)
      ensures var out, out' := old(reassembler.View()).out, reassembler.View().out;
              var finished := hasFin && !old(sentFin) && out'.ended;
              && out.BufferSize() <= out'.BufferSize()
              && ackno == old(ackno) + (out'.BufferSize() - out.BufferSize()) + (if finished then 1 else 0)
              && sentFin == (old(sentFin) || finished)
      ensures (isn, hasIsn, hasFin) == old((isn, hasIsn, hasFin))
    {
      hide Sorted, EndBy, Reassembler.Push;
      var beforeAssemble := reassembler.output.BufferSize();
      PushAppends(reassembler.View(), payload, index, fin);
      reassembler.PushSubstring(payload, index, fin);
      ackno := ackno + (reassembler.output.BufferSize() - beforeAssemble);
      if hasFin && !sentFin && reassembler.output.eofInput {
        ackno := ackno + 1;
        sentFin := true;
      }
    }

    /** The application takes bytes from the inbound stream. */
    method Read(n: nat) returns (bytes: seq<byte>)
      requires Valid() && n <= View().Out().BufferSize()
      modifies reassembler.output.Footprint()
      ensures Valid() && View() == old(View()).Read(n) && bytes == old(View()).Out().Buffered()[..n]
    {
      hide Sorted, EndBy, Total, ByteStream.Valid, Reassembler.Valid;
      ReadKeepsValid(View(), n);
      bytes := reassembler.output.Read(n);
    }

    /** Marks the inbound stream as broken. */
    method SetError()
      requires Valid()
      modifies reassembler.output
      ensures Valid() && View() == old(View()).WithError()
    {
      hide Sorted;
      reassembler.output.SetError();
    }

    function Ackno(): (a: Option<u32>)
      reads this
    {
      if hasIsn then Some(Wrap(ackno, isn)) else None
    }

    function WindowSize(): (n: nat)
      requires Valid()
      reads this, reassembler.Footprint()
      ensures hasIsn && !View().Out().ended ==> ackno + n == View().reassembler.Upper() + 1
      ensures n == View().WindowSize()
    {
      capacity - reassembler.output.BufferSize()
    }
  }
}
