/** The flow-controlled in-memory byte stream and the ring buffer under it. */
module ByteStreams {
  import opened MachineIntegers

  /**
   What a byte stream is to its users: a bounded FIFO. `written` is every byte the
   stream ever accepted, of which the first `popped` have left on the output side.
   */
  datatype Fifo = Fifo(capacity: nat, written: seq<byte>, popped: nat, ended: bool, error: bool) {

    predicate Valid() {
      0 < capacity && popped <= |written| <= popped + capacity
    }

    function Buffered(): seq<byte>
      requires Valid()
    {
      written[popped..]
    }

    function BufferSize(): nat
      requires Valid()
    {
      |written| - popped
    }

    function RemainingCapacity(): nat
      requires Valid()
    {
      capacity - BufferSize()
    }

    function Write(data: seq<byte>): Fifo
      requires Valid()
    {
      this.(written := written + data[..Min(|data|, RemainingCapacity())])
    }

    function Pop(n: nat): Fifo
      requires Valid() && n <= BufferSize()
    {
      this.(popped := popped + n)
    }

    predicate Eof() {
      ended && popped == |written|
    }
  }

  // ------------------------------------------------------------------ any run of a stream

  datatype StreamOp = Write(data: seq<byte>) | Read(n: nat) | EndInput

  predicate Legal(f: Fifo, ops: seq<StreamOp>)
    requires f.Valid()
    decreases |ops|
  {
    ops == [] ||
    ((ops[0].Read? ==> ops[0].n <= f.BufferSize()) && Legal(After(f, ops[0]), ops[1..]))
  }

  function After(f: Fifo, op: StreamOp): (f': Fifo)
    requires f.Valid() && (op.Read? ==> op.n <= f.BufferSize())
    ensures f'.Valid()
  {
    match op
    case Write(data) => f.Write(data)
    case Read(n) => f.Pop(n)
    case EndInput => f.(ended := true)
  }

  function Run(f: Fifo, ops: seq<StreamOp>): (f': Fifo)
    requires f.Valid() && Legal(f, ops)
    ensures f'.Valid()
    decreases |ops|
  {
    if ops == [] then f else Run(After(f, ops[0]), ops[1..])
  }

  /** The bytes one operation hands to the reader. */
  function ReadBy(f: Fifo, op: StreamOp): seq<byte>
    requires f.Valid() && (op.Read? ==> op.n <= f.BufferSize())
  {
    if op.Read? then f.Buffered()[..op.n] else []
  }

  /** The bytes of one operation that the writer is told were accepted. */
  function AcceptedBy(f: Fifo, op: StreamOp): seq<byte>
    requires f.Valid()
  {
    if op.Write? then op.data[..Min(|op.data|, f.RemainingCapacity())] else []
  }

  function BytesRead(f: Fifo, ops: seq<StreamOp>): seq<byte>
    requires f.Valid() && Legal(f, ops)
    decreases |ops|
  {
    if ops == [] then [] else ReadBy(f, ops[0]) + BytesRead(After(f, ops[0]), ops[1..])
  }

  function BytesAccepted(f: Fifo, ops: seq<StreamOp>): seq<byte>
    requires f.Valid() && Legal(f, ops)
    decreases |ops|
  {
    if ops == [] then [] else AcceptedBy(f, ops[0]) + BytesAccepted(After(f, ops[0]), ops[1..])
  }

  lemma AfterAdvances(f: Fifo, op: StreamOp)
    requires f.Valid() && (op.Read? ==> op.n <= f.BufferSize())
    ensures var f' := After(f, op);
            && f'.written == f.written + AcceptedBy(f, op)
            && f'.popped == f.popped + |ReadBy(f, op)|
            && ReadBy(f, op) == f.written[f.popped..f'.popped]
  {
  }

  /** A run appends the accepted bytes to the log and moves the read mark past the bytes read. */
  lemma {:induction false} RunAdvances(f: Fifo, ops: seq<StreamOp>)
    requires f.Valid() && Legal(f, ops)
    ensures var f' := Run(f, ops);
            && f'.written == f.written + BytesAccepted(f, ops)
            && f'.popped == f.popped + |BytesRead(f, ops)|
            && BytesRead(f, ops) == f'.written[f.popped..f'.popped]
    decreases |ops|
  {
    if ops != [] {
      hide After, ReadBy, AcceptedBy;
      var f1, f' := After(f, ops[0]), Run(f, ops);
      AfterAdvances(f, ops[0]);
      RunAdvances(f1, ops[1..]);
      Compose(f.written, AcceptedBy(f, ops[0]), BytesAccepted(f1, ops[1..]), f'.written,
              f.popped, f1.popped, f'.popped);
    }
  }

  lemma Compose(w: seq<byte>, a: seq<byte>, b: seq<byte>, w': seq<byte>, p: nat, q: nat, p': nat)
    requires w' == w + a + b && p <= q <= |w| && q <= p' <= |w'|
    ensures w' == w + (a + b) && w[p..q] + w'[q..p'] == w'[p..p']
  {
  }

  /** Nothing is lost, duplicated, reordered or invented. */
  lemma StreamConserves(f: Fifo, ops: seq<StreamOp>)
    requires f.Valid() && Legal(f, ops)
    ensures f.Buffered() + BytesAccepted(f, ops) == BytesRead(f, ops) + Run(f, ops).Buffered()
    ensures Run(f, ops).Eof() <==> Run(f, ops).ended && Run(f, ops).Buffered() == []
  {
    RunAdvances(f, ops);
    var f' := Run(f, ops);
    Compose(f.written, BytesAccepted(f, ops), [], f'.written, f.popped, |f.written|, |f'.written|);
    Compose(f'.written, [], [], f'.written, f.popped, f'.popped, |f'.written|);
  }

  // ------------------------------------------------------------------ the ring buffer

  lemma ModOnce(x: nat, m: nat)
    requires 0 < m && x < m + m
    ensures x % m == if x < m then x else x - m
  {
  }

  class RingBuffer {
    const capacity: nat
    const queue: array<byte>
    var front: nat
    var size: nat

    ghost predicate Valid()
      reads this
    {
      0 < capacity == queue.Length && front < capacity && size <= capacity
    }

    ghost function Contents(): (s: seq<byte>)
      requires Valid()
      reads this, queue
      ensures |s| == size
    {
      Window(queue[..], front, size)
    }

    constructor (k: nat)
      requires 0 < k
      ensures Valid() && capacity == k && Contents() == [] && fresh(queue)
    {
      capacity := k;
      queue := new byte[k](_ => 0);
      front, size := 0, 0;
    }

    /** Overwrites the stored characters from `start` on with `s`. */
    method Replace(start: nat, s: seq<byte>)
      requires Valid() && start + |s| <= capacity
      modifies queue
      ensures queue[..] == Overwrite(old(queue[..]), start, s)
    {
      forall i | 0 <= i < |s| {
        queue[start + i] := s[i];
      }
    }

    method PushBackN(s: seq<byte>, length: nat)
      requires Valid() && length <= |s| && length <= capacity - size
      modifies this`size, queue
      ensures Valid() && Contents() == old(Contents()) + s[..length]
    {
      ModOnce(front + size, capacity);
      var start := (front + size) % capacity;
      var lenToEnd := Min(length, capacity - start);
      WriteWraps(queue[..], front, size, s[..length], start, lenToEnd);
      assert s[..length][..lenToEnd] == s[..lenToEnd];
      assert s[..length][lenToEnd..] == s[lenToEnd..length];
      Replace(start, s[..lenToEnd]);
      Replace(0, s[lenToEnd..length]);
      size := size + length;
    }

    method PopFrontN(n: nat)
      requires Valid() && n <= size
      modifies this
      ensures Valid() && Contents() == old(Contents())[n..]
    {
      ModOnce(front + n, capacity);
      front := (front + n) % capacity;
      size := size - n;
    }

    method PeekFrontN(length: nat) returns (s: seq<byte>)
      requires Valid() && length <= size
      ensures s == Contents()[..length]
    {
      var lenToEnd := Min(length, capacity - front);
      s := queue[front..front + lenToEnd];
      s := s + queue[..length - lenToEnd];
    }
  }

  /** The `n` characters of a ring `q` that start at `front`. */
  ghost function Window(q: seq<byte>, front: nat, n: nat): (w: seq<byte>)
    requires front < |q| && n <= |q|
    ensures |w| == n
  {
    seq(n, i requires 0 <= i < n => q[if front + i < |q| then front + i else front + i - |q|])
  }

  ghost function Overwrite(q: seq<byte>, start: nat, s: seq<byte>): (q': seq<byte>)
    requires start + |s| <= |q|
    ensures |q'| == |q|
  {
    seq(|q|, i requires 0 <= i < |q| => if start <= i < start + |s| then s[i - start] else q[i])
  }

  /** The two overwrites of a push append to the window, also across the end of the ring. */
  lemma WriteWraps(q: seq<byte>, front: nat, size: nat, s: seq<byte>, start: nat, toEnd: nat)
    requires front < |q| && size + |s| <= |q|
    requires start == if front + size < |q| then front + size else front + size - |q|
    requires toEnd == Min(|s|, |q| - start)
    ensures var q' := Overwrite(Overwrite(q, start, s[..toEnd]), 0, s[toEnd..]);
            Window(q', front, size + |s|) == Window(q, front, size) + s
  {
  }

  class ByteStream {
    const rb: RingBuffer
    var totalRead: nat
    var totalWrite: nat
    var error: bool
    var eofInput: bool
    ghost var written: seq<byte>

    ghost function Footprint(): set<object> {
      {this, rb, rb.queue}
    }

    ghost predicate Valid()
      reads Footprint()
    {
      && rb.Valid()
      && totalRead <= totalWrite == |written|
      && rb.Contents() == written[totalRead..]
    }

    ghost function View(): (f: Fifo)
      requires Valid()
      reads Footprint()
      ensures f.Valid()
    {
      assert |rb.Contents()| == rb.size;
      Fifo(rb.capacity, written, totalRead, eofInput, error)
    }

    constructor (capacity: nat)
      requires 0 < capacity
      ensures Valid() && fresh(rb) && fresh(rb.queue)
      ensures View() == Fifo(capacity, [], 0, false, false)
    {
      rb := new RingBuffer(capacity);
      totalRead, totalWrite := 0, 0;
      error, eofInput := false, false;
      written := [];
    }

    method Write(data: seq<byte>) returns (size: nat)
      requires Valid()
      modifies Footprint()
      ensures Valid() && View() == old(View()).Write(data)
      ensures size == Min(|data|, old(View()).RemainingCapacity())
    {
      size := Min(|data|, rb.capacity - rb.size);
      rb.PushBackN(data, size);
      totalWrite := totalWrite + size;
      written := written + data[..size];
    }

    method PeekOutput(len: nat) returns (s: seq<byte>)
      requires Valid() && len <= View().BufferSize()
      ensures s == View().Buffered()[..len]
    {
      s := rb.PeekFrontN(len);
    }

    method PopOutput(len: nat)
      requires Valid() && len <= View().BufferSize()
      modifies Footprint()
      ensures Valid() && View() == old(View()).Pop(len)
    {
      rb.PopFrontN(len);
      totalRead := totalRead + len;
    }

    method Read(len: nat) returns (ans: seq<byte>)
      requires Valid() && len <= View().BufferSize()
      modifies Footprint()
      ensures Valid() && View() == old(View()).Pop(len)
      ensures ans == old(View()).Buffered()[..len]
    {
      ans := PeekOutput(len);
      PopOutput(len);
    }

    method EndInput()
      requires Valid()
      modifies this
      ensures Valid() && View() == old(View()).(ended := true)
    {
      eofInput := true;
    }

    method SetError()
      requires Valid()
      modifies this
      ensures Valid() && View() == old(View()).(error := true)
    {
      error := true;
    }

    function BufferSize(): (n: nat)
      requires Valid()
      reads Footprint()
      ensures n == View().BufferSize()
    {
      assert |rb.Contents()| == rb.size;
      rb.size
    }

    function RemainingCapacity(): (n: nat)
      requires Valid()
      reads Footprint()
      ensures n == View().RemainingCapacity()
    {
      assert |rb.Contents()| == rb.size;
      rb.capacity - rb.size
    }

    predicate Eof()
      requires Valid()
      reads Footprint()
      ensures Eof() <==> View().ended && View().Buffered() == []
    {
      eofInput && totalRead == totalWrite
    }
  }
}
