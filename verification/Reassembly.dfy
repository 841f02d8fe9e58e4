/**
 The stream reassembler: segments in any order, overlapping or not, become one
 in-order byte stream under a fixed capacity.
 */
module Reassembly {
  import opened MachineIntegers
  import opened ByteStreams
  import opened Options
  import opened Runs

  /**
   The state of a reassembler. The first index not yet assembled is `next`;
   `runs` are the bytes received beyond it.
   */
  datatype Reassembler = Reassembler(out: Fifo, runs: seq<Run>, next: nat, eofNum: nat, eof: bool) {

    /** The first index beyond the capacity. */
    function Upper(): nat
      requires out.Valid()
    {
      next + out.RemainingCapacity()
    }

    /** What holds between calls. `Sorted(next, runs)` includes that no run starts at `next`. */
    ghost predicate Valid() {
      && out.Valid()
      && next == |out.written|
      && Sorted(next, runs)
      && EndBy(runs, Upper())
      && (out.ended ==> eof)
      && (eof && eofNum == next ==> out.ended)
    }

    /** What holds inside a push: a run may start at `next`, and when the window is
        full that may be the empty run. */
    ghost predicate Assembled() {
      && out.Valid()
      && next == |out.written|
      && (Sorted(next - 1, runs) || runs == [Run(next, next, [])])
      && EndBy(runs, Upper())
      && (out.ended ==> eof)
    }

    /** Everything the reassembler knows about the stream: the byte at index `i`, if any. */
    function Known(i: int): Option<byte>
    {
      if 0 <= i < |out.written| then Some(out.written[i]) else At(runs, i)
    }

    /** Whether a segment has nothing for the window: empty, all old, or too far ahead. */
    predicate Rejects(data: seq<byte>, index: u64)
      requires out.Valid()
    {
      data == [] || next >= U64(index + |data|) || index >= Upper()
    }

    /** The part of a segment that is news and fits: its first index and its bytes. */
    function Clip(data: seq<byte>, index: u64): (nat, seq<byte>)
      requires out.Valid()
    {
      if Rejects(data, index) then (next, [])
      else
        var start := Max(next, index);
        var len := Min(|data| - (start - index), Upper() - start);
        (start, data[start - index..start - index + len])
    }

    function Assemble(data: seq<byte>, index: u64): Reassembler
      requires Valid()
    {
      var (start, bytes) := Clip(data, index);
      if Rejects(data, index) then this
      else
        SortedBelow(next, runs);
        FullWindow(this, data, index);
        this.(runs := Insert(next - 1, runs, start, bytes))
    }

    function Output(): Reassembler
      requires Assembled()
    {
      if runs == [] || runs[0].first != next then this
      else this.(next := runs[0].last, out := out.Write(runs[0].bytes), runs := runs[1..])
    }

    function CheckEndInput(end: u64, fin: bool): Reassembler {
      var r := if fin then this.(eof := true, eofNum := end) else this;
      if r.eof && r.eofNum == next then r.(out := out.(ended := true)) else r
    }

    function Push(data: seq<byte>, index: u64, fin: bool): Reassembler
      requires Valid()
    {
      AssembleKeeps(this, data, index);
      Assemble(data, index).Output().CheckEndInput(U64(index + |data|), fin)
    }
  }

  lemma SortedBelow(lo: int, runs: seq<Run>)
    requires Sorted(lo, runs)
    ensures Sorted(lo - 1, runs)
  {
  }

  lemma AssembleKeeps(r: Reassembler, data: seq<byte>, index: u64)
    requires r.Valid()
    ensures r.Assemble(data, index).Assembled()
    ensures r.Assemble(data, index).(runs := r.runs) == r
  {
    var (start, bytes) := r.Clip(data, index);
    SortedBelow(r.next, r.runs);
    if bytes != [] {
      InsertSorted(r.next - 1, r.runs, start, bytes, r.Upper());
    } else if !r.Rejects(data, index) {
      FullWindow(r, data, index);
    }
  }

  /** Only a full window clips a segment to nothing, and then no run is stored. */
  lemma FullWindow(r: Reassembler, data: seq<byte>, index: u64)
    requires r.Valid() && !r.Rejects(data, index)
    ensures r.Clip(data, index).1 == [] ==> r.Clip(data, index).0 == r.next == r.Upper() && r.runs == []
  {
  }

  // ------------------------------------------------------------------ one pop is enough

  /** A single pop leaves no run at the new front, and the write is never truncated. */
  lemma OutputKeeps(r: Reassembler)
    requires r.Assembled()
    ensures var r' := r.Output();
            && r'.out.Valid() && r'.next == |r'.out.written|
            && Sorted(r'.next, r'.runs) && EndBy(r'.runs, r'.Upper())
            && r'.out.(written := r.out.written) == r.out && r.out.written <= r'.out.written
            && (r'.eof, r'.eofNum) == (r.eof, r.eofNum)
  {
  }

  lemma PushKeepsValid(r: Reassembler, data: seq<byte>, index: u64, fin: bool)
    requires r.Valid()
    ensures r.Push(data, index, fin).Valid()
  {
    hide Reassembler.Assemble, Reassembler.Output, Sorted, EndBy;
    AssembleKeeps(r, data, index);
    OutputKeeps(r.Assemble(data, index));
  }

  lemma OutputKnows(r: Reassembler, i: int)
    requires r.Assembled()
    ensures r.Output().Known(i) == r.Known(i)
  {
  }

  lemma SliceAt(data: seq<byte>, from: nat, len: nat, k: int)
    requires from + len <= |data|
    ensures |data[from..from + len]| == len
    ensures 0 <= k < len ==> data[from..from + len][k] == data[from + k]
  {
  }

  /** The clipped segment is exactly the news below the capacity limit. */
  lemma ClipExact(r: Reassembler, data: seq<byte>, index: u64, i: int)
    requires r.out.Valid() && index + |data| < 0x1_0000_0000_0000_0000
    ensures var (start, bytes) := r.Clip(data, index);
            && (start <= i < start + |bytes| <==> index <= i < index + |data| && r.next <= i < r.Upper())
            && (start <= i < start + |bytes| ==> bytes[i - start] == data[i - index])
  {
    hide U64;
    U64Same(index + |data|);
    if !r.Rejects(data, index) {
      var start := Max(r.next, index);
      SliceAt(data, start - index, Min(|data| - (start - index), r.Upper() - start), i - start);
    }
  }

  lemma AssembleKnows(r: Reassembler, data: seq<byte>, index: u64, i: int)
    requires r.Valid()
    ensures var (start, bytes) := r.Clip(data, index);
            && r.Assemble(data, index).Known(i) ==
               (if start <= i < start + |bytes| && !Kept(r.next, r.runs, start, start + |bytes|, i)
                then Some(bytes[i - start]) else r.Known(i))
            && (bytes != [] && Kept(r.next, r.runs, start, start + |bytes|, i) ==> r.Known(i).Some?)
  {
    var (start, bytes) := r.Clip(data, index);
    if bytes != [] {
      InsertKnows(r, start, bytes, i);
    } else if !r.Rejects(data, index) {
      FullWindow(r, data, index);
    }
  }

  lemma InsertKnows(r: Reassembler, start: nat, bytes: seq<byte>, i: int)
    requires r.Valid() && bytes != [] && r.next <= start
    ensures Sorted(r.next - 1, r.runs)
    ensures r.(runs := Insert(r.next - 1, r.runs, start, bytes)).Known(i) ==
            if start <= i < start + |bytes| && !Kept(r.next, r.runs, start, start + |bytes|, i)
            then Some(bytes[i - start]) else r.Known(i)
    ensures Kept(r.next, r.runs, start, start + |bytes|, i) ==> r.Known(i).Some?
  {
    KeptBelow(r.next, r.runs, start, start + |bytes|, i);
    InsertAt(r.next - 1, r.runs, start, bytes, i);
  }

  /**
   Pushing is union, clipped to the window: afterwards the known indices are the
   old ones and those of the segment below the capacity limit, with the stored
   byte of the run `Kept` speaks of in force where both know one.
   */
  lemma PushIsUnion(r: Reassembler, data: seq<byte>, index: u64, fin: bool, i: int)
    requires r.Valid() && index + |data| < 0x1_0000_0000_0000_0000
    ensures var (start, bytes) := r.Clip(data, index);
            && r.Push(data, index, fin).Known(i) ==
               (if index <= i < index + |data| && r.next <= i < r.Upper()
                   && !Kept(r.next, r.runs, start, start + |bytes|, i)
                then Some(data[i - index]) else r.Known(i))
            && (bytes != [] && Kept(r.next, r.runs, start, start + |bytes|, i) ==> r.Known(i).Some?)
  {
    hide Reassembler.Assemble, Reassembler.Output, Sorted, EndBy, Kept;
    AssembleKeeps(r, data, index);
    OutputKnows(r.Assemble(data, index), i);
    AssembleKnows(r, data, index, i);
    ClipExact(r, data, index, i);
  }

  lemma ClipTakes(r: Reassembler, data: seq<byte>, index: u64, i: int)
    requires r.out.Valid()
    ensures var (start, bytes) := r.Clip(data, index);
            start <= i < start + |bytes| ==> index <= i < index + |data| && bytes[i - start] == data[i - index]
  {
    assert r.next <= r.Upper();
    hide U64, Reassembler.Upper, Fifo.Valid;
    U64Same(index + |data|);
  }

  /** Whatever a push adds to the reassembler's knowledge is a byte of the segment. */
  lemma PushLearnsOnly(r: Reassembler, data: seq<byte>, index: u64, fin: bool, i: int)
    requires r.Valid()
    ensures var k := r.Push(data, index, fin).Known(i);
            k == r.Known(i) || (index <= i < index + |data| && k == Some(data[i - index]))
  {
    hide Reassembler.Assemble, Reassembler.Output, Reassembler.Clip, Sorted, EndBy, Kept;
    AssembleKeeps(r, data, index);
    OutputKnows(r.Assemble(data, index), i);
    AssembleKnows(r, data, index, i);
    ClipTakes(r, data, index, i);
  }

  lemma PushEnds(r: Reassembler, data: seq<byte>, index: u64, fin: bool)
    requires r.Valid()
    ensures var r' := r.Push(data, index, fin);
            && (fin ==> r'.eofNum == U64(index + |data|)) && (!fin ==> r'.eofNum == r.eofNum)
            && (r'.out.ended ==> r.out.ended || (r'.eof && r'.eofNum == |r'.out.written|))
  {
    hide Reassembler.Assemble, Reassembler.Output, Sorted, EndBy;
    AssembleKeeps(r, data, index);
    OutputKeeps(r.Assemble(data, index));
  }

  /** If all segments are cut from one stream, every byte known is that stream's byte. */
  lemma StreamBytesStay(r: Reassembler, stream: seq<byte>, index: u64, len: nat, fin: bool, i: int)
    requires r.Valid() && index + len <= |stream|
    requires forall j :: r.Known(j).Some? ==> 0 <= j < |stream| && r.Known(j).value == stream[j]
    ensures var k := r.Push(stream[index..index + len], index, fin).Known(i);
            k.Some? ==> 0 <= i < |stream| && k.value == stream[i]
  {
    hide Reassembler.Push, Reassembler.Known;
    PushLearnsOnly(r, stream[index..index + len], index, fin, i);
  }

  /** The assembled stream ends exactly at the first index the reassembler does not know. */
  lemma NextIsFirstMissing(r: Reassembler, i: int)
    requires r.Valid()
    ensures r.Known(r.next).None?
    ensures 0 <= i < r.next ==> r.Known(i).Some?
  {
    AtAbove(r.next, r.runs, r.next);
  }

  lemma KeptBelow(lo: int, runs: seq<Run>, start: nat, end: nat, i: int)
    requires Sorted(lo, runs)
    ensures Sorted(lo - 1, runs) && Kept(lo - 1, runs, start, end, i) == Kept(lo, runs, start, end, i)
  {
  }

  /** Bytes waiting to be read plus bytes waiting for reassembly never exceed the capacity. */
  lemma WithinCapacity(r: Reassembler)
    requires r.Valid()
    ensures r.out.BufferSize() + Total(r.runs) <= r.out.capacity
    ensures |Covered(r.next, r.runs)| == Total(r.runs)
  {
    TotalCountsCovered(r.next, r.runs);
    TotalFits(r.next, r.runs, r.Upper());
  }
}
