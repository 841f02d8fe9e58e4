/** The reassembler as the program runs it: an edited run list over a ring buffer. */
module StreamReassemblers {
  import opened MachineIntegers
  import opened ByteStreams
  import opened Runs
  import opened Reassembly

  /** Inserting walks past a run that ends below the new bytes. */
  lemma InsertSkips(lo: int, front: seq<Run>, back: seq<Run>, start: nat, data: seq<byte>)
    requires Sorted(lo, back) && data != [] && back != [] && back[0].last < start
    ensures Sorted(back[0].last, back[1..]) && front + back == front + [back[0]] + back[1..]
    ensures front + Insert(lo, back, start, data) ==
            (front + [back[0]]) + Insert(back[0].last, back[1..], start, data)
  {
  }

  /** Swallowing drops a run that the grown one covers. */
  lemma SwallowDrops(x: int, m: Run, back: seq<Run>)
    requires m.Valid() && m.first <= x && Sorted(x, back) && back != [] && m.last >= back[0].last
    ensures m.first <= back[0].last && Sorted(back[0].last, back[1..])
    ensures Swallow(x, m, back) == Swallow(back[0].last, m, back[1..])
    ensures Total(back) == |back[0].bytes| + Total(back[1..])
  {
  }

  /** Swallowing ends by joining the run the grown one reaches into, or leaves the rest alone. */
  lemma SwallowEnds(x: int, m: Run, back: seq<Run>)
    requires m.Valid() && m.first <= x && Sorted(x, back) && (back != [] ==> m.last < back[0].last)
    ensures back != [] ==> back[0].Valid() && m.first <= back[0].first
    ensures Swallow(x, m, back) ==
            if back != [] && back[0].first <= m.last then [Join(m, back[0])] + back[1..] else [m] + back
    ensures back != [] ==> Total(back) == |back[0].bytes| + Total(back[1..])
  {
  }

  /** Where no run ends before the new bytes, they are put in front or merged with the first run. */
  lemma InsertHere(lo: int, back: seq<Run>, start: nat, data: seq<byte>)
    requires Sorted(lo, back) && (data == [] ==> back == []) && (back != [] ==> start <= back[0].last)
    ensures back == [] || start + |data| < back[0].first ==>
              Insert(lo, back, start, data) == [Run(start, start + |data|, data)] + back
    ensures back != [] && back[0].first <= start + |data| ==>
              && back[0].Valid() && Sorted(back[0].last, back[1..])
              && Total(back) == |back[0].bytes| + Total(back[1..])
              && var m := Merge(back[0], start, data);
                 m.first <= back[0].last && Insert(lo, back, start, data) == Swallow(back[0].last, m, back[1..])
  {
  }

  /** The size of a list around one run. */
  lemma TotalAround(a: seq<Run>, r: Run, b: seq<Run>)
    ensures Total(a + [r] + b) == Total(a) + |r.bytes| + Total(b)
  {
    TotalConcat(a + [r], b);
    TotalConcat(a, [r]);
  }

  class StreamReassembler {
    const capacity: nat
    const output: ByteStream
    var runs: seq<Run>
    var size: nat
    var next: nat
    var eofNum: nat
    var eof: bool

    ghost function Footprint(): set<object> {
      {this} + output.Footprint()
    }

    /** The fields agree with each other, wherever the push in progress stands. */
    ghost predicate Coherent()
      reads Footprint()
    {
      this !in output.Footprint() && output.Valid() && capacity == output.View().capacity && size == Total(runs)
    }

    ghost function View(): Reassembler
      requires output.Valid()
      reads this, output.Footprint()
    {
      Reassembler(output.View(), runs, next, eofNum, eof)
    }

    ghost predicate Valid()
      reads Footprint()
    {
      Coherent() && View().Valid()
    }

    constructor (capacity: nat)
      requires 0 < capacity
      ensures Valid() && fresh(Footprint())
      ensures View() == Reassembler(Fifo(capacity, [], 0, false, false), [], 0, 0, false)
    {
      this.capacity := capacity;
      output := new ByteStream(capacity);
      runs, size, next, eofNum, eof := [], 0, 0, 0, false;
    }

    method Assemble(input: seq<byte>, index: u64)
      requires Valid()
      modifies this`runs, this`size
      ensures Coherent() && View() == old(View()).Assemble(input, index)
    {
      var upper := next + (capacity - output.BufferSize());
      if |input| == 0 || next >= U64(index + |input|) || index >= upper {
        return;
      }
      assert U64(index + |input|) <= index + |input|;
      // keep only what lies between the assembled part and the capacity limit
      var start := Max(next, index);
      var offset := start - index;
      var len := Min(|input| - offset, upper - start);
      var data := input[offset..offset + len];
      ghost var r := View();
      assert !r.Rejects(input, index) && r.Clip(input, index) == (start, data);
      SortedBelow(next, runs);
      FullWindow(r, input, index);
      InsertInto(start, data);
    }

    /** The list surgery of assembling: `data` belongs at `start`. */
    method InsertInto(start: nat, data: seq<byte>)
      requires Sorted(next - 1, runs) && size == Total(runs) && (data == [] ==> runs == [])
      modifies this`runs, this`size
      ensures runs == Insert(next - 1, old(runs), start, data) && size == Total(runs)
    {
      hide Insert, Swallow, Merge, Sorted, Total;
      var len := |data|;
      var last := start + len;
      var it, lo, front, back := Position(start, data, Insert(next - 1, runs, start, data));
      TotalConcat(front, back);
      assert it < |runs| ==> runs[it] == back[0];
      InsertHere(lo, back, start, data);

      // nothing to merge with
      if it == |runs| || last < runs[it].first {
        size := size + len;
        runs := runs[..it] + [Run(start, last, data)] + runs[it..];
        assert runs == front + [Run(start, last, data)] + back;
        TotalAround(front, Run(start, last, data), back);
        assert runs == front + ([Run(start, last, data)] + back);
        return;
      }

      ghost var m, rest := Merge(back[0], start, data), back[1..];
      MergeInto(it, start, data);
      assert runs == front + [m] + rest;
      SwallowFrom(it, back[0].last, front, m, rest);
    }

    /** The first run that does not end before `start`. */
    method Position(start: nat, ghost data: seq<byte>, ghost target: seq<Run>)
      returns (it: nat, ghost lo: int, ghost front: seq<Run>, ghost back: seq<Run>)
      requires Sorted(next - 1, runs) && (data == [] ==> runs == [])
      requires target == Insert(next - 1, runs, start, data)
      ensures runs == front + back && it == |front| && Sorted(lo, back)
      ensures back != [] ==> start <= back[0].last
      ensures target == front + Insert(lo, back, start, data)
    {
      it, lo, front, back := 0, next - 1, [], runs;
      while it < |runs| && start > runs[it].last
        invariant runs == front + back && it == |front| && Sorted(lo, back) && (data == [] ==> back == [])
        invariant target == front + Insert(lo, back, start, data)
      {
        assert runs[it] == back[0];
        InsertSkips(lo, front, back, start, data);
        lo, front, back := back[0].last, front + [back[0]], back[1..];
        it := it + 1;
      }
      assert it < |runs| ==> runs[it] == back[0];
    }

    /** Extends the run at `it`, which the new bytes touch, and counts what that adds. */
    method MergeInto(it: nat, start: nat, data: seq<byte>)
      requires it < |runs| && runs[it].Valid() && data != []
      requires start <= runs[it].last && runs[it].first <= start + |data|
      modifies this`runs, this`size
      ensures runs == old(runs)[it := Merge(old(runs)[it], start, data)]
      ensures size == old(size) + |runs[it].bytes| - |old(runs)[it].bytes|
    {
      var r, len, last := runs[it], |data|, start + |data|;
      var mini := Min(r.first, start);
      var maxj := Max(r.last, last);
      var keep := 0; // how many bytes this adds
      var bytes := r.bytes;
      if mini == r.first {
        if maxj != r.last {
          var bypass := r.last - start;
          keep := len - bypass;
          bytes := bytes + data[bypass..bypass + keep];
          assert data[bypass..bypass + keep] == data[bypass..];
        }
      } else if maxj == r.last {
        keep := r.first - start;
        bytes := data[..keep] + bytes;
      } else {
        keep := len - |bytes|;
        bytes := data;
      }
      size := size + keep;
      runs := runs[it := Run(mini, maxj, bytes)];
    }

    /** Removes the runs that the run at `prev` now covers and joins the one it reaches into. */
    method SwallowFrom(prev: nat, ghost x: int, ghost front: seq<Run>, ghost m: Run, ghost rest: seq<Run>)
      requires prev == |front| && runs == front + [m] + rest && size == Total(front) + |m.bytes| + Total(rest)
      requires m.Valid() && m.first <= x && Sorted(x, rest)
      modifies this`runs, this`size
      ensures runs == front + Swallow(x, m, rest) && size == Total(runs)
    {
      hide Swallow, Sorted, Total;
      ghost var x', back := x, rest;
      var it := prev + 1;
      while it < |runs| && runs[prev].last >= runs[it].last
        invariant it == prev + 1 && runs == front + [m] + back
        invariant m.first <= x' && Sorted(x', back) && Swallow(x, m, rest) == Swallow(x', m, back)
        invariant size == Total(front) + |m.bytes| + Total(back)
        decreases |back|
      {
        assert runs[it] == back[0];
        SwallowDrops(x', m, back);
        size := size - |runs[it].bytes|;
        runs := runs[..it] + runs[it + 1..];
        x', back := back[0].last, back[1..];
      }
      assert it < |runs| ==> runs[it] == back[0];
      SwallowEnds(x', m, back);
      if it < |runs| && runs[it].first <= runs[prev].last {
        var bypass := runs[prev].last - runs[it].first;
        size := size - bypass;
        var joined := Run(runs[prev].first, runs[it].last, runs[prev].bytes + runs[it].bytes[bypass..]);
        runs := runs[..prev] + [joined] + runs[it + 1..];
        assert runs == front + [joined] + back[1..];
        TotalAround(front, joined, back[1..]);
        assert runs == front + ([joined] + back[1..]);
      } else {
        TotalAround(front, m, back);
        assert runs == front + ([m] + back);
      }
    }

    method CheckEndInput(index: u64, fin: bool)
      requires Coherent()
      modifies this, output
      ensures Coherent() && View() == old(View()).CheckEndInput(index, fin)
    {
      if fin {
        eof := true;
        eofNum := index;
      }
      if eof && eofNum == next {
        output.EndInput();
      }
    }

    method Output()
      requires Coherent() && View().Assembled()
      modifies Footprint()
      ensures Coherent() && View() == old(View()).Output()
    {
      if |runs| == 0 || next != runs[0].first {
        return;
      }
      next := runs[0].last;
      size := size - |runs[0].bytes|;
      var _ := output.Write(runs[0].bytes);
      runs := runs[1..];
    }

    method PushSubstring(data: seq<byte>, index: u64, fin: bool)
      requires Valid()
      modifies Footprint()
      ensures Valid() && View() == old(View()).Push(data, index, fin)
    {
      PushKeepsValid(View(), data, index, fin);
      AssembleKeeps(View(), data, index);
      Assemble(data, index);
      Output();
      CheckEndInput(U64(index + |data|), fin);
    }

    method UnassembledBytes() returns (n: nat)
      requires Valid()
      ensures n == |Covered(next, runs)|
    {
      TotalCountsCovered(next, runs);
      n := size;
    }
  }
}
