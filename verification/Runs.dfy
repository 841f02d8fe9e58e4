/**
 The list of byte runs that wait for reassembly, and the partial function from
 stream index to byte that the list stands for.
 */
module Runs {
  import opened MachineIntegers
  import opened Options

  /** The bytes of the half-open index range [first, last). */
  datatype Run = Run(first: nat, last: nat, bytes: seq<byte>) {
    predicate Valid() {
      first < last && |bytes| == last - first
    }
  }

  /** Sorted, disjoint, no run empty, and a gap of at least one index below every
      run, the first of them above `lo`. */
  predicate Sorted(lo: int, runs: seq<Run>)
    decreases |runs|
  {
    runs == [] || (lo < runs[0].first && runs[0].Valid() && Sorted(runs[0].last, runs[1..]))
  }

  /** Every run ends at or below `upper`. */
  predicate EndBy(runs: seq<Run>, upper: int) {
    forall r :: r in runs ==> r.last <= upper
  }

  function Total(runs: seq<Run>): nat {
    if runs == [] then 0 else |runs[0].bytes| + Total(runs[1..])
  }

  // ------------------------------------------------------------------ the abstraction

  function In(r: Run, i: int): Option<byte> {
    if r.first <= i < r.last && r.Valid() then Some(r.bytes[i - r.first]) else None
  }

  /** The byte stored for index `i`, if any. */
  function At(runs: seq<Run>, i: int): Option<byte> {
    if runs == [] then None
    else if In(runs[0], i).Some? then In(runs[0], i)
    else At(runs[1..], i)
  }

  lemma {:induction false} AtWithin(lo: int, runs: seq<Run>, upper: int, i: int)
    requires Sorted(lo, runs) && EndBy(runs, upper)
    ensures At(runs, i).Some? ==> lo < i < upper
    decreases |runs|
  {
    if runs != [] {
      assert runs[0] in runs && EndBy(runs[1..], upper);
      AtWithin(runs[0].last, runs[1..], upper, i);
    }
  }

  lemma {:induction false} AtAbove(lo: int, runs: seq<Run>, i: int)
    requires Sorted(lo, runs)
    ensures At(runs, i).Some? ==> lo < i
    decreases |runs|
  {
    if runs != [] {
      AtAbove(runs[0].last, runs[1..], i);
    }
  }

  ghost function Range(a: int, b: int): (s: set<int>)
    ensures forall i :: i in s <==> a <= i < b
    ensures |s| == if a <= b then b - a else 0
    decreases b - a
  {
    if a >= b then {} else Range(a, b - 1) + {b - 1}
  }

  /** The indices that hold a byte. */
  ghost function Covered(lo: int, runs: seq<Run>): (c: set<int>)
    requires Sorted(lo, runs)
    ensures forall i :: i in c <==> At(runs, i).Some?
    decreases |runs|
  {
    if runs == [] then {} else Range(runs[0].first, runs[0].last) + Covered(runs[0].last, runs[1..])
  }

  /** The byte count is the number of distinct covered indices. */
  lemma {:induction false} TotalCountsCovered(lo: int, runs: seq<Run>)
    requires Sorted(lo, runs)
    ensures |Covered(lo, runs)| == Total(runs)
    decreases |runs|
  {
    if runs != [] {
      var own, rest := Range(runs[0].first, runs[0].last), Covered(runs[0].last, runs[1..]);
      TotalCountsCovered(runs[0].last, runs[1..]);
      forall i | i in rest
        ensures i !in own
      {
        AtAbove(runs[0].last, runs[1..], i);
      }
      assert own !! rest;
    }
  }

  /** Sorted runs between `lo` and `upper` cannot hold more bytes than fit there. */
  lemma {:induction false} TotalFits(lo: int, runs: seq<Run>, upper: int)
    requires Sorted(lo, runs) && EndBy(runs, upper)
    ensures Total(runs) <= Max(0, upper - lo - 1)
    decreases |runs|
  {
    if runs != [] {
      assert runs[0] in runs && EndBy(runs[1..], upper);
      TotalFits(runs[0].last, runs[1..], upper);
    }
  }

  lemma {:induction false} TotalConcat(a: seq<Run>, b: seq<Run>)
    ensures Total(a + b) == Total(a) + Total(b)
  {
    if a == [] {
      assert a + b == b;
    } else {
      assert (a + b)[1..] == a[1..] + b;
      TotalConcat(a[1..], b);
    }
  }

  // ------------------------------------------------------------------ inserting a segment

  /** Joins the first run the new bytes touch with those bytes. */
  function Merge(r: Run, start: nat, data: seq<byte>): (m: Run)
    requires r.Valid() && data != [] && start <= r.last && r.first <= start + |data|
    ensures m.Valid() && m.first == Min(r.first, start) && m.last == Max(r.last, start + |data|)
  {
    var end := start + |data|;
    if r.first <= start then
      if end <= r.last then r else Run(r.first, end, r.bytes + data[r.last - start..])
    else if end <= r.last then Run(start, r.last, data[..r.first - start] + r.bytes)
    else Run(start, end, data)
  }

  function Join(m: Run, r: Run): (j: Run)
    requires m.Valid() && r.Valid() && m.first <= r.first <= m.last <= r.last
    ensures j.Valid() && j.first == m.first && j.last == r.last
  {
    Run(m.first, r.last, m.bytes + r.bytes[m.last - r.first..])
  }

  /** Lets `m` absorb the runs it has grown over, and the one it has grown into. */
  function Swallow(x: int, m: Run, rest: seq<Run>): seq<Run>
    requires m.Valid() && m.first <= x && Sorted(x, rest)
    decreases |rest|
  {
    if rest == [] then [m]
    else if m.last >= rest[0].last then Swallow(rest[0].last, m, rest[1..])
    else if rest[0].first <= m.last then [Join(m, rest[0])] + rest[1..]
    else [m] + rest
  }

  function Insert(lo: int, runs: seq<Run>, start: nat, data: seq<byte>): seq<Run>
    requires Sorted(lo, runs) && (data == [] ==> runs == [])
    decreases |runs|
  {
    if runs == [] || start + |data| < runs[0].first then [Run(start, start + |data|, data)] + runs
    else if start > runs[0].last then [runs[0]] + Insert(runs[0].last, runs[1..], start, data)
    else Swallow(runs[0].last, Merge(runs[0], start, data), runs[1..])
  }

  lemma {:induction false} SwallowSorted(lo: int, x: int, m: Run, rest: seq<Run>, upper: int)
    requires m.Valid() && lo < m.first && m.first <= x && Sorted(x, rest)
    requires EndBy(rest, upper) && m.last <= upper
    ensures Sorted(lo, Swallow(x, m, rest)) && EndBy(Swallow(x, m, rest), upper)
    decreases |rest|
  {
    if rest != [] {
      assert rest[0] in rest && EndBy(rest[1..], upper);
      if m.last >= rest[0].last {
        SwallowSorted(lo, rest[0].last, m, rest[1..], upper);
      }
    }
  }

  lemma {:induction false} InsertSorted(lo: int, runs: seq<Run>, start: nat, data: seq<byte>, upper: int)
    requires Sorted(lo, runs) && EndBy(runs, upper)
    requires data != [] && lo < start && start + |data| <= upper
    ensures Sorted(lo, Insert(lo, runs, start, data)) && EndBy(Insert(lo, runs, start, data), upper)
    decreases |runs|
  {
    if runs != [] && start + |data| >= runs[0].first {
      assert runs[0] in runs && EndBy(runs[1..], upper);
      if start > runs[0].last {
        InsertSorted(runs[0].last, runs[1..], start, data, upper);
      } else {
        SwallowSorted(lo, runs[0].last, Merge(runs[0], start, data), runs[1..], upper);
      }
    }
  }

  lemma AtCons(r: Run, tail: seq<Run>, i: int)
    ensures At([r] + tail, i) == if In(r, i).Some? then In(r, i) else At(tail, i)
  {
  }

  lemma {:induction false} SwallowAt(x: int, m: Run, rest: seq<Run>, i: int)
    requires m.Valid() && m.first <= x <= m.last && Sorted(x, rest)
    ensures At(Swallow(x, m, rest), i) == if In(m, i).Some? then In(m, i) else At(rest, i)
    decreases |rest|
  {
    if rest == [] {
      AtCons(m, rest, i);
    } else if m.last >= rest[0].last {
      SwallowAt(rest[0].last, m, rest[1..], i);
    } else if rest[0].first <= m.last {
      AtAbove(rest[0].last, rest[1..], i);
      AtCons(Join(m, rest[0]), rest[1..], i);
    } else {
      AtCons(m, rest, i);
    }
  }

  /** Where already stored bytes stay in force: in the first run that the new range
      touches, unless the new range sticks out of it on both sides. */
  predicate Kept(lo: int, runs: seq<Run>, start: nat, end: nat, i: int)
    requires Sorted(lo, runs)
    decreases |runs|
  {
    if runs == [] || end < runs[0].first then false
    else if start > runs[0].last then Kept(runs[0].last, runs[1..], start, end, i)
    else runs[0].first <= i < runs[0].last && !(start < runs[0].first && runs[0].last < end)
  }

  /** Inserting is union: afterwards exactly the old indices and the new range hold
      a byte, the new one except at the kept indices, which all held one before. */
  lemma {:induction false} InsertAt(lo: int, runs: seq<Run>, start: nat, data: seq<byte>, i: int)
    requires Sorted(lo, runs) && data != [] && lo < start
    ensures At(Insert(lo, runs, start, data), i) ==
            if start <= i < start + |data| && !Kept(lo, runs, start, start + |data|, i)
            then Some(data[i - start]) else At(runs, i)
    ensures Kept(lo, runs, start, start + |data|, i) ==> At(runs, i).Some?
    decreases |runs|
  {
    if runs == [] || start + |data| < runs[0].first {
      AtCons(Run(start, start + |data|, data), runs, i);
      AtAbove(start + |data|, runs, i);
    } else if start > runs[0].last {
      InsertAt(runs[0].last, runs[1..], start, data, i);
      AtCons(runs[0], Insert(runs[0].last, runs[1..], start, data), i);
    } else {
      MergeAt(runs[0], start, data, i);
      SwallowAt(runs[0].last, Merge(runs[0], start, data), runs[1..], i);
      AtAbove(runs[0].last, runs[1..], i);
    }
  }

  lemma MergeAt(r: Run, start: nat, data: seq<byte>, i: int)
    requires r.Valid() && data != [] && start <= r.last && r.first <= start + |data|
    ensures In(Merge(r, start, data), i) ==
            if start <= i < start + |data|
               && !(r.first <= i < r.last && !(start < r.first && r.last < start + |data|))
            then Some(data[i - start]) else In(r, i)
  {
  }
}
