/**
 32-bit sequence numbers and the 64-bit stream positions they stand for
 (section 3.3 of RFC 793, section 3.4 of RFC 9293).
 */
module WrappingIntegers {
  import opened MachineIntegers

  /** The 32-bit sequence number of an absolute position. */
  function Wrap(n: nat, isn: u32): u32 {
    ((n % 0x1_0000_0000) + isn) % 0x1_0000_0000
  }

  /** The absolute position a sequence number stands for, with the unsigned
      64-bit arithmetic of the program, its underflows included. */
  function Unwrap(n: u32, isn: u32, checkpoint: u64): u64 {
    var steps := (n + 0x1_0000_0000 - isn) % 0x1_0000_0000;
    var prev := U64(checkpoint - steps) / 0x1_0000_0000;
    var next := U64(prev + 1);
    var fromPrev := U64(steps + prev * 0x1_0000_0000);
    var fromNext := U64(steps + next * 0x1_0000_0000);
    if Distance(checkpoint, fromPrev) < Distance(checkpoint, fromNext) then fromPrev else fromNext
  }

  function Distance(a: int, b: int): nat {
    if a > b then a - b else b - a
  }

  /** The positions that wrap to `n` are those congruent to `n - isn`. */
  lemma WrapIffCongruent(x: nat, n: u32, isn: u32)
    ensures Wrap(x, isn) == n <==> x % 0x1_0000_0000 == (n + 0x1_0000_0000 - isn) % 0x1_0000_0000
  {
  }

  /** The quotient of the checkpoint, with the underflow resolved. */
  lemma PrevMultiple(checkpoint: u64, steps: u32)
    ensures var k := (checkpoint - steps) / 0x1_0000_0000;
            && -1 <= k < 0x1_0000_0000
            && 0 <= checkpoint - (steps + k * 0x1_0000_0000) < 0x1_0000_0000
            && U64(checkpoint - steps) / 0x1_0000_0000 == if k == -1 then 0xFFFF_FFFF else k
  {
  }

  /** The two candidates, with the underflow and the overflow resolved. */
  lemma UnwrapCases(n: u32, isn: u32, checkpoint: u64, steps: u32, k: int)
    requires steps == (n + 0x1_0000_0000 - isn) % 0x1_0000_0000
    requires k == (checkpoint - steps) / 0x1_0000_0000
    ensures -1 <= k < 0x1_0000_0000 && 0 <= checkpoint - (steps + k * 0x1_0000_0000) < 0x1_0000_0000
    ensures Unwrap(n, isn, checkpoint) ==
            if k == -1 then steps
            else if k + 1 == 0x1_0000_0000 || checkpoint - (steps + k * 0x1_0000_0000) < 0x8000_0000
            then steps + k * 0x1_0000_0000
            else steps + (k + 1) * 0x1_0000_0000
  {
    hide U64;
    PrevMultiple(checkpoint, steps);
    Candidates(steps, if k == -1 then 0xFFFF_FFFF else k);
  }

  /** The candidates, with the overflow of the upper one resolved. */
  lemma Candidates(steps: u32, prev: u32)
    ensures U64(prev + 1) == prev + 1
    ensures U64(steps + prev * 0x1_0000_0000) == steps + prev * 0x1_0000_0000
    ensures U64(steps + (prev + 1) * 0x1_0000_0000) ==
            if prev == 0xFFFF_FFFF then steps else steps + (prev + 1) * 0x1_0000_0000
  {
  }

  /** `r` is the better of the two multiples around the checkpoint, `x` any multiple. */
  lemma NearestMultiple(steps: u32, checkpoint: u64, k: int, j: nat, x: u64, r: u64)
    requires -1 <= k < 0x1_0000_0000 && 0 <= checkpoint - (steps + k * 0x1_0000_0000) < 0x1_0000_0000
    requires x == steps + j * 0x1_0000_0000
    requires r == if k == -1 then steps
                  else if k + 1 == 0x1_0000_0000 || checkpoint - (steps + k * 0x1_0000_0000) < 0x8000_0000
                  then steps + k * 0x1_0000_0000
                  else steps + (k + 1) * 0x1_0000_0000
    ensures x != r ==> Distance(r, checkpoint) < Distance(x, checkpoint)
                       || (Distance(r, checkpoint) == Distance(x, checkpoint) && x < r)
    ensures x == r <==> Decodes(x, checkpoint)
  {
  }

  /** `Unwrap` yields a position that wraps to `n`, no 64-bit position that wraps
      to `n` is closer to the checkpoint, and of two equally close ones it yields
      the upper. */
  lemma UnwrapIsNearest(n: u32, isn: u32, checkpoint: u64, x: u64)
    requires Wrap(x, isn) == n
    ensures var r := Unwrap(n, isn, checkpoint);
            && Wrap(r, isn) == n
            && (x != r ==> Distance(r, checkpoint) < Distance(x, checkpoint)
                           || (Distance(r, checkpoint) == Distance(x, checkpoint) && x < r))
  {
    UnwrapWraps(n, isn, checkpoint);
    UnwrapAgainst(n, isn, checkpoint, x);
  }

  lemma UnwrapWraps(n: u32, isn: u32, checkpoint: u64)
    ensures Wrap(Unwrap(n, isn, checkpoint), isn) == n
  {
    var steps := (n + 0x1_0000_0000 - isn) % 0x1_0000_0000;
    var k := (checkpoint - steps) / 0x1_0000_0000;
    UnwrapCases(n, isn, checkpoint, steps, k);
    MultipleWraps(n, isn, steps, Unwrap(n, isn, checkpoint),
                  if k == -1 then 0 else if Unwrap(n, isn, checkpoint) == steps + k * 0x1_0000_0000 then k else k + 1);
  }

  lemma MultipleWraps(n: u32, isn: u32, steps: u32, x: nat, j: int)
    requires steps == (n + 0x1_0000_0000 - isn) % 0x1_0000_0000
    requires x == steps + j * 0x1_0000_0000
    ensures Wrap(x, isn) == n
  {
  }

  lemma UnwrapAgainst(n: u32, isn: u32, checkpoint: u64, x: u64)
    requires Wrap(x, isn) == n
    ensures var r := Unwrap(n, isn, checkpoint);
            && (x != r ==> Distance(r, checkpoint) < Distance(x, checkpoint)
                           || (Distance(r, checkpoint) == Distance(x, checkpoint) && x < r))
            && (x == r <==> Decodes(x, checkpoint))
  {
    var steps := (n + 0x1_0000_0000 - isn) % 0x1_0000_0000;
    var k := (checkpoint - steps) / 0x1_0000_0000;
    UnwrapCases(n, isn, checkpoint, steps, k);
    WrapIffCongruent(x, n, isn);
    NearestMultiple(steps, checkpoint, k, x / 0x1_0000_0000, x, Unwrap(n, isn, checkpoint));
  }

  /** Exactly the checkpoints from which position `x` survives the trip through
      32 bits: those at most 2^31 away (and not 2^31 above it), and at either end
      of the 64-bit range also those beyond which no other candidate lies. */
  ghost predicate Decodes(x: nat, checkpoint: nat) {
    && x < 0x1_0000_0000_0000_0000 && checkpoint < 0x1_0000_0000_0000_0000
    && (x - checkpoint <= 0x8000_0000 || x < 0x1_0000_0000)
    && (-0x8000_0000 < x - checkpoint || x + 0x1_0000_0000 >= 0x1_0000_0000_0000_0000)
  }

  lemma UnwrapInvertsWrap(x: u64, isn: u32, checkpoint: u64)
    ensures Unwrap(Wrap(x, isn), isn, checkpoint) == x <==> Decodes(x, checkpoint)
    ensures -0x8000_0000 < x - checkpoint <= 0x8000_0000 ==> Decodes(x, checkpoint)
  {
    UnwrapAgainst(Wrap(x, isn), isn, checkpoint, x);
  }
}
