/** The Internet checksum (RFC 1071). */
module Checksum {
  import opened MachineIntegers

  /** The sum of the 16-bit words of `data`, its first byte being a low one iff `odd`. */
  function WordSum(data: seq<byte>, odd: bool): nat {
    if data == [] then 0
    else (if odd then data[0] else 256 * data[0]) + WordSum(data[1..], !odd)
  }

  /** Adding the carries back until none is left. */
  function Fold(sum: nat): (f: nat)
    ensures f <= 0xFFFF
  {
    if sum <= 0xFFFF then sum else Fold(sum / 0x1_0000 + sum % 0x1_0000)
  }

  /** Folding is reduction modulo 0xFFFF, with 0xFFFF rather than 0 for positive multiples. */
  lemma {:induction false} FoldLaw(sum: nat)
    ensures Fold(sum) % 0xFFFF == sum % 0xFFFF
    ensures Fold(sum) == 0 <==> sum == 0
  {
    if sum > 0xFFFF {
      FoldLaw(sum / 0x1_0000 + sum % 0x1_0000);
      CarryIsCongruent(sum);
    }
  }

  lemma CarryIsCongruent(sum: nat)
    ensures (sum / 0x1_0000 + sum % 0x1_0000) % 0xFFFF == sum % 0xFFFF
  {
  }

  /** A sum that includes its own complement folds to all ones. */
  lemma ComplementFolds(sum: nat)
    ensures Fold(sum + (0xFFFF - Fold(sum))) == 0xFFFF
  {
    hide Fold;
    FoldLaw(sum);
    var f := Fold(sum);
    FoldLaw(sum + (0xFFFF - f));
    MultipleAfterComplement(sum, f);
  }

  /** Adding the complement never overflows 32 bits: it fills up to the next multiple of
      0xFFFF, and the largest 32-bit number is one. */
  lemma ComplementFits(sum: u32)
    ensures sum + (0xFFFF - Fold(sum)) < 0x1_0000_0000
  {
    hide Fold;
    FoldLaw(sum);
    MultipleAfterComplement(sum, Fold(sum));
  }

  /** Of the fields that make a sum fold to all ones, the complement is the one that does not
      carry out of 32 bits and is all ones only for a zero sum. */
  lemma ComplementIsCanonical(sum: u32, c: u16)
    requires Fold(U32(sum + c)) == 0xFFFF
    ensures c == 0xFFFF - Fold(sum) <==> sum + c < 0x1_0000_0000 && (c == 0xFFFF ==> sum == 0)
  {
    hide Fold, U32;
    FoldLaw(sum);
    ComplementFits(sum);
    if sum + c < 0x1_0000_0000 {
      U32Same(sum + c);
      FoldLaw(sum + c);
      SameComplement(sum, Fold(sum), c);
    }
  }

  lemma SameComplement(sum: nat, f: nat, c: nat)
    requires f <= 0xFFFF && c <= 0xFFFF && f % 0xFFFF == sum % 0xFFFF && (sum + c) % 0xFFFF == 0
    requires (f == 0 <==> sum == 0) && sum + c != 0
    ensures c == 0xFFFF - f <==> (c == 0xFFFF ==> sum == 0)
  {
    assert (f + c) % 0xFFFF == 0;
    assert f + c == 0xFFFF || f + c == 2 * 0xFFFF;
  }

  lemma MultipleAfterComplement(sum: nat, f: nat)
    requires f <= 0xFFFF && f % 0xFFFF == sum % 0xFFFF
    ensures (sum + (0xFFFF - f)) % 0xFFFF == 0
  {
  }

  lemma {:induction false} WordSumConcat(a: seq<byte>, b: seq<byte>, odd: bool)
    ensures WordSum(a + b, odd) == WordSum(a, odd) + WordSum(b, odd != (|a| % 2 == 1))
    decreases |a|
  {
    if a == [] {
      assert a + b == b;
    } else {
      assert (a + b)[1..] == a[1..] + b;
      WordSumConcat(a[1..], b, !odd);
    }
  }

  class InternetChecksum {
    var sum: u32
    var parity: bool

    constructor (initialSum: u32)
      ensures sum == initialSum && !parity
    {
      sum, parity := initialSum, false;
    }

    method Add(data: seq<byte>)
      modifies this
      ensures sum == U32(old(sum) + WordSum(data, old(parity)))
      ensures parity == (old(parity) != (|data| % 2 == 1))
    {
      hide U32;
      ghost var target := U32(sum + WordSum(data, parity));
      var i := 0;
      assert data[0..] == data;
      while i < |data|
        invariant i <= |data|
        invariant parity == (old(parity) != (i % 2 == 1))
        invariant U32(sum + WordSum(data[i..], parity)) == target
      {
        var val: nat := data[i];
        if !parity {
          val := val * 256;
        }
        assert data[i..][1..] == data[i + 1..];
        U32Absorbs(sum + val, WordSum(data[i + 1..], !parity));
        sum := U32(sum + val);
        parity := !parity;
        i := i + 1;
      }
      U32Same(sum);
    }

    method Value() returns (v: u16)
      ensures v == 0xFFFF - Fold(sum)
      ensures v == 0 <==> sum != 0 && sum % 0xFFFF == 0
    {
      FoldLaw(sum);
      var ret: nat := sum;
      while ret > 0xFFFF
        invariant Fold(ret) == Fold(sum)
      {
        ret := ret / 0x1_0000 + ret % 0x1_0000;
      }
      v := 0xFFFF - ret;
    }
  }

  lemma U32Absorbs(x: nat, y: nat)
    ensures U32(U32(x) + y) == U32(x + y)
  {
  }

  lemma U32Same(x: u32)
    ensures U32(x) == x
  {
  }
}
