/** The machine integers of the program: bounded views of Dafny's unbounded `int`. */
module MachineIntegers {

  type byte = x: int | 0 <= x < 0x100
  type u16 = x: int | 0 <= x < 0x1_0000
  type u32 = x: int | 0 <= x < 0x1_0000_0000
  type u64 = x: int | 0 <= x < 0x1_0000_0000_0000_0000

  /** The conversions of C++: reduction modulo the width, also for negative values. */
  function U16(x: int): u16 { x % 0x1_0000 }

  function U32(x: int): u32 { x % 0x1_0000_0000 }

  function U64(x: int): u64 { x % 0x1_0000_0000_0000_0000 }

  /** Conversion never grows a value, and keeps one that fits. */
  lemma U64Same(x: nat)
    ensures U64(x) <= x
    ensures x < 0x1_0000_0000_0000_0000 ==> U64(x) == x
  {
  }

  function Pow2(n: nat): nat { if n == 0 then 1 else 2 * Pow2(n - 1) }

  function Min(a: int, b: int): int { if a < b then a else b }

  function Max(a: int, b: int): int { if a > b then a else b }
}
