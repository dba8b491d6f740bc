/** Options, IPv4 addresses, the machine integers of the source as bounded integers, and
    two facts about powers and sets. */
module Basics {
  type u8 = x: int | 0 <= x < 0x100
  type u16 = x: int | 0 <= x < 0x1_0000
  type u32 = x: int | 0 <= x < 0x1_0000_0000

  datatype Option<T> = None | Some(value: T)

  datatype Ip = Ip(a: u8, b: u8, c: u8, d: u8)

  /** `+` on u32, wrapping. */
  function Add32(a: u32, b: u32): u32 {
    if a + b < 0x1_0000_0000 then a + b else a + b - 0x1_0000_0000
  }

  /** `as u32`, truncating. */
  function Trunc32(n: nat): u32 {
    if n < 0x1_0000_0000 then n else n % 0x1_0000_0000
  }

  function Be16(hi: u8, lo: u8): u16 {
    hi * 0x100 + lo
  }

  function Pow2(n: nat): (r: nat)
    ensures r >= 1
  {
    if n == 0 then 1 else 2 * Pow2(n - 1)
  }

  lemma SubsetSize<T>(a: set<T>, b: set<T>)
    requires a <= b
    ensures |a| <= |b|
  {
    assert b == a + (b - a);
  }
}
