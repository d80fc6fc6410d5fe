// Number types and the arithmetic macros that the other modules share.

module Basics {
  type byte = b: nat | b < 256
  type u16 = n: nat | n < 0x1_0000
  type u32 = n: nat | n < 0x1_0000_0000

  function Max(a: nat, b: nat): nat { if a < b then b else a }

  function Min(a: nat, b: nat): nat { if a < b then a else b }

  function DivRoundUp(x: nat, d: nat): nat
    requires d > 0
  {
    (x + d - 1) / d
  }
}
