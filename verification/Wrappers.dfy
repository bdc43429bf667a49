/** Small shared pieces: an optional value and the arithmetic of unsigned machine words. */
module Wrappers {

  datatype Option<+T> = None | Some(value: T) {
    function GetOr(default: T): T {
      if Some? then value else default
    }
  }

  const U32_MAX: nat := 0xFFFF_FFFF
  const U64_MAX: nat := 0xFFFF_FFFF_FFFF_FFFF

  function Min(a: nat, b: nat): nat {
    if a <= b then a else b
  }

  function Max(a: nat, b: nat): nat {
    if a >= b then a else b
  }

  /** Subtraction that stops at zero. */
  function SatSub(a: nat, b: nat): nat {
    if a >= b then a - b else 0
  }

  /** 32-bit addition that stops at the largest value. */
  function SatAdd32(a: nat, b: nat): nat {
    Min(a + b, U32_MAX)
  }

  /** The low 32 bits. */
  function Low32(a: nat): nat {
    a % 0x1_0000_0000
  }
}
