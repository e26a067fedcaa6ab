/** 32-bit sizes and the words they round up to. */
module Sizes {

  const SIZE_SPAN: nat := 0x1_0000_0000   // a 32-bit size wraps here

  /** RT_ALIGN(size, 4) in words; the addition wraps at 32 bits. */
  function AlignedWords(size: nat): nat {
    (size + 3) % SIZE_SPAN / 4
  }

  function Larger(a: int, b: int): int {
    if a < b then b else a
  }

  function SmallerOf(a: int, b: nat): nat {
    if a < 0 then 0 else if a < b then a else b
  }
}
