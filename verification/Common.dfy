/** Words and results that several modules share. */
module Common {

  const PAGE_SIZE := 4096
  const U64_MAX := 0xFFFF_FFFF_FFFF_FFFF
  const U64 := 0x1_0000_0000_0000_0000

  type Byte = b: nat | b < 256

  function Max(a: nat, b: nat): nat { if a > b then a else b }

  function Min(a: nat, b: nat): nat { if a < b then a else b }

  datatype Option<+T> = None | Some(value: T)
}
