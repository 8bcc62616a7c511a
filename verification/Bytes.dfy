/** Bytes, C strings and the protocol limits shared by every other module. */
module Bytes {
  type Byte = x: int | 0 <= x < 256

  const TWO31: int := 0x8000_0000
  const TWO32: int := 0x1_0000_0000
  const TWO63: int := 0x8000_0000_0000_0000
  const TWO64: int := 0x1_0000_0000_0000_0000

  const MAXDATA: nat := 65536
  const MAXPATHLEN: nat := 4096
  const MAXNAMELEN: nat := 1024

  datatype Option<+T> = None | Some(value: T)

  function Min(a: int, b: int): int { if a < b then a else b }

  function Max(a: int, b: int): int { if a < b then b else a }

  /** How many pieces of at most MAXDATA bytes a request of `count` bytes needs. */
  function Pieces(count: nat): nat { (count + MAXDATA - 1) / MAXDATA }
}
