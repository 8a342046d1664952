/** Types and a lemma on sequences that every component shares. */
module Bytes {
  type Byte = x: int | 0 <= x < 0x100
  type U32 = x: int | 0 <= x < 0x1_0000_0000

  const UINT_MAX: int := 0xFFFF_FFFF

  datatype Option<T> = None | Some(value: T)

  lemma Concat<T>(x: seq<T>, y: seq<T>, z: seq<T>)
    ensures (x + y) + z == x + (y + z)
  {
  }
}
