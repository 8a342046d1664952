/** The 32-bit UTF-8 scheme (utf8.c). */
module Utf8 {
  import opened Bytes

  /** c >> 6*k. */
  function Shift(c: U32, k: nat): U32 {
    if k == 0 then c else Shift(c, k - 1) / 64
  }

  const INFO_LEN: nat := 6

  datatype Info = Info(max: U32, top: Byte, mask: Byte)

  /** The table: row `len` describes sequences with `len` continuation bytes. */
  const INFO: seq<Info> := [
    Info(0x0000_007F, 0x00, 0x7F),
    Info(0x0000_07FF, 0xC0, 0x1F),
    Info(0x0000_FFFF, 0xE0, 0x0F),
    Info(0x001F_FFFF, 0xF0, 0x07),
    Info(0x03FF_FFFF, 0xF8, 0x03),
    Info(0xFFFF_FFFF, 0xFC, 0x03)]

  /** Number of continuation bytes of a rune. */
  function RuneLen(c: U32): nat {
    if c <= 0x7F then 0
    else if c <= 0x7FF then 1
    else if c <= 0xFFFF then 2
    else if c <= 0x1F_FFFF then 3
    else if c <= 0x3FF_FFFF then 4
    else 5
  }

  /** The `len` continuation bytes that carry the low 6*len bits of c. */
  function Tail(c: U32, len: nat): seq<Byte> {
    if len == 0 then [] else [0x80 + Shift(c, len - 1) % 64] + Tail(c, len - 1)
  }

  function EncodeRune(c: U32): seq<Byte> {
    var len := RuneLen(c);
    [INFO[len].top + Shift(c, len) % (INFO[len].mask + 1)] + Tail(c, len)
  }

  lemma AsciiRune(c: U32)
    requires c <= 0x7F
    ensures EncodeRune(c) == [c]
  {
    assert RuneLen(c) == 0 && Tail(c, 0) == [];
  }
}
