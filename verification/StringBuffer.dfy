/** struct aem_stringbuf, as far as it is used here: bytes that grow and shrink at the end. */
module StringBuffer {
  import opened Bytes

  class StringBuf {
    var text: seq<Byte>

    constructor ()
      ensures text == []
    {
      text := [];
    }

    method Putc(c: Byte)
      modifies this
      ensures text == old(text) + [c]
    {
      text := text + [c];
    }

    method Puts(s: seq<Byte>)
      modifies this
      ensures text == old(text) + s
    {
      text := text + s;
    }
  }
}
