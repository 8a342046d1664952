/** struct aem_stringslice: a window into memory that operations shrink from the front. */
module StringSlice {
  import opened Bytes

  class Slice {
    const mem: seq<Byte>
    var start: nat
    var end: nat

    ghost predicate Valid()
      reads this
    {
      start <= end <= |mem|
    }

    /** The bytes still in the slice. */
    ghost function Rest(): seq<Byte>
      requires Valid()
      reads this
    {
      mem[start..end]
    }

    constructor (mem: seq<Byte>)
      ensures Valid() && this.mem == mem && Rest() == mem && start == 0
    {
      this.mem := mem;
      start, end := 0, |mem|;
    }

    /** aem_stringslice_ok. */
    predicate Ok()
      reads this
    {
      start < end
    }

    /** aem_stringslice_getc: the next byte, or -1 at the end. */
    method Getc() returns (c: int)
      requires Valid()
      modifies this`start
      ensures Valid() && start >= old(start)
      ensures old(Rest()) == [] ==> c == -1 && start == old(start)
      ensures old(Rest()) != [] ==> c == old(Rest())[0] && Rest() == old(Rest())[1..] && start == old(start) + 1
    {
      if !Ok() {
        return -1;
      }
      c := mem[start];
      start := start + 1;
    }

    /** aem_stringslice_match_prefix: skip s if the slice begins with it. */
    method MatchPrefix(s: seq<Byte>) returns (matched: bool)
      requires Valid()
      modifies this`start
      ensures Valid() && matched == (s <= old(Rest()))
      ensures matched ==> start == old(start) + |s| && Rest() == old(Rest())[|s|..]
      ensures !matched ==> start == old(start)
    {
      ghost var rest := Rest();
      var p := start;
      var i := 0;
      while i < |s|
        invariant i <= |s| && p == start + i <= end && s[..i] == rest[..i]
      {
        if p == end {
          return false;
        }
        assert rest[i] == mem[p];
        if mem[p] != s[i] {
          return false;
        }
        p := p + 1;
        i := i + 1;
      }
      assert s[..|s|] == s;
      start := p;
      assert Rest() == rest[|s|..];
      return true;
    }
  }
}
