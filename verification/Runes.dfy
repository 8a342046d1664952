/** Writing and reading runes (utf8.c). Shifts and masks are divisions, remainders and sums. */
module Runes {
  import opened Bytes
  import opened Utf8
  import opened StringSlice
  import opened StringBuffer

  /** Continuation bytes announced by a first byte; INFO_LEN if no row of the table fits. */
  function Row(b: Byte): (len: nat)
    ensures len <= INFO_LEN
    ensures forall k :: 0 <= k < len ==> b - b % (INFO[k].mask + 1) != INFO[k].top
    ensures len < INFO_LEN ==> b - b % (INFO[len].mask + 1) == INFO[len].top
  {
    if b < 0x80 then 0
    else if b < 0xC0 then INFO_LEN
    else if b < 0xE0 then 1
    else if b < 0xF0 then 2
    else if b < 0xF8 then 3
    else if b < 0xFC then 4
    else 5
  }

  /** Append the low six bits of each continuation byte. */
  function Fold(c: nat, tail: seq<Byte>): nat
    decreases |tail|
  {
    if tail == [] then c else Fold(c * 64 + tail[0] % 64, tail[1..])
  }

  predicate Continuation(b: Byte) {
    0x80 <= b < 0xC0
  }

  /** What the first byte holds fits its mask. */
  lemma TopBits(c: U32)
    ensures Shift(c, RuneLen(c)) <= INFO[RuneLen(c)].mask
  {
    assert Shift(c, 1) == c / 64;
    assert Shift(c, 2) == Shift(c, 1) / 64;
    assert Shift(c, 3) == Shift(c, 2) / 64;
    assert Shift(c, 4) == Shift(c, 3) / 64;
    assert Shift(c, 5) == Shift(c, 4) / 64;
  }

  lemma {:induction false} TailShape(c: U32, len: nat)
    ensures |Tail(c, len)| == len && forall k :: 0 <= k < len ==> Continuation(Tail(c, len)[k])
  {
    if len > 0 {
      TailShape(c, len - 1);
    }
  }

  lemma FoldCons(c: nat, b: Byte, tail: seq<Byte>)
    ensures Fold(c, [b] + tail) == Fold(c * 64 + b % 64, tail)
  {
    assert ([b] + tail)[1..] == tail;
  }

  lemma {:induction false} FoldTail(c: U32, len: nat)
    requires len <= 5
    ensures Fold(Shift(c, len), Tail(c, len)) == c
  {
    if len > 0 {
      var b := 0x80 + Shift(c, len - 1) % 64;
      assert Shift(c, len) == Shift(c, len - 1) / 64;
      hide Fold, Shift;
      FoldTail(c, len - 1);
      FoldCons(Shift(c, len), b, Tail(c, len - 1));
      assert b % 64 == Shift(c, len - 1) % 64;
    }
  }

  lemma {:induction false} FoldSnoc(c: nat, tail: seq<Byte>, b: Byte)
    ensures Fold(c, tail + [b]) == Fold(c, tail) * 64 + b % 64
    decreases |tail|
  {
    if tail == [] {
      assert [] + [b] == [b];
    } else {
      FoldSnoc(c * 64 + tail[0] % 64, tail[1..], b);
      assert (tail + [b])[1..] == tail[1..] + [b];
    }
  }

  /** i continuation bytes after a first byte of row len leave room for one more. */
  function Room(len: nat, i: nat): nat
    requires len < INFO_LEN
  {
    if i == 0 then INFO[len].mask + 1 else 64 * Room(len, i - 1)
  }

  lemma RoomStep(len: nat, i: nat)
    requires i < len < INFO_LEN
    ensures Room(len, i + 1) == 64 * Room(len, i) <= 0x1_0000_0000
  {
    assert Room(len, 1) == 64 * Room(len, 0);
    assert Room(len, 2) == 64 * Room(len, 1);
    assert Room(len, 3) == 64 * Room(len, 2);
    assert Room(len, 4) == 64 * Room(len, 3);
    assert Room(len, 5) == 64 * Room(len, 4);
    assert i == 0 || i == 1 || i == 2 || i == 3 || i == 4;
  }

  lemma {:induction false} FoldBound(len: nat, top: Byte, tail: seq<Byte>)
    requires |tail| <= len < INFO_LEN && top <= INFO[len].mask
    ensures Fold(top, tail) < Room(len, |tail|) <= 0x1_0000_0000
    decreases |tail|
  {
    if tail == [] {
    } else {
      var init, last := tail[..|tail| - 1], tail[|tail| - 1];
      FoldBound(len, top, init);
      FoldSnoc(top, init, last);
      RoomStep(len, |init|);
      assert tail == init + [last];
    }
  }

  /** The rune at the front of s and the number of bytes it takes. */
  function DecodeRune(s: seq<Byte>): (r: Option<(U32, nat)>)
    ensures r.Some? ==> 1 <= r.value.1 <= |s|
  {
    if s == [] then None
    else
      var len := Row(s[0]);
      if len == INFO_LEN || |s| < 1 + len || exists k :: 1 <= k < 1 + len && !Continuation(s[k]) then None
      else
        FoldBound(len, s[0] % (INFO[len].mask + 1), s[1..1 + len]);
        Some((Fold(s[0] % (INFO[len].mask + 1), s[1..1 + len]), 1 + len))
  }

  lemma RowOfTop(len: nat, top: nat)
    requires len < INFO_LEN && top <= INFO[len].mask
    ensures INFO[len].top + top < 0x100 && Row(INFO[len].top + top) == len
    ensures (INFO[len].top + top) % (INFO[len].mask + 1) == top
  {
    assert len == 0 || len == 1 || len == 2 || len == 3 || len == 4 || len == 5;
  }

  /** The first byte of an encoding says how many bytes follow, and its value can be read back. */
  lemma FirstByte(c: U32)
    ensures Row(EncodeRune(c)[0]) == RuneLen(c)
    ensures EncodeRune(c)[0] % (INFO[RuneLen(c)].mask + 1) == Shift(c, RuneLen(c))
  {
    TopBits(c);
    RowOfTop(RuneLen(c), Shift(c, RuneLen(c)));
    hide Shift, Row, Tail;
    assert EncodeRune(c)[0] == INFO[RuneLen(c)].top + Shift(c, RuneLen(c)) % (INFO[RuneLen(c)].mask + 1);
  }

  /** Every 32-bit value survives encoding and decoding, whatever bytes follow. */
  lemma DecodeEncode(c: U32, post: seq<Byte>)
    ensures DecodeRune(EncodeRune(c) + post) == Some((c, |EncodeRune(c)|))
  {
    var len, s := RuneLen(c), EncodeRune(c) + post;
    FirstByte(c);
    TailShape(c, len);
    FoldTail(c, len);
    hide Shift, Row, Fold, Tail;
    assert s[0] == EncodeRune(c)[0];
    assert s[1..1 + len] == Tail(c, len);
    assert forall k :: 1 <= k < 1 + len ==> s[k] == Tail(c, len)[k - 1];
  }

  lemma Shifts(c: U32)
    ensures Shift(c, 0) == c && Shift(c, 1) == c / 0x40 && Shift(c, 2) == c / 0x1000
    ensures Shift(c, 3) == c / 0x4_0000 && Shift(c, 4) == c / 0x100_0000 && Shift(c, 5) == c / 0x4000_0000
  {
    assert Shift(c, 1) == Shift(c, 0) / 64;
    assert Shift(c, 2) == Shift(c, 1) / 64;
    assert Shift(c, 3) == Shift(c, 2) / 64;
    assert Shift(c, 4) == Shift(c, 3) / 64;
    assert Shift(c, 5) == Shift(c, 4) / 64;
  }

  lemma Tails(c: U32)
    ensures Tail(c, 0) == [] && Tail(c, 1) == [0x80 + Shift(c, 0) % 64]
    ensures Tail(c, 2) == [0x80 + Shift(c, 1) % 64] + Tail(c, 1)
    ensures Tail(c, 3) == [0x80 + Shift(c, 2) % 64] + Tail(c, 2)
    ensures Tail(c, 4) == [0x80 + Shift(c, 3) % 64] + Tail(c, 3)
    ensures Tail(c, 5) == [0x80 + Shift(c, 4) % 64] + Tail(c, 4)
  {
    hide Shift;
  }

  /** The bits of a rune from the front: what section 3 of RFC 3629 says, continued to six bytes. */
  lemma EncodingForms(c: U32)
    ensures c <= 0x7F ==> EncodeRune(c) == [c]
    ensures 0x7F < c <= 0x7FF ==> EncodeRune(c) == [0xC0 + c / 0x40, 0x80 + c % 0x40]
    ensures 0x7FF < c <= 0xFFFF ==>
      EncodeRune(c) == [0xE0 + c / 0x1000, 0x80 + c / 0x40 % 0x40, 0x80 + c % 0x40]
    ensures 0xFFFF < c <= 0x1F_FFFF ==>
      EncodeRune(c) == [0xF0 + c / 0x4_0000, 0x80 + c / 0x1000 % 0x40, 0x80 + c / 0x40 % 0x40, 0x80 + c % 0x40]
    ensures 0x1F_FFFF < c <= 0x3FF_FFFF ==>
      EncodeRune(c) == [0xF8 + c / 0x100_0000, 0x80 + c / 0x4_0000 % 0x40, 0x80 + c / 0x1000 % 0x40,
                        0x80 + c / 0x40 % 0x40, 0x80 + c % 0x40]
    ensures c > 0x3FF_FFFF ==>
      EncodeRune(c) == [0xFC + c / 0x4000_0000, 0x80 + c / 0x100_0000 % 0x40, 0x80 + c / 0x4_0000 % 0x40,
                        0x80 + c / 0x1000 % 0x40, 0x80 + c / 0x40 % 0x40, 0x80 + c % 0x40]
  {
    Shifts(c);
    Tails(c);
    hide Shift, Tail;
  }

  /** The table row of a rune. */
  method FindLength(c: U32) returns (len: nat)
    ensures len == RuneLen(c) < INFO_LEN
  {
    len := 0;
    while len < INFO_LEN - 1
      invariant len <= RuneLen(c)
    {
      if c <= INFO[len].max {
        break;
      }
      len := len + 1;
    }
  }

  lemma TailStep(c: U32, len: nat)
    ensures Tail(c, 0) == []
    ensures len > 0 ==> Tail(c, len) == [0x80 + Shift(c, len - 1) % 64] + Tail(c, len - 1)
  {
  }

  /** aem_stringbuf_put_rune. */
  method PutRune(str: StringBuf, c: U32)
    modifies str
    ensures str.text == old(str.text) + EncodeRune(c)
  {
    var len := FindLength(c);
    hide Shift, RuneLen, Tail;
    var info := INFO[len];
    var shift := len;
    str.Putc(info.top + Shift(c, shift) % (info.mask + 1));
    while len > 0
      invariant shift == len
      invariant str.text + Tail(c, len) == old(str.text) + EncodeRune(c)
    {
      TailStep(c, len);
      len := len - 1;
      shift := shift - 1;
      ghost var before := str.text;
      str.Putc(0x80 + Shift(c, shift) % 64);
      Concat(before, [0x80 + Shift(c, shift) % 64], Tail(c, len));
    }
    TailStep(c, 0);
  }

  /** The table row of a first byte. */
  method FindRow(c: Byte) returns (len: nat)
    ensures len == Row(c)
  {
    len := 0;
    while len < INFO_LEN
      invariant len <= Row(c)
    {
      var info := INFO[len];
      if c - c % (info.mask + 1) == info.top {
        break;
      }
      len := len + 1;
    }
  }

  lemma DecodeFails(s: seq<Byte>)
    requires
      || s == [] || Row(s[0]) == INFO_LEN || |s| < 1 + Row(s[0])
      || exists k :: 1 <= k < 1 + Row(s[0]) && !Continuation(s[k])
    ensures DecodeRune(s) == None
  {
  }

  lemma DecodeSucceeds(s: seq<Byte>)
    requires s != [] && Row(s[0]) < INFO_LEN && |s| >= 1 + Row(s[0])
    requires forall k :: 1 <= k < 1 + Row(s[0]) ==> Continuation(s[k])
    ensures DecodeRune(s) == Some((Fold(s[0] % (INFO[Row(s[0])].mask + 1), s[1..1 + Row(s[0])]), 1 + Row(s[0])))
  {
  }

  lemma TailFails(s: seq<Byte>, len: nat, tail: seq<Byte>)
    requires s != [] && tail == s[1..] && len == Row(s[0]) < INFO_LEN
    requires !(len <= |tail| && forall k :: 0 <= k < len ==> Continuation(tail[k]))
    ensures DecodeRune(s) == None
  {
    if len <= |tail| {
      var k :| 0 <= k < len && !Continuation(tail[k]);
      assert s[k + 1] == tail[k];
    }
    DecodeFails(s);
  }

  /** The continuation bytes. */
  method GetTail(slice: Slice, len: nat, top: Byte) returns (ok: bool, c: U32)
    requires slice.Valid() && len < INFO_LEN && top == Fold(top, []) < Room(len, 0)
    modifies slice`start
    ensures slice.Valid()
    ensures ok <==> len <= |old(slice.Rest())| && forall k :: 0 <= k < len ==> Continuation(old(slice.Rest())[k])
    ensures ok ==> slice.start == old(slice.start) + len && c == Fold(top, old(slice.Rest())[..len])
  {
    hide Fold, Room;
    ghost var s := slice.Rest();
    c := top;
    for i := 0 to len
      invariant slice.Valid() && slice.start == old(slice.start) + i
      invariant forall k :: 0 <= k < i ==> Continuation(s[k])
      invariant c == Fold(top, s[..i]) < Room(len, i)
    {
      var c2 := slice.Getc();
      assert c2 >= 0 ==> c2 == s[i] && (Continuation(c2) <==> c2 - c2 % 64 == 0x80);
      if c2 < 0 || c2 - c2 % 64 != 0x80 {
        return false, c;
      }
      RoomStep(len, i);
      FoldSnoc(top, s[..i], c2);
      assert s[..i] + [c2] == s[..i + 1];
      c := (c * 64) % 0x1_0000_0000 + c2 % 64;
    }
    return true, c;
  }

  lemma RoomStart(len: nat, top: Byte)
    requires len < INFO_LEN && top <= INFO[len].mask
    ensures Fold(top, []) == top < Room(len, 0)
  {
  }

  /** aem_stringslice_get_rune: on failure the slice stays where it was. */
  method GetRune(slice: Slice) returns (ok: bool, c: U32)
    requires slice.Valid()
    modifies slice`start
    ensures slice.Valid() && ok == DecodeRune(old(slice.Rest())).Some?
    ensures !ok ==> slice.start == old(slice.start)
    ensures ok ==> c == DecodeRune(old(slice.Rest())).value.0
    ensures ok ==> slice.start == old(slice.start) + DecodeRune(old(slice.Rest())).value.1
  {
    hide DecodeRune;
    ghost var s := slice.Rest();
    var out := slice.start;
    c := 0;
    var c0 := slice.Getc();
    if c0 < 0 {
      DecodeFails(s);
      return false, c;
    }
    c := c0;
    var len := FindRow(c);
    hide Row, Fold, Room;
    if len >= INFO_LEN {
      DecodeFails(s);
      slice.start := out;
      return false, c;
    }
    c := c % (INFO[len].mask + 1);
    RoomStart(len, c);
    ghost var tail := slice.Rest();
    ok, c := GetTail(slice, len, c);
    if ok {
      assert tail[..len] == s[1..1 + len];
      assert forall k :: 1 <= k < 1 + len ==> s[k] == tail[k - 1];
      DecodeSucceeds(s);
    } else {
      TailFails(s, len, tail);
      slice.start := out;
    }
  }

  // ----- whole strings -----

  function EncodeAll(runes: seq<U32>): seq<Byte> {
    if runes == [] then [] else EncodeRune(runes[0]) + EncodeAll(runes[1..])
  }

  /** Rune by rune; a byte that starts no rune stands for itself. */
  function DecodeAll(s: seq<Byte>): seq<U32>
    decreases |s|
  {
    if s == [] then []
    else match DecodeRune(s)
      case Some((c, n)) => [c] + DecodeAll(s[n..])
      case None => [s[0]] + DecodeAll(s[1..])
  }

  /** Encodings put one after another decode to the runes they came from. */
  lemma {:induction false} DecodeEncodeAll(runes: seq<U32>)
    ensures DecodeAll(EncodeAll(runes)) == runes
  {
    if runes != [] {
      var first, rest := EncodeRune(runes[0]), EncodeAll(runes[1..]);
      DecodeEncode(runes[0], rest);
      DecodeEncodeAll(runes[1..]);
      hide DecodeRune, EncodeRune;
      assert (first + rest)[|first|..] == rest;
    }
  }

  // ----- overlong sequences -----

  lemma {:induction false} ShiftDown(c: U32, k: nat)
    ensures Shift(c, k + 1) == Shift(c / 64, k)
  {
    if k > 0 {
      ShiftDown(c, k - 1);
    } else {
      assert Shift(c, 1) == Shift(c, 0) / 64;
    }
  }

  lemma {:induction false} TailDown(c: U32, k: nat)
    ensures Tail(c, k + 1) == Tail(c / 64, k) + [0x80 + c % 64]
  {
    if k > 0 {
      TailDown(c, k - 1);
      ShiftDown(c, k - 1);
    } else {
      assert Tail(c, 0) == Tail(c / 64, 0) == [] && Shift(c, 0) == c;
    }
  }

  lemma LastBits(c: U32, front: nat, last: Byte)
    requires c == front * 64 + last % 64 && Continuation(last)
    ensures c / 64 == front && 0x80 + c % 64 == last
  {
  }

  /** Reading the bits back in the order they were written. */
  lemma {:induction false} Unfold(top: nat, tail: seq<Byte>, c: U32)
    requires c == Fold(top, tail) && forall k :: 0 <= k < |tail| ==> Continuation(tail[k])
    ensures Shift(c, |tail|) == top && Tail(c, |tail|) == tail
    decreases |tail|
  {
    if tail != [] {
      var init, last := tail[..|tail| - 1], tail[|tail| - 1];
      assert tail == init + [last];
      FoldSnoc(top, init, last);
      LastBits(c, Fold(top, init), last);
      hide Fold, Shift, Tail;
      Unfold(top, init, c / 64);
      ShiftDown(c, |init|);
      TailDown(c, |init|);
    }
  }

  lemma RoomMax(len: nat)
    requires len < INFO_LEN
    ensures Room(len, len) == INFO[len].max + 1
  {
    assert Room(len, 1) == 64 * Room(len, 0);
    assert Room(len, 2) == 64 * Room(len, 1);
    assert Room(len, 3) == 64 * Room(len, 2);
    assert Room(len, 4) == 64 * Room(len, 3);
    assert Room(len, 5) == 64 * Room(len, 4);
  }

  /** A sequence that is longer than its value needs, by its first two bytes. */
  predicate Overlong(s: seq<Byte>) {
    && |s| >= 2
    && (|| s[0] == 0xC0 || s[0] == 0xC1 || (s[0] == 0xE0 && s[1] < 0xA0) || (s[0] == 0xF0 && s[1] < 0x90)
        || (s[0] == 0xF8 && s[1] < 0x88) || (s[0] == 0xFC && s[1] < 0x84))
  }

  function Enough(len: nat): nat {
    if len == 1 then 0x80 else if len == 2 then 32 else if len == 3 then 16 else if len == 4 then 8 else 4
  }

  /** One byte less would have been enough for values whose upper part is as small as this. */
  lemma NeedsFewer(c: U32, len: nat)
    requires 1 <= len < INFO_LEN
    ensures RuneLen(c) < len <==> Shift(c, len - 1) < Enough(len)
  {
    assert Shift(c, 1) == c / 64;
    assert Shift(c, 2) == Shift(c, 1) / 64;
    assert Shift(c, 3) == Shift(c, 2) / 64;
    assert Shift(c, 4) == Shift(c, 3) / 64;
  }

  lemma FirstTwoBytes(s: seq<Byte>)
    requires |s| >= 2 && 1 <= Row(s[0]) < INFO_LEN && Continuation(s[1])
    ensures s[0] % (INFO[Row(s[0])].mask + 1) * 64 + s[1] % 64 < Enough(Row(s[0])) <==> Overlong(s)
  {
    assert s[1] % 64 == s[1] - 0x80;
  }

  lemma OverlongExactly(s: seq<Byte>, c: U32, n: nat)
    requires DecodeRune(s) == Some((c, n))
    ensures RuneLen(c) < n - 1 <==> Overlong(s)
  {
    var len, top := Row(s[0]), s[0] % (INFO[Row(s[0])].mask + 1);
    if len > 0 {
      assert [s[1]] + s[2..n] == s[1..n];
      FoldCons(top, s[1], s[2..n]);
      Unfold(top * 64 + s[1] % 64, s[2..n], c);
      NeedsFewer(c, len);
      assert Continuation(s[1]);
      hide Fold, Shift, Tail, RuneLen, Enough, DecodeRune, Row;
      FirstTwoBytes(s);
    } else {
      assert c == Fold(s[0] % 128, []);
    }
  }

  lemma FitsRow(c: U32, len: nat)
    requires len < INFO_LEN && c <= INFO[len].max
    ensures RuneLen(c) <= len
  {
  }

  lemma EncodeByRow(c: U32)
    ensures var len := RuneLen(c);
            && |EncodeRune(c)| == 1 + len
            && EncodeRune(c) == [INFO[len].top + Shift(c, len) % (INFO[len].mask + 1)] + Tail(c, len)
  {
    TailShape(c, RuneLen(c));
  }

  lemma DecodeParts(s: seq<Byte>, c: U32, n: nat)
    requires DecodeRune(s) == Some((c, n))
    ensures n == 1 + Row(s[0]) <= INFO_LEN && n <= |s|
    ensures var info := INFO[Row(s[0])]; var top := s[0] % (info.mask + 1);
            top <= info.mask && s[0] == info.top + top % (info.mask + 1) && c == Fold(top, s[1..n])
    ensures forall k :: 0 <= k < n - 1 ==> Continuation(s[1..n][k])
    ensures s[..n] == [s[0]] + s[1..n]
  {
    hide Fold;
  }

  lemma ReencodeByLength(s: seq<Byte>, c: U32, n: nat)
    requires DecodeRune(s) == Some((c, n))
    ensures 1 + RuneLen(c) <= n
    ensures s[..n] == EncodeRune(c) <==> n == 1 + RuneLen(c)
  {
    DecodeParts(s, c, n);
    var len, top, tail := Row(s[0]), s[0] % (INFO[Row(s[0])].mask + 1), s[1..n];
    hide *;
    FoldBound(len, top, tail);
    RoomMax(len);
    Unfold(top, tail, c);
    FitsRow(c, len);
    EncodeByRow(c);
    assert n == 1 + RuneLen(c) ==> EncodeRune(c) == [s[0]] + tail;
  }

  /**
   The decoder takes more than the encoder writes: a sequence may be longer than its value needs,
   which the comment above the table calls illegal. Encoding the value again gives the same bytes
   exactly when the sequence was as short as possible, which its first two bytes tell.
   */
  lemma Reencode(s: seq<Byte>, c: U32, n: nat)
    requires DecodeRune(s) == Some((c, n))
    ensures 1 + RuneLen(c) <= n
    ensures s[..n] == EncodeRune(c) <==> !Overlong(s)
  {
    ReencodeByLength(s, c, n);
    OverlongExactly(s, c, n);
  }

  /** Every byte belongs to a sequence that decodes, and none is longer than it need be. */
  predicate WellEncoded(s: seq<Byte>)
    decreases |s|
  {
    s == [] || match DecodeRune(s)
      case None => false
      case Some((_, n)) => !Overlong(s) && WellEncoded(s[n..])
  }

  lemma {:induction false} EncodingsAreWell(runes: seq<U32>)
    ensures WellEncoded(EncodeAll(runes))
  {
    if runes != [] {
      var first, rest := EncodeRune(runes[0]), EncodeAll(runes[1..]);
      var s := first + rest;
      DecodeEncode(runes[0], rest);
      Reencode(s, runes[0], |first|);
      EncodingsAreWell(runes[1..]);
      hide DecodeRune, Overlong, EncodeRune;
      assert s[..|first|] == first && s[|first|..] == rest;
    }
  }

  lemma EncodeAllCons(c: U32, rest: seq<U32>)
    ensures EncodeAll([c] + rest) == EncodeRune(c) + EncodeAll(rest)
  {
    assert ([c] + rest)[1..] == rest;
  }

  lemma WellFront(s: seq<Byte>) returns (c: U32, n: nat)
    requires WellEncoded(s) && s != []
    ensures 0 < n <= |s| && WellEncoded(s[n..]) && s == EncodeRune(c) + s[n..]
  {
    hide DecodeRune, Overlong, EncodeRune;
    var front := DecodeRune(s).value;
    c, n := front.0, front.1;
    Reencode(s, c, n);
  }

  lemma {:induction false} WellIsEncodings(s: seq<Byte>) returns (runes: seq<U32>)
    requires WellEncoded(s)
    ensures s == EncodeAll(runes)
    decreases |s|
  {
    runes := [];
    if s != [] {
      var c, n := WellFront(s);
      hide *;
      var rest := WellIsEncodings(s[n..]);
      runes := [c] + rest;
      EncodeAllCons(c, rest);
    }
  }

  /** The well-encoded texts are the sequences of encodings. */
  lemma WellEncodedExactly(s: seq<Byte>)
    ensures WellEncoded(s) <==> exists runes :: s == EncodeAll(runes)
  {
    if WellEncoded(s) {
      var _ := WellIsEncodings(s);
    }
    if runes :| s == EncodeAll(runes) {
      EncodingsAreWell(runes);
    }
  }

  /** The two-byte form of NUL is decoded all the same. */
  lemma OverlongNul()
    ensures DecodeRune([0xC0, 0x80]) == Some((0, 2)) && EncodeRune(0) == [0] && Overlong([0xC0, 0x80])
  {
    AsciiRune(0);
    assert [0xC0, 0x80][1..2] == [0x80];
    FoldCons(0, 0x80, []);
    assert [0x80] + [] == [0x80];
  }
}
