/** Escaping and unescaping of strings (translate.c). */
module Translate {
  import opened Bytes
  import opened Utf8
  import opened Runes
  import opened StringSlice
  import opened StringBuffer

  const BACKSLASH: Byte := 92

  // ----- hexadecimal digits -----

  /** c >> 4*k. */
  function Nibbles(c: U32, k: nat): U32 {
    if k == 0 then c else Nibbles(c, k - 1) / 16
  }

  function HexDigit(d: nat): Byte
    requires d < 16
  {
    if d < 10 then 48 + d else 97 + (d - 10)
  }

  /** The low n hexadecimal digits of c, as printf writes them with %0nx. */
  function Hex(c: U32, n: nat): (s: seq<Byte>)
    ensures |s| == n
  {
    if n == 0 then [] else [HexDigit(Nibbles(c, n - 1) % 16)] + Hex(c, n - 1)
  }

  function DigitValue(d: Byte): (r: Option<nat>)
    ensures r.Some? ==> r.value < 16
  {
    if 48 <= d <= 57 then Some(d - 48)
    else if 65 <= d <= 70 then Some(d - 65 + 10)
    else if 97 <= d <= 102 then Some(d - 97 + 10)
    else None
  }

  /** A result that took k more bytes to reach. */
  function After(k: nat, r: Option<(U32, nat)>): Option<(U32, nat)> {
    match r
    case Some((c, n)) => Some((c, n + k))
    case None => None
  }

  /** Read len digits, or, if len is negative, digits up to a closing brace, on top of c. */
  function ReadHex(c: U32, s: seq<Byte>, len: int): (r: Option<(U32, nat)>)
    ensures r.Some? ==> r.value.1 <= |s|
    decreases |s|
  {
    if len == 0 then Some((c, 0))
    else if s == [] then None
    else match DigitValue(s[0])
      case Some(d) =>
        After(1, ReadHex((c * 16) % 0x1_0000_0000 + d, s[1..], len - 1))
      case None => if s[0] == 125 && len < 0 then Some((c, 1)) else None
  }

  lemma ReadHexStep(c: U32, s: seq<Byte>, len: int, d: nat)
    requires len != 0 && s != [] && DigitValue(s[0]) == Some(d)
    ensures ReadHex(c, s, len) == After(1, ReadHex((c * 16) % 0x1_0000_0000 + d, s[1..], len - 1))
  {
  }

  lemma LowNibble(v: U32)
    ensures (v / 16 * 16) % 0x1_0000_0000 + v % 16 == v
  {
    assert v / 16 * 16 < 0x1_0000_0000;
  }

  lemma {:induction false} ReadHexOfHex(c: U32, n: nat, post: seq<Byte>)
    ensures ReadHex(Nibbles(c, n), Hex(c, n) + post, n) == Some((c, n))
  {
    if n > 0 {
      var v, d := Nibbles(c, n - 1), Nibbles(c, n - 1) % 16;
      var s := Hex(c, n) + post;
      assert Nibbles(c, n) == v / 16;
      assert s[0] == HexDigit(d) && s[1..] == Hex(c, n - 1) + post;
      assert DigitValue(HexDigit(d)) == Some(d);
      hide ReadHex, Hex, HexDigit, Nibbles, DigitValue;
      ReadHexOfHex(c, n - 1, post);
      LowNibble(v);
      ReadHexStep(v / 16, s, n, d);
    }
  }

  // ----- escaping -----

  /** The letter after the backslash, for the runes that have a named escape. */
  function NamedEscape(c: U32): Option<Byte> {
    if c == 10 then Some(110)
    else if c == 13 then Some(114)
    else if c == 9 then Some(116)
    else if c == 0 then Some(48)
    else if c == 34 || c == 92 || c == 32 then Some(c)
    else None
  }

  function EscapeOf(c: U32): seq<Byte> {
    if NamedEscape(c).Some? then [BACKSLASH, NamedEscape(c).value]
    else if 32 <= c < 127 then [c]
    else if c < 0x100 then [BACKSLASH, 120] + Hex(c, 2)
    else if c < 0x1_0000 then [BACKSLASH, 117] + Hex(c, 4)
    else [BACKSLASH, 85] + Hex(c, 8)
  }

  function EscapeRunes(runes: seq<U32>): seq<Byte> {
    if runes == [] then [] else EscapeOf(runes[0]) + EscapeRunes(runes[1..])
  }

  // ----- unescaping -----

  /** What stands for itself or has a one-letter escape; the flag tells the two apart. */
  function Letter(c: U32): (U32, nat) {
    if c == 48 then (0, 1)
    else if c == 101 then (27, 1)
    else if c == 102 then (12, 1)
    else if c == 116 then (9, 1)
    else if c == 110 then (10, 1)
    else if c == 114 then (13, 1)
    else if c == 118 then (11, 1)
    else (c, 2)
  }

  /** How many digits there are without braces. */
  function Digits(letter: U32): nat {
    if letter == 120 then 2 else if letter == 117 then 4 else 8
  }

  /** After \x, \u or \U: the digits, in braces or of the length that goes with the letter. */
  function NumberAfter(letter: U32, s: seq<Byte>): (r: Option<(U32, nat)>)
    ensures r.Some? ==> r.value.1 <= |s|
  {
    if s != [] && s[0] == 123 then
      After(1, ReadHex(0, s[1..], -1))
    else ReadHex(0, s, Digits(letter))
  }

  /** The rune at the front of an escaped string, the kind of escape, and the bytes it takes. */
  function UnescapeFront(s: seq<Byte>): (r: Option<(U32, nat, nat)>)
    ensures r.Some? ==> 1 <= r.value.2 <= |s|
  {
    var esc := s != [] && s[0] == BACKSLASH;
    var t := if esc then s[1..] else s;
    match DecodeRune(t)
    case None => if esc then Some((BACKSLASH, 0, 1)) else None
    case Some((c, k)) =>
      if !esc then Some((c, 0, k))
      else if c == 120 || c == 117 || c == 85 then
        (match NumberAfter(c, t[k..])
         case Some((v, n)) => Some((v, 1, 1 + k + n))
         case None => None)
      else Some((Letter(c).0, Letter(c).1, 1 + k))
  }

  function UnescapeAll(s: seq<Byte>): seq<Byte>
    decreases |s|
  {
    if s == [] then []
    else match UnescapeFront(s)
      case Some((c, _, n)) => EncodeRune(c) + UnescapeAll(s[n..])
      case None => [s[0]] + UnescapeAll(s[1..])
  }

  // ----- what escapes stand for -----

  lemma AsciiFront(b: U32, post: seq<Byte>)
    requires b <= 0x7F
    ensures DecodeRune([b] + post) == Some((b, 1))
  {
    AsciiRune(b);
    DecodeEncode(b, post);
  }

  /** An escape sequence made of a backslash and an ASCII letter that takes no number. */
  lemma FrontOfLetter(b: U32, post: seq<Byte>)
    requires b <= 0x7F && b != 120 && b != 117 && b != 85
    ensures UnescapeFront([BACKSLASH, b] + post) == Some((Letter(b).0, Letter(b).1, 2))
  {
    AsciiFront(b, post);
    assert ([BACKSLASH, b] + post)[1..] == [b] + post;
  }

  /** The letters of the escapes that stand for something else, each with what it stands for. */
  const LETTERS: set<(U32, U32)> := {(48, 0), (101, 27), (102, 12), (116, 9), (110, 10), (114, 13), (118, 11)}

  predicate Stands(letter: U32, v: U32) {
    (letter, v) in LETTERS
  }

  ghost predicate Plain(letter: U32) {
    forall v :: !Stands(letter, v)
  }

  /** A backslash and one of these letters, and only that, is an escape of the first kind that takes two bytes. */
  lemma LetterEscapes(b: U32, post: seq<Byte>)
    requires b <= 0x7F && b != 120 && b != 117 && b != 85
    ensures forall v :: Stands(b, v) ==> UnescapeFront([BACKSLASH, b] + post) == Some((v, 1, 2))
    ensures Plain(b) ==> UnescapeFront([BACKSLASH, b] + post) == Some((b, 2, 2))
  {
    FrontOfLetter(b, post);
    hide UnescapeFront;
    assert Stands(b, Letter(b).0) <==> Letter(b).1 == 1;
  }

  /** So that is what such a text is unescaped to. */
  lemma LettersUnescape(b: U32, v: U32)
    requires Stands(b, v)
    ensures UnescapeAll([BACKSLASH, b]) == [v]
  {
    LetterEscapes(b, []);
    assert [BACKSLASH, b] + [] == [BACKSLASH, b];
    AsciiRune(v);
    assert [BACKSLASH, b][2..] == [];
  }

  /** A rune that is no backslash is itself. */
  lemma RuneFront(c: U32, n: nat, post: seq<Byte>)
    requires c != 92 && n == |EncodeRune(c)|
    ensures UnescapeFront(EncodeRune(c) + post) == Some((c, 0, n))
  {
    DecodeEncode(c, post);
    FirstByte(c);
    assert (EncodeRune(c) + post)[0] == EncodeRune(c)[0];
    hide EncodeRune, DecodeRune;
  }

  /** So is one outside ASCII behind a backslash, but as an escape of the second kind. */
  lemma EscapedRuneFront(c: U32, n: nat, post: seq<Byte>)
    requires c > 0x7F && n == 1 + |EncodeRune(c)|
    ensures UnescapeFront([BACKSLASH] + EncodeRune(c) + post) == Some((c, 2, n))
  {
    DecodeEncode(c, post);
    hide EncodeRune, DecodeRune;
    assert ([BACKSLASH] + EncodeRune(c) + post)[1..] == EncodeRune(c) + post;
  }

  lemma NumberFront(letter: U32, rest: seq<Byte>, v: U32, k: nat, n: nat)
    requires letter in {120, 117, 85} && NumberAfter(letter, rest) == Some((v, k)) && n == k + 2
    ensures UnescapeFront([BACKSLASH, letter] + rest) == Some((v, 1, n))
  {
    AsciiFront(letter, rest);
    hide DecodeRune, NumberAfter;
    assert ([BACKSLASH, letter] + rest)[1..] == [letter] + rest && ([letter] + rest)[1..] == rest;
  }

  predicate AllHex(digits: seq<Byte>) {
    forall k :: 0 <= k < |digits| ==> DigitValue(digits[k]).Some?
  }

  /** The number that hexadecimal digits stand for, read on top of c; it has no limit. */
  function HexNumber(c: nat, digits: seq<Byte>): nat
    requires AllHex(digits)
  {
    if digits == [] then c
    else HexNumber(c, digits[..|digits| - 1]) * 16 + DigitValue(digits[|digits| - 1]).value
  }

  lemma {:induction false} HexNumberFront(c: nat, d: Byte, digits: seq<Byte>)
    requires DigitValue(d).Some? && AllHex(digits)
    ensures AllHex([d] + digits)
    ensures HexNumber(c, [d] + digits) == HexNumber(c * 16 + DigitValue(d).value, digits)
  {
    var all := [d] + digits;
    if digits == [] {
      assert all[..0] == [];
    } else {
      HexNumberFront(c, d, digits[..|digits| - 1]);
      assert all[..|all| - 1] == [d] + digits[..|digits| - 1];
    }
  }

  lemma Remainder(x: int, y: int)
    requires 0 <= y < 0x1_0000_0000
    ensures (x * 0x1_0000_0000 + y) % 0x1_0000_0000 == y
  {
  }

  lemma WrapNibble(c: nat, d: nat)
    requires d < 16
    ensures (c % 0x1_0000_0000 * 16) % 0x1_0000_0000 + d == (c * 16 + d) % 0x1_0000_0000
  {
    var high, low := c / 0x1000_0000, c % 0x1000_0000;
    assert c == high * 0x1000_0000 + low;
    Remainder(high, low * 16 + d);
    Remainder(high, low * 16);
    Remainder(-(c / 0x1_0000_0000) * 16 + high, low * 16);
    assert c % 0x1_0000_0000 == c - c / 0x1_0000_0000 * 0x1_0000_0000;
  }

  lemma AfterOne(n: nat, r: Option<(U32, nat)>)
    requires n > 0
    ensures After(1, After(n - 1, r)) == After(n, r)
  {
  }

  lemma FirstHex(digits: seq<Byte>, post: seq<Byte>)
    requires AllHex(digits) && digits != []
    ensures DigitValue(digits[0]).Some? && AllHex(digits[1..]) && digits == [digits[0]] + digits[1..]
    ensures (digits + post)[0] == digits[0] && (digits + post)[1..] == digits[1..] + post
  {
  }

  /** The code reads such a number with the arithmetic of 32 bits. */
  lemma {:induction false} ReadHexDigits(c: nat, digits: seq<Byte>, post: seq<Byte>, len: int)
    requires AllHex(digits) && (len < 0 || len >= |digits|)
    ensures ReadHex(c % 0x1_0000_0000, digits + post, len)
      == After(|digits|, ReadHex(HexNumber(c, digits) % 0x1_0000_0000, post, len - |digits|))
    decreases |digits|
  {
    if digits == [] {
      assert digits + post == post;
    } else {
      var d, rest := digits[0], digits[1..];
      FirstHex(digits, post);
      hide *;
      var v := DigitValue(d).value;
      ReadHexStep(c % 0x1_0000_0000, digits + post, len, v);
      WrapNibble(c, v);
      HexNumberFront(c, d, rest);
      ReadHexDigits(c * 16 + v, rest, post, len - 1);
      AfterOne(|digits|, ReadHex(HexNumber(c, digits) % 0x1_0000_0000, post, len - |digits|));
    }
  }

  lemma ReadHexDone(c: U32, s: seq<Byte>)
    ensures ReadHex(c, s, 0) == Some((c, 0))
  {
  }

  lemma ReadHexEnd(c: U32, s: seq<Byte>, len: int)
    requires len != 0 && (s == [] || DigitValue(s[0]).None?)
    ensures ReadHex(c, s, len) == if s != [] && s[0] == 125 && len < 0 then Some((c, 1)) else None
  {
  }

  /** Its value in 32 bits. */
  function HexValue(digits: seq<Byte>): U32
    requires AllHex(digits)
  {
    HexNumber(0, digits) % 0x1_0000_0000
  }

  lemma BracedNumber(letter: U32, digits: seq<Byte>, n: nat, post: seq<Byte>)
    requires letter in {120, 117, 85} && AllHex(digits) && n == |digits| + 2
    ensures NumberAfter(letter, [123] + (digits + ([125] + post))) == Some((HexValue(digits), n))
  {
    hide ReadHex, HexNumber;
    var rest := digits + ([125] + post);
    assert ([123] + rest)[1..] == rest && ([123] + rest)[0] == 123 && ([125] + post)[0] == 125;
    ReadHexDigits(0, digits, [125] + post, -1);
    ReadHexEnd(HexValue(digits), [125] + post, -1 - |digits|);
  }

  lemma PlainNumber(letter: U32, digits: seq<Byte>, n: nat, post: seq<Byte>)
    requires letter in {120, 117, 85} && AllHex(digits) && n == |digits| == Digits(letter)
    ensures NumberAfter(letter, digits + post) == Some((HexValue(digits), n))
  {
    hide ReadHex, HexNumber;
    assert (digits + post)[0] == digits[0];
    ReadHexDigits(0, digits, post, n);
    ReadHexDone(HexValue(digits), post);
  }

  /** A numeric escape is one of the first kind, and stands for its digits, upper or lower case, modulo 2^32. */
  lemma NumberEscapes(letter: U32, digits: seq<Byte>, n: nat, post: seq<Byte>)
    requires letter in {120, 117, 85} && AllHex(digits)
    ensures n == |digits| + 4 ==>
      UnescapeFront([BACKSLASH, letter] + ([123] + (digits + ([125] + post)))) == Some((HexValue(digits), 1, n))
    ensures n == |digits| + 2 && |digits| == Digits(letter) ==>
      UnescapeFront([BACKSLASH, letter] + (digits + post)) == Some((HexValue(digits), 1, n))
  {
    hide *;
    if n == |digits| + 4 {
      BracedNumber(letter, digits, n - 2, post);
      NumberFront(letter, [123] + (digits + ([125] + post)), HexValue(digits), n - 2, n);
    }
    if n == |digits| + 2 && |digits| == Digits(letter) {
      PlainNumber(letter, digits, n - 2, post);
      NumberFront(letter, digits + post, HexValue(digits), n - 2, n);
    }
  }

  lemma {:induction false} LowerHex(c: U32, n: nat)
    ensures forall k :: 0 <= k < n ==> 48 <= Hex(c, n)[k] <= 57 || 97 <= Hex(c, n)[k] <= 102
  {
    if n > 0 {
      LowerHex(c, n - 1);
    }
  }

  // ----- the round trip -----

  lemma FrontOfNumber(letter: U32, digits: nat, total: nat, c: U32, post: seq<Byte>)
    requires (letter, digits) in {(120, 2), (117, 4), (85, 8)} && total == 2 + digits && Nibbles(c, digits) == 0
    ensures UnescapeFront([BACKSLASH, letter] + Hex(c, digits) + post) == Some((c, 1, total))
  {
    var number := Hex(c, digits) + post;
    ReadHexOfHex(c, digits, post);
    assert number[0] == HexDigit(Nibbles(c, digits - 1) % 16);
    assert NumberAfter(letter, number) == Some((c, digits));
    hide *;
    NumberFront(letter, number, c, digits, total);
    Concat([BACKSLASH, letter], Hex(c, digits), post);
  }

  lemma FewNibbles(c: U32)
    ensures c < 0x100 ==> Nibbles(c, 2) == 0
    ensures c < 0x1_0000 ==> Nibbles(c, 4) == 0
    ensures Nibbles(c, 8) == 0
  {
    assert Nibbles(c, 1) == c / 16;
    assert Nibbles(c, 2) == Nibbles(c, 1) / 16;
    assert Nibbles(c, 3) == Nibbles(c, 2) / 16;
    assert Nibbles(c, 4) == Nibbles(c, 3) / 16;
    assert Nibbles(c, 5) == Nibbles(c, 4) / 16;
    assert Nibbles(c, 6) == Nibbles(c, 5) / 16;
    assert Nibbles(c, 7) == Nibbles(c, 6) / 16;
    assert Nibbles(c, 8) == Nibbles(c, 7) / 16;
  }

  /** What escaping shows as it is, and what form the other escapes have. */
  lemma EscapeShape(c: U32)
    ensures var e := EscapeOf(c);
      && (|e| == 1 <==> 33 <= c <= 126 && c != 34 && c != 92) && (|e| == 1 ==> e[0] == c)
      && (|e| == 2 <==> c in {0, 9, 10, 13, 32, 34, 92}) && (|e| != 1 ==> |e| > 1 && e[0] == BACKSLASH)
      && (|e| > 2 ==> if c < 0x100 then |e| == 4 && e[1] == 120
                      else if c < 0x1_0000 then |e| == 6 && e[1] == 117
                      else |e| == 10 && e[1] == 85)
      && (|e| > 2 ==> forall k :: 2 <= k < |e| ==> 48 <= e[k] <= 57 || 97 <= e[k] <= 102)
  {
    LowerHex(c, 2);
    LowerHex(c, 4);
    LowerHex(c, 8);
    hide Hex;
  }

  /** Whatever follows an escaped rune, unescaping finds the rune and stops at its end. */
  lemma UnescapeEscape(c: U32, post: seq<Byte>)
    ensures UnescapeFront(EscapeOf(c) + post).Some?
    ensures UnescapeFront(EscapeOf(c) + post).value.0 == c
    ensures UnescapeFront(EscapeOf(c) + post).value.2 == |EscapeOf(c)| > 0
  {
    hide DecodeRune, Nibbles;
    FewNibbles(c);
    if NamedEscape(c).Some? {
      FrontOfLetter(NamedEscape(c).value, post);
    } else if 32 <= c < 127 {
      AsciiFront(c, post);
    } else if c < 0x100 {
      FrontOfNumber(120, 2, 4, c, post);
    } else if c < 0x1_0000 {
      FrontOfNumber(117, 4, 6, c, post);
    } else {
      FrontOfNumber(85, 8, 10, c, post);
    }
  }

  lemma {:induction false} UnescapeEscapeRunes(runes: seq<U32>)
    ensures UnescapeAll(EscapeRunes(runes)) == EncodeAll(runes)
  {
    if runes != [] {
      var first, rest := EscapeOf(runes[0]), EscapeRunes(runes[1..]);
      UnescapeEscape(runes[0], rest);
      UnescapeEscapeRunes(runes[1..]);
      hide UnescapeFront, EscapeOf, EncodeRune;
      assert (first + rest)[|first|..] == rest;
    }
  }

  lemma HexIsPrintable(c: U32, n: nat)
    ensures forall k :: 0 <= k < n ==> 32 <= Hex(c, n)[k] < 127
  {
    LowerHex(c, n);
  }

  /** An escaped string is printable ASCII. */
  lemma {:induction false} EscapedIsPrintable(runes: seq<U32>, k: nat)
    requires k < |EscapeRunes(runes)|
    ensures 32 <= EscapeRunes(runes)[k] < 127
  {
    if k < |EscapeOf(runes[0])| {
      HexIsPrintable(runes[0], 2);
      HexIsPrintable(runes[0], 4);
      HexIsPrintable(runes[0], 8);
    } else {
      EscapedIsPrintable(runes[1..], k - |EscapeOf(runes[0])|);
    }
  }

  /** Escaping and unescaping a string gives it back exactly when all of it is encoded, and none of it overlong. */
  lemma {:induction false} RoundTrip(s: seq<Byte>)
    ensures UnescapeAll(EscapeRunes(DecodeAll(s))) == EncodeAll(DecodeAll(s))
    ensures UnescapeAll(EscapeRunes(DecodeAll(s))) == s <==> WellEncoded(s)
  {
    UnescapeEscapeRunes(DecodeAll(s));
    WellEncodedExactly(s);
    if WellEncoded(s) {
      var runes :| s == EncodeAll(runes);
      DecodeEncodeAll(runes);
    }
  }

  /** The two-byte form of NUL comes back as one byte. */
  lemma RoundTripShortens()
    ensures UnescapeAll(EscapeRunes(DecodeAll([0xC0, 0x80]))) == [0]
  {
    var s: seq<Byte> := [0xC0, 0x80];
    OverlongNul();
    assert DecodeAll(s) == [0];
    UnescapeEscapeRunes([0]);
    assert EncodeAll([0]) == [0];
  }

  // ----- the code -----

  /** aem_string_escape_rune. */
  method EscapeRune(str: StringBuf, c: U32)
    modifies str
    ensures str.text == old(str.text) + EscapeOf(c)
  {
    if c == 10 {
      str.Puts([BACKSLASH, 110]);
    } else if c == 13 {
      str.Puts([BACKSLASH, 114]);
    } else if c == 9 {
      str.Puts([BACKSLASH, 116]);
    } else if c == 0 {
      str.Puts([BACKSLASH, 48]);
    } else if c == 34 {
      str.Puts([BACKSLASH, 34]);
    } else if c == 92 {
      str.Puts([BACKSLASH, 92]);
    } else if c == 32 {
      str.Puts([BACKSLASH, 32]);
    } else if 32 <= c < 127 {
      str.Putc(c);
    } else if c < 0x100 {
      str.Puts([BACKSLASH, 120] + Hex(c, 2));
    } else if c < 0x1_0000 {
      str.Puts([BACKSLASH, 117] + Hex(c, 4));
    } else {
      str.Puts([BACKSLASH, 85] + Hex(c, 8));
    }
  }

  /** aem_string_escape: the bytes of invalid sequences are escaped one by one. */
  method Escape(str: StringBuf, slice: Slice)
    requires slice.Valid()
    modifies str, slice`start
    ensures str.text == old(str.text) + EscapeRunes(DecodeAll(old(slice.Rest())))
  {
    hide DecodeRune, EscapeOf;
    while slice.Ok()
      invariant slice.Valid()
      invariant str.text + EscapeRunes(DecodeAll(slice.Rest()))
        == old(str.text) + EscapeRunes(DecodeAll(old(slice.Rest())))
      decreases slice.end - slice.start
    {
      ghost var rest, before := slice.Rest(), str.text;
      var ok, c := GetRune(slice);
      if !ok {
        c := slice.Getc();
      }
      assert DecodeAll(rest) == [c] + DecodeAll(slice.Rest());
      EscapeRune(str, c);
      Concat(before, EscapeOf(c), EscapeRunes(DecodeAll(slice.Rest())));
    }
  }

  /** The loop over the digits of a numeric escape. */
  method ReadNumber(slice: Slice, length: int) returns (ok: bool, c: U32)
    requires slice.Valid()
    modifies slice`start
    ensures slice.Valid() && ok == ReadHex(0, old(slice.Rest()), length).Some?
    ensures ok ==> c == ReadHex(0, old(slice.Rest()), length).value.0
    ensures ok ==> slice.start == old(slice.start) + ReadHex(0, old(slice.Rest()), length).value.1
  {
    hide ReadHex;
    var len := length;
    c := 0;
    ghost var taken: nat := 0;
    while len != 0
      invariant slice.Valid() && slice.start == old(slice.start) + taken
      invariant ReadHex(0, old(slice.Rest()), length)
        == After(taken, ReadHex(c, slice.Rest(), len))
      decreases slice.end - slice.start
    {
      ghost var rest, c0 := slice.Rest(), c;
      var d := slice.Getc();
      if 48 <= d <= 57 {
        c := (c * 16) % 0x1_0000_0000 + (d - 48);
      } else if 65 <= d <= 70 {
        c := (c * 16) % 0x1_0000_0000 + (d - 65 + 10);
      } else if 97 <= d <= 102 {
        c := (c * 16) % 0x1_0000_0000 + (d - 97 + 10);
      } else if d == 125 && len < 0 {
        ReadHexEnd(c, rest, len);
        break;
      } else {
        ReadHexEnd(c, rest, len);
        return false, c;
      }
      ReadHexStep(c0, rest, len, DigitValue(d).value);
      taken := taken + 1;
      len := len - 1;
    }
    ReadHexDone(c, slice.Rest());
    ok := true;
  }

  /** aem_string_unescape_rune: on failure the slice stays where it was. */
  method UnescapeRune(slice: Slice) returns (ok: bool, c: U32, esc: nat)
    requires slice.Valid()
    modifies slice`start
    ensures slice.Valid() && ok == UnescapeFront(old(slice.Rest())).Some?
    ensures ok ==> (c, esc, slice.start - old(slice.start)) == UnescapeFront(old(slice.Rest())).value
    ensures !ok ==> slice.start == old(slice.start)
  {
    hide DecodeRune, ReadHex;
    var orig := slice.start;
    var backslash := slice.MatchPrefix([BACKSLASH]);
    esc := 0;
    ok, c := GetRune(slice);
    if !ok {
      if backslash {
        return true, BACKSLASH, 0;
      }
      return false, c, 0;
    }
    if backslash {
      if c == 120 || c == 117 || c == 85 {
        var brace := slice.MatchPrefix([123]);
        var len := if brace then -1 else if c == 120 then 2 else if c == 117 then 4 else 8;
        ok, c := ReadNumber(slice, len);
        if !ok {
          slice.start := orig;
        }
        esc := 1;
      } else {
        var letter := Letter(c);
        c, esc := letter.0, letter.1;
      }
    }
  }

  /** aem_string_unescape: bytes that make no rune are copied. */
  method Unescape(str: StringBuf, slice: Slice)
    requires slice.Valid()
    modifies str, slice`start
    ensures str.text == old(str.text) + UnescapeAll(old(slice.Rest()))
  {
    hide UnescapeFront, EncodeRune;
    while slice.Ok()
      invariant slice.Valid()
      invariant str.text + UnescapeAll(slice.Rest()) == old(str.text) + UnescapeAll(old(slice.Rest()))
      decreases slice.end - slice.start
    {
      ghost var rest, before := slice.Rest(), str.text;
      var ok, c, _ := UnescapeRune(slice);
      if ok {
        PutRune(str, c);
        Concat(before, EncodeRune(c), UnescapeAll(slice.Rest()));
      } else {
        var b := slice.Getc();
        str.Putc(b);
        Concat(before, [b], UnescapeAll(slice.Rest()));
      }
    }
  }
}
