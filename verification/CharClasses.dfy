/** Which bytes the classes hold: the ctype tables of the C locale, and the two classes of the NFA's own. */
module CharClasses {
  import opened Bytes
  import opened NfaInsn
  import RegexGrammar
  import Translate

  /** The test that a class instruction makes, on a byte. */
  predicate Holds(cc: CClass, c: Byte) {
    ClassMatch(false, cc, c)
  }

  /** A digit counts for what it is as a hexadecimal digit, too, and the letters come in pairs. */
  lemma DigitsAndLetters(c: Byte)
    ensures Holds(Digit, c) <==> 48 <= c <= 57
    ensures Holds(Digit, c) ==> Translate.DigitValue(c) == Some(c - 48)
    ensures Holds(Upper, c) <==> 65 <= c <= 90
    ensures Holds(Lower, c) <==> c >= 32 && Holds(Upper, c - 32)
    ensures Holds(Alpha, c) <==> Holds(Lower, c) || Holds(Upper, c)
    ensures Holds(Alnum, c) <==> Holds(Alpha, c) || Holds(Digit, c)
    ensures Holds(Alnum, c) <==> RegexGrammar.IsAlnum(c)
  {
  }

  /** The hexadecimal digits are those that have a value, and the value does not depend on the case. */
  lemma HexDigits(c: Byte)
    ensures Holds(Xdigit, c) <==> Translate.DigitValue(c).Some?
    ensures Holds(Xdigit, c) <==> Holds(Digit, c) || 65 <= c <= 70 || 97 <= c <= 102
    ensures 65 <= c <= 70 ==> Translate.DigitValue(c) == Translate.DigitValue(c + 32) == Some(c - 65 + 10)
  {
  }

  /** What can be seen is a letter, a digit or punctuation; what is printed is that and the space. */
  lemma PrintedBytes(c: Byte)
    ensures Holds(Graph, c) <==> 33 <= c <= 126
    ensures Holds(Graph, c) <==> Holds(Alnum, c) || Holds(Punct, c)
    ensures !(Holds(Alnum, c) && Holds(Punct, c))
    ensures Holds(Print, c) <==> Holds(Graph, c) || c == 32
    ensures c < 0x80 ==> (Holds(Cntrl, c) <==> !Holds(Print, c))
  {
  }

  lemma SpacesAndLines(c: Byte)
    ensures Holds(Space, c) <==> 9 <= c <= 13 || c == 32
    ensures Holds(Blank, c) <==> c == 9 || c == 32
    ensures Holds(Line, c) <==> Holds(Print, c) || c == 9 || c == 127
    ensures Holds(Any, c) <==> c < 0x80
  {
  }

  /** Outside ASCII, and at the end of the input, only a negated class matches; elsewhere it is the complement. */
  lemma OnlyAscii(cc: CClass, c: int)
    ensures ClassMatch(false, cc, c) ==> 0 <= c < 0x80
    ensures ClassMatch(true, cc, c) <==> !ClassMatch(false, cc, c)
  {
  }
}
