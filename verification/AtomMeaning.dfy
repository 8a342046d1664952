/** What the characters of a regular expression match, from its text to the bytes of an input. */
module AtomMeaning {
  import opened Bytes
  import opened NfaInsn
  import opened NfaSemantics
  import opened Ast
  import opened Utf8
  import opened CharClasses
  import opened RegexGrammar
  import opened RegexUnambiguous
  import Runes
  import Translate

  // ----- sets of bytes -----

  const DIGITS: set<int> := set c: int | 48 <= c <= 57
  const UPPER: set<int> := set c: int | 65 <= c <= 90
  const LOWER: set<int> := set c: int | 97 <= c <= 122
  const LETTERS: set<int> := UPPER + LOWER
  const SPACES: set<int> := (set c: int | 9 <= c <= 13) + {32}
  const LINE_BYTES: set<int> := (set c: int | 32 <= c < 0x80) + {9}
  const VISIBLE: set<int> := set c: int | 33 <= c < 127
  const ASCII: set<int> := set c: int | 0 <= c < 0x80
  const ALL_BYTES: set<int> := set c: int | 0 <= c < 0x100

  /** The tree matches one byte, any of the given ones, and nothing else. */
  ghost predicate TakesOne(t: Node, bytes: set<int>) {
    forall x: seq<Byte>, p: nat, q: nat, ev ::
      Matches(t, x, p, q, ev) <==> ev == [] && q == p + 1 && p < |x| && x[p] in bytes
  }

  predicate NextIn(x: seq<Byte>, p: nat, bytes: set<int>) {
    p < |x| && x[p] in bytes
  }

  predicate PrevIn(x: seq<Byte>, p: nat, bytes: set<int>) {
    0 < p <= |x| && x[p - 1] in bytes
  }

  /** The tree matches the empty string where a run of the given bytes begins. */
  ghost predicate AtBegin(t: Node, bytes: set<int>) {
    forall x: seq<Byte>, p: nat, q: nat, ev ::
      Matches(t, x, p, q, ev) <==> ev == [] && q == p && NextIn(x, p, bytes) && !PrevIn(x, p, bytes)
  }

  /** And here where one ends. */
  ghost predicate AtEnd(t: Node, bytes: set<int>) {
    forall x: seq<Byte>, p: nat, q: nat, ev ::
      Matches(t, x, p, q, ev) <==> ev == [] && q == p && PrevIn(x, p, bytes) && !NextIn(x, p, bytes)
  }

  /** The class holds exactly these bytes. */
  predicate Has(cc: CClass, bytes: set<int>) {
    forall c: Byte :: Holds(cc, c) <==> c in bytes
  }

  lemma ClassTakes(neg: bool, cc: CClass, bytes: set<int>)
    requires Has(cc, bytes)
    ensures TakesOne(ClassNode(neg, false, cc), if neg then ALL_BYTES - bytes else bytes)
  {
    var all := if neg then ALL_BYTES - bytes else bytes;
    forall x: seq<Byte>, p: nat | p < |x|
      ensures ClassMatch(neg, cc, x[p]) <==> x[p] in all
    {
      OnlyAscii(cc, x[p]);
      assert Holds(cc, x[p]) <==> x[p] in bytes;
    }
    hide ClassMatch;
  }

  lemma FrontierIs(neg: bool, cc: CClass, bytes: set<int>, x: seq<Byte>, p: nat)
    requires Has(cc, bytes)
    ensures FrontierMatch(neg, cc, x, p) <==>
      NextIn(x, p, bytes) != neg && PrevIn(x, p, bytes) == neg
  {
    OnlyAscii(cc, At(x, p));
    OnlyAscii(cc, Prev(x, p));
    assert p < |x| ==> (Holds(cc, x[p]) <==> x[p] in bytes);
    assert 0 < p <= |x| ==> (Holds(cc, x[p - 1]) <==> x[p - 1] in bytes);
  }

  lemma FrontierTakes(cc: CClass, bytes: set<int>)
    requires Has(cc, bytes)
    ensures AtBegin(ClassNode(false, true, cc), bytes) && AtEnd(ClassNode(true, true, cc), bytes)
  {
    forall x: seq<Byte>, p: nat
      ensures FrontierMatch(false, cc, x, p) <==> NextIn(x, p, bytes) && !PrevIn(x, p, bytes)
      ensures FrontierMatch(true, cc, x, p) <==> PrevIn(x, p, bytes) && !NextIn(x, p, bytes)
    {
      FrontierIs(false, cc, bytes, x, p);
      FrontierIs(true, cc, bytes, x, p);
    }
    hide FrontierMatch, NextIn, PrevIn;
  }

  lemma ClassSets()
    ensures Has(CClass.Digit, DIGITS) && Has(Alnum, LETTERS + DIGITS) && Has(Space, SPACES)
    ensures Has(Line, LINE_BYTES) && Has(Any, ASCII)
  {
    forall c: Byte
      ensures Holds(CClass.Digit, c) <==> c in DIGITS
      ensures Holds(Alnum, c) <==> c in LETTERS + DIGITS
      ensures Holds(Space, c) <==> c in SPACES
      ensures Holds(Line, c) <==> c in LINE_BYTES
      ensures Holds(Any, c) <==> c in ASCII
    {
      DigitsAndLetters(c);
      PrintedBytes(c);
      SpacesAndLines(c);
    }
  }

  // ----- the atom at a place -----

  /** From i on, the atom ends at j and spells this tree, and nothing else does. */
  ghost predicate OnlyAtom(s: seq<Byte>, i: nat, f: Flags, j: nat, t: Node) {
    forall j': nat, t' :: IsAtom(s, i, j', f, t') <==> j' == j && t' == t
  }

  /** A rune that begins neither brackets nor a group is the atom it stands for, or none. */
  lemma RuneDecides(s: seq<Byte>, i: nat, n: nat, f: Flags, c: U32, esc: nat)
    requires !Is(s, i, '[') && !Is(s, i, '(') && i < |s| && Translate.UnescapeFront(s[i..]) == Some((c, esc, n))
    ensures AtomOf(c, esc, f).Some? ==> OnlyAtom(s, i, f, i + n, AtomOf(c, esc, f).value)
    ensures AtomOf(c, esc, f).None? ==> NoAtom(s, i, f)
  {
    assert s[i..|s|] == s[i..];
    hide AtomOf, IsAtom, NoAtom, Translate.UnescapeFront;
    assert IsRune(s, i, i + n, c, esc);
    forall j: nat, t
      ensures IsAtom(s, i, j, f, t) <==> j == i + n && AtomOf(c, esc, f) == Some(t)
    {
      if IsAtom(s, i, j, f, t) {
        PlainAtom(s, i, j, f, t);
        var c', esc' :| IsRune(s, i, j, c', esc') && AtomOf(c', esc', f) == Some(t);
      }
      if j == i + n && AtomOf(c, esc, f) == Some(t) {
        RuneIsAtom(s, i, j, f, c, esc, t);
      }
    }
  }

  lemma AsciiAtom(s: seq<Byte>, i: nat, f: Flags)
    requires i < |s| && s[i] < 0x80 && s[i] != 91 && s[i] != 40 && s[i] != 92
    ensures AtomOf(s[i], 0, f).Some? ==> OnlyAtom(s, i, f, i + 1, AtomOf(s[i], 0, f).value)
    ensures AtomOf(s[i], 0, f).None? ==> NoAtom(s, i, f)
  {
    var c, post := s[i], s[i + 1..];
    assert s[i..] == [c] + post;
    AsciiRune(c);
    Translate.RuneFront(c, 1, post);
    hide *;
    RuneDecides(s, i, 1, f, c, 0);
  }

  /** Behind a backslash, an ASCII byte other than x, u and U is a letter that stands for a byte, or itself. */
  lemma EscapedAtom(s: seq<Byte>, i: nat, f: Flags)
    requires Is(s, i, '\\') && i + 1 < |s| && s[i + 1] < 0x80 && s[i + 1] != 120 && s[i + 1] != 117 && s[i + 1] != 85
    ensures forall v :: Translate.Stands(s[i + 1], v) ==> OnlyAtom(s, i, f, i + 2, AtomNode(v))
    ensures Translate.Plain(s[i + 1]) ==>
      AtomOf(s[i + 1], 2, f).Some? && OnlyAtom(s, i, f, i + 2, AtomOf(s[i + 1], 2, f).value)
  {
    var b, post := s[i + 1], s[i + 2..];
    assert s[i..] == [Translate.BACKSLASH, b] + post;
    Translate.LetterEscapes(b, post);
    hide OnlyAtom, Translate.UnescapeFront;
    if v :| Translate.Stands(b, v) {
      RuneDecides(s, i, 2, f, v, 1);
    } else {
      RuneDecides(s, i, 2, f, b, 2);
    }
  }

  lemma AtomTakes(b: U32)
    requires b < 0x80
    ensures TakesOne(AtomNode(b), {b})
  {
    AsciiRune(b);
    forall x: seq<Byte>, p: nat, q: nat, ev
      ensures Matches(AtomNode(b), x, p, q, ev) <==> ev == [] && q == p + 1 && p < |x| && x[p] in {b}
    {
      assert q == p + 1 <= |x| ==> x[p..q] == [x[p]];
    }
  }

  // ----- what the characters mean -----

  /** "^" matches where a run of line bytes begins, "$" where one ends. */
  lemma LineEdges(s: seq<Byte>, i: nat, f: Flags) returns (t: Node)
    requires Is(s, i, '^') || Is(s, i, '$')
    ensures OnlyAtom(s, i, f, i + 1, t)
    ensures if Is(s, i, '^') then AtBegin(t, LINE_BYTES) else AtEnd(t, LINE_BYTES)
  {
    AsciiAtom(s, i, f);
    t := AtomOf(s[i], 0, f).value;
    ClassSets();
    FrontierTakes(Line, LINE_BYTES);
    hide OnlyAtom, AtBegin, AtEnd, Has;
  }

  /** "\<" and "\>" match at the edges of words, "\A" and "\z" at those of ASCII text. */
  lemma TextEdges(s: seq<Byte>, i: nat, f: Flags) returns (t: Node)
    requires Is(s, i, '\\') && (Is(s, i + 1, '<') || Is(s, i + 1, '>') || Is(s, i + 1, 'A') || Is(s, i + 1, 'z'))
    ensures OnlyAtom(s, i, f, i + 2, t)
    ensures Is(s, i + 1, '<') ==> AtBegin(t, LETTERS + DIGITS)
    ensures Is(s, i + 1, '>') ==> AtEnd(t, LETTERS + DIGITS)
    ensures Is(s, i + 1, 'A') ==> AtBegin(t, ASCII)
    ensures Is(s, i + 1, 'z') ==> AtEnd(t, ASCII)
  {
    EscapedAtom(s, i, f);
    t := AtomOf(s[i + 1], 2, f).value;
    ClassSets();
    FrontierTakes(Alnum, LETTERS + DIGITS);
    FrontierTakes(Any, ASCII);
    hide OnlyAtom, AtBegin, AtEnd, Has;
  }

  /** A dot matches any byte of a line, or any ASCII byte if the pattern is binary. */
  lemma Dot(s: seq<Byte>, i: nat, f: Flags) returns (t: Node)
    requires Is(s, i, '.')
    ensures OnlyAtom(s, i, f, i + 1, t) && TakesOne(t, if f.binary then ASCII else LINE_BYTES)
  {
    AsciiAtom(s, i, f);
    t := AtomOf(s[i], 0, f).value;
    ClassSets();
    ClassTakes(false, Line, LINE_BYTES);
    ClassTakes(false, Any, ASCII);
    hide OnlyAtom, TakesOne, Has;
  }

  /** The letter classes: the upper-case letter stands for all other bytes, but \W stands for what \w stands for. */
  lemma LetterClasses(s: seq<Byte>, i: nat, f: Flags) returns (t: Node)
    requires Is(s, i, '\\') && i + 1 < |s| && s[i + 1] in {119, 87, 100, 68, 115, 83}
    ensures OnlyAtom(s, i, f, i + 2, t)
    ensures Is(s, i + 1, 'w') || Is(s, i + 1, 'W') ==> TakesOne(t, LETTERS + DIGITS)
    ensures Is(s, i + 1, 'd') ==> TakesOne(t, DIGITS)
    ensures Is(s, i + 1, 'D') ==> TakesOne(t, ALL_BYTES - DIGITS)
    ensures Is(s, i + 1, 's') ==> TakesOne(t, SPACES)
    ensures Is(s, i + 1, 'S') ==> TakesOne(t, ALL_BYTES - SPACES)
  {
    EscapedAtom(s, i, f);
    t := AtomOf(s[i + 1], 2, f).value;
    ClassSets();
    ClassTakes(false, Alnum, LETTERS + DIGITS);
    ClassTakes(false, CClass.Digit, DIGITS);
    ClassTakes(true, CClass.Digit, DIGITS);
    ClassTakes(false, Space, SPACES);
    ClassTakes(true, Space, SPACES);
    hide OnlyAtom, TakesOne, Has;
  }

  /** . ^ $ ( ) [ ? * + | and the backslash. */
  const META: set<int> := {46, 94, 36, 40, 41, 91, 63, 42, 43, 124, 92}

  /** Every other ASCII byte matches itself. */
  lemma PlainByte(s: seq<Byte>, i: nat, f: Flags)
    requires i < |s| && s[i] < 0x80 && s[i] !in META
    ensures OnlyAtom(s, i, f, i + 1, AtomNode(s[i])) && TakesOne(AtomNode(s[i]), {s[i]})
  {
    AsciiAtom(s, i, f);
    AtomTakes(s[i]);
  }

  /** Behind a backslash, so do these and all but the letters and digits that have a meaning there. */
  lemma EscapedByte(s: seq<Byte>, i: nat, f: Flags) returns (v: U32)
    requires Is(s, i, '\\') && i + 1 < |s| && s[i + 1] < 0x80
    requires s[i + 1] !in {120, 117, 85, 60, 62, 65, 122, 119, 87, 100, 68, 115, 83}
    ensures OnlyAtom(s, i, f, i + 2, AtomNode(v)) && TakesOne(AtomNode(v), {v as int})
    ensures if Translate.Plain(s[i + 1]) then v == s[i + 1] else Translate.Stands(s[i + 1], v)
  {
    EscapedAtom(s, i, f);
    v := s[i + 1];
    var b: U32 := v;
    if w :| Translate.Stands(b, w) {
      v := w;
    }
    assert v < 0x80;
    AtomTakes(v);
  }

  /** The remaining characters begin no atom, and neither does a backslash at the end of the text. */
  lemma NoAtomHere(s: seq<Byte>, i: nat, f: Flags)
    requires (i < |s| && s[i] in {41, 63, 42, 43, 124}) || (Is(s, i, '\\') && i + 1 == |s|) || i == |s|
    ensures NoAtom(s, i, f)
  {
    if i == |s| {
      NoAtomAt(s, i, f);
    } else if s[i] == 92 {
      assert s[i..] == [Translate.BACKSLASH] && [Translate.BACKSLASH][1..] == [];
      assert Translate.UnescapeFront(s[i..]) == Some((92, 0, 1));
      RuneDecides(s, i, 1, f, 92, 0);
    } else {
      AsciiAtom(s, i, f);
    }
  }

  /** A rune outside ASCII matches its encoding. */
  lemma WideRune(s: seq<Byte>, i: nat, n: nat, f: Flags, c: U32)
    requires c > 0x7F && i + n <= |s| && s[i..i + n] == EncodeRune(c)
    ensures OnlyAtom(s, i, f, i + n, AtomNode(c))
  {
    var post := s[i + n..];
    assert s[i..] == EncodeRune(c) + post;
    Runes.FirstByte(c);
    assert s[i] == EncodeRune(c)[0] > 0x7F;
    assert AtomOf(c, 0, f) == Some(AtomNode(c));
    assert !Is(s, i, '[') && !Is(s, i, '(');
    hide *;
    Translate.RuneFront(c, n, post);
    RuneDecides(s, i, n, f, c, 0);
  }

  /** It does so behind a backslash, too. */
  lemma EscapedWideRune(s: seq<Byte>, i: nat, n: nat, f: Flags, c: U32)
    requires c > 0x7F && Is(s, i, '\\') && i + 1 + n <= |s| && s[i + 1..i + 1 + n] == EncodeRune(c)
    ensures OnlyAtom(s, i, f, i + 1 + n, AtomNode(c))
  {
    var post := s[i + 1 + n..];
    assert s[i..] == [Translate.BACKSLASH] + EncodeRune(c) + post;
    assert AtomOf(c, 2, f) == Some(AtomNode(c));
    assert !Is(s, i, '[') && !Is(s, i, '(');
    hide *;
    Translate.EscapedRuneFront(c, 1 + n, post);
    RuneDecides(s, i, 1 + n, f, c, 2);
  }

  /** A numeric escape, with braces or without, matches the encoding of its value. */
  lemma NumberAtom(s: seq<Byte>, i: nat, n: nat, f: Flags, letter: U32, digits: seq<Byte>, post: seq<Byte>)
    requires i < |s| && letter in {120, 117, 85} && Translate.AllHex(digits)
    requires if n == |digits| + 4 then s[i..] == [Translate.BACKSLASH, letter] + ([123] + (digits + ([125] + post)))
             else n == |digits| + 2 && |digits| == Translate.Digits(letter)
                  && s[i..] == [Translate.BACKSLASH, letter] + (digits + post)
    ensures OnlyAtom(s, i, f, i + n, AtomNode(Translate.HexValue(digits)))
  {
    var v := Translate.HexValue(digits);
    assert s[i] == s[i..][0] == Translate.BACKSLASH;
    assert AtomOf(v, 1, f) == Some(AtomNode(v));
    assert !Is(s, i, '[') && !Is(s, i, '(');
    hide *;
    Translate.NumberEscapes(letter, digits, n, post);
    RuneDecides(s, i, n, f, v, 1);
  }
}
