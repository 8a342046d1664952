/** Where the text of a regular expression does not mean what it seems to. */
module RegexLimits {
  import opened Bytes
  import opened NfaInsn
  import opened Ast
  import opened RegexGrammar
  import opened RegexTokens
  import Translate

  // ----- the classes \w, \d, \s and their upper-case forms -----

  ghost predicate TakesByte(t: Node, s: seq<Byte>, i: nat) {
    i < |s| && Matches(t, s, i, i + 1, [])
  }

  /** Of any byte, exactly one of two trees matches it. */
  ghost predicate Complementary(t: Node, u: Node) {
    forall s, i: nat :: i < |s| ==> (TakesByte(t, s, i) <==> !TakesByte(u, s, i))
  }

  lemma ClassTakes(neg: bool, cc: CClass, s: seq<Byte>, i: nat)
    requires i < |s|
    ensures TakesByte(ClassNode(neg, false, cc), s, i) <==> ClassMatch(false, cc, s[i]) != neg
  {
    hide InClass;
  }

  /** The upper-case letter c stands for the complement of what its lower-case letter stands for, unless that is w. */
  lemma UpperCaseComplements(c: U32, f: Flags)
    requires c in {68, 83, 87}
    ensures AtomOf(c, 2, f).Some? && AtomOf(c + 32, 2, f).Some?
    ensures Complementary(AtomOf(c, 2, f).value, AtomOf(c + 32, 2, f).value) <==> c != 87
    ensures c == 87 ==> AtomOf(c, 2, f) == AtomOf(c + 32, 2, f)
  {
    var cc := if c == 68 then CClass.Digit else if c == 83 then Space else Alnum;
    var t, u := ClassNode(c != 87, false, cc), ClassNode(false, false, cc);
    assert AtomOf(c, 2, f) == Some(t) && AtomOf(c + 32, 2, f) == Some(u);
    hide AtomOf, TakesByte, ClassMatch;
    forall s, i: nat | i < |s|
      ensures TakesByte(t, s, i) <==> (ClassMatch(false, cc, s[i]) <==> c == 87)
      ensures TakesByte(u, s, i) <==> ClassMatch(false, cc, s[i])
    {
      ClassTakes(c != 87, cc, s, i);
      ClassTakes(false, cc, s, i);
    }
    if c == 87 {
      var s: seq<Byte> := [0];
      assert TakesByte(t, s, 0) <==> TakesByte(u, s, 0);
    }
  }

  // ----- braces -----

  lemma NotItsOwnChild(a: Node)
    requires a.RepeatNode?
    ensures a.child != a
  {
    assert a.child < a;
  }

  /** A brace behind an atom leaves no trace in the tree exactly if neither a number nor a comma follows it. */
  lemma BraceLeavesNoTrace(s: seq<Byte>, m: nat, f: Flags, a: Node)
    requires Is(s, m, '{')
    ensures (exists j: nat :: ItemAfter(s, m, j, f, a, a)) <==> StrayBrace(s, m)
  {
    hide StrayBrace, IsBounds;
    assert StrayBrace(s, m) ==> ItemAfter(s, m, m + 1, f, a, a);
    if a.RepeatNode? {
      NotItsOwnChild(a);
    }
  }

  /** The brace begins a repetition. */
  ghost predicate BeginsBounds(s: seq<Byte>, m: nat) {
    exists j: nat, min, max, reluctant :: min <= max && IsBounds(s, m, j, min, max, reluctant)
  }

  /** Every brace is one of three: it is passed over, it begins a repetition, or reading stops there. */
  lemma BraceCases(s: seq<Byte>, m: nat)
    requires Is(s, m, '{')
    ensures BadBrace(s, m) <==> !StrayBrace(s, m) && !BeginsBounds(s, m)
    ensures !(StrayBrace(s, m) && BeginsBounds(s, m))
  {
    hide IsQuantifier, StrayBrace;
    if j: nat, min, max :| IsQuantifier(s, m, j, min, max) && min <= max {
      assert IsBounds(s, m, if Is(s, j, '?') then j + 1 else j, min, max, Is(s, j, '?'));
      if StrayBrace(s, m) {
        StrayIsNone(s, m, j, min, max);
      }
    }
    if j: nat, min, max, reluctant :| min <= max && IsBounds(s, m, j, min, max, reluctant) {
      assert IsQuantifier(s, m, if reluctant then j - 1 else j, min, max);
    }
  }

  const AX := Ascii("ax")
  const A_BRACE_X := Ascii("a{x")

  lemma LetterIsAtom(s: seq<Byte>, i: nat, f: Flags)
    requires i < |s| && (s[i] == 97 || s[i] == 120)
    ensures IsAtom(s, i, i + 1, f, AtomNode(s[i]))
  {
    var c: Byte := s[i];
    assert s[i..|s|] == [c] + s[i + 1..|s|];
    Translate.AsciiFront(c, s[i + 1..|s|]);
    assert IsRune(s, i, i + 1, c, 0) && AtomOf(c, 0, f) == Some(AtomNode(c));
    RuneIsAtom(s, i, i + 1, f, c, 0, AtomNode(c));
  }

  /** A letter is an item of its own, and so is a letter with a stray brace behind it. */
  lemma PlainItem(s: seq<Byte>, i: nat, j: nat, f: Flags)
    requires i < |s| && (s[i] == 97 || s[i] == 120)
    requires if j == i + 1 then j == |s| || s[j] == 120 else j == i + 2 < |s| && Is(s, i + 1, '{') && s[j] == 120
    ensures IsItem(s, i, j, f, AtomNode(s[i]))
  {
    hide IsAtom, IsItem;
    LetterIsAtom(s, i, f);
    AtomIsItem(s, i, i + 1, j, f, AtomNode(s[i]), AtomNode(s[i]));
  }

  lemma TwoItems(s: seq<Byte>, m: nat, f: Flags)
    requires 0 < m < |s| && IsItem(s, 0, m, f, AtomNode(97)) && IsItem(s, m, |s|, f, AtomNode(120))
    ensures IsPattern(s, 0, |s|, f, BranchNode([AtomNode(97), AtomNode(120)]))
  {
    assert IsItems(s, 0, 0, f, []);
    hide IsItem;
    ItemsPush(s, 0, 0, m, f, [], AtomNode(97));
    ItemsPush(s, 0, m, |s|, f, [] + [AtomNode(97)], AtomNode(120));
    var ts := [AtomNode(97), AtomNode(120)];
    assert [] + [AtomNode(97)] + [AtomNode(120)] == ts;
    ItemsAreBranch(s, 0, |s|, f, ts);
    OneAlternative(s, 0, |s|, f, BranchNode(ts));
  }

  lemma BothSpell(s: seq<Byte>, s': seq<Byte>, f: Flags)
    requires |s| == 2 && s[0] == 97 && s[1] == 120
    requires |s'| == 3 && s'[0] == 97 && s'[1] == 123 && s'[2] == 120
    ensures IsPattern(s, 0, |s|, f, BranchNode([AtomNode(97), AtomNode(120)]))
    ensures IsPattern(s', 0, |s'|, f, BranchNode([AtomNode(97), AtomNode(120)]))
  {
    hide IsItem, IsPattern;
    PlainItem(s, 0, 1, f);
    PlainItem(s, 1, 2, f);
    TwoItems(s, 1, f);
    PlainItem(s', 0, 2, f);
    PlainItem(s', 2, 3, f);
    TwoItems(s', 2, f);
  }

  /** The text `a{x` spells what `ax` spells. */
  lemma SwallowedBrace(f: Flags)
    ensures IsPattern(AX, 0, |AX|, f, BranchNode([AtomNode(97), AtomNode(120)]))
    ensures IsPattern(A_BRACE_X, 0, |A_BRACE_X|, f, BranchNode([AtomNode(97), AtomNode(120)]))
  {
    var s, s' := AX, A_BRACE_X;
    assert |s| == 2 && s[0] == 97 && s[1] == 120;
    assert |s'| == 3 && s'[0] == 97 && s'[1] == 123 && s'[2] == 120;
    hide *;
    BothSpell(s, s', f);
  }

  // ----- numbers -----

  /** Digits up to the 64-bit limit have their value; the test for wrapping does not see all larger values. */
  lemma {:induction false} NumberExact(s: seq<Byte>, i: nat, j: nat)
    requires i <= j <= |s| && forall k: nat :: i <= k < j ==> IsDigit(s, k)
    ensures Decimal(s, i, j) >= 0
    ensures Wrapped(s, i, j) == Some(Decimal(s, i, j)) <==> Decimal(s, i, j) < ULONG_LIMIT
    ensures Wrapped(s, i, j).Some? ==> 0 <= Wrapped(s, i, j).value < ULONG_LIMIT
    decreases j
  {
    if i < j {
      NumberExact(s, i, j - 1);
      assert IsDigit(s, j - 1);
    }
  }

  /** A number in a repetition has the value of its digits exactly if that is below 2^64. */
  lemma NumberIsRight(s: seq<Byte>, i: nat, j: nat, n: U32)
    requires IsNumber(s, i, j, n)
    ensures n == Decimal(s, i, j) <==> Decimal(s, i, j) < ULONG_LIMIT
  {
    NumberExact(s, i, j);
  }

  /** Digits are taken for their value exactly if it fits 32 bits. */
  lemma NumberFits(s: seq<Byte>, i: nat)
    requires IsDigit(s, i)
    ensures var j := DigitsEnd(s, i);
            (exists n: U32 :: IsNumber(s, i, j, n) && n == Decimal(s, i, j)) <==> Decimal(s, i, j) <= UINT_MAX
  {
    var j := DigitsEnd(s, i);
    NumberExact(s, i, j);
    if Decimal(s, i, j) <= UINT_MAX {
      var n: U32 := Decimal(s, i, j);
      assert IsNumber(s, i, j, n);
    }
  }

  lemma OneDigitTooMany(d: int, digit: int)
    requires 0 <= digit <= 9 && ULONG_LIMIT <= d * 10 + digit < ULONG_LIMIT + 4
    ensures d == (ULONG_LIMIT - 1) / 10 < ULONG_LIMIT
    ensures (d * 10 + digit) % ULONG_LIMIT == d * 10 + digit - ULONG_LIMIT
  {
  }

  /** The first values past the limit wrap around unseen: a repetition of 2^64 times is one of 0 times. */
  lemma WrapsUnseen(s: seq<Byte>, i: nat, j: nat)
    requires i <= j <= |s| && forall k: nat :: i <= k < j ==> IsDigit(s, k)
    requires ULONG_LIMIT <= Decimal(s, i, j) < ULONG_LIMIT + 4
    ensures Wrapped(s, i, j) == Some(Decimal(s, i, j) - ULONG_LIMIT)
  {
    NumberExact(s, i, j - 1);
    assert IsDigit(s, j - 1);
    OneDigitTooMany(Decimal(s, i, j - 1), s[j - 1] as int - 48);
  }
}
