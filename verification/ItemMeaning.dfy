/** What repetitions, groups and the names of classes mean, from the text to what is matched. */
module ItemMeaning {
  import opened Bytes
  import opened NfaInsn
  import opened NfaSemantics
  import opened Ast
  import opened CharClasses
  import opened RegexGrammar
  import opened RegexTokens
  import opened RegexUnambiguous
  import opened AtomMeaning
  import RangeComplement
  import RegexLimits

  // ----- repetitions -----

  /** The tree matches what a matches so many times in a row; None stands for no limit. */
  ghost predicate Repeats(t: Node, a: Node, lo: nat, hi: Option<nat>) {
    forall x: seq<Byte>, p: nat, q: nat, ev ::
      Matches(t, x, p, q, ev) <==>
        exists n: nat :: lo <= n && (hi.Some? ==> n <= hi.value) && MatchesTimes(a, x, p, q, ev, n)
  }

  /** Behind the atom a that ends at m, the item goes on up to j and spells this tree, and nothing else does. */
  ghost predicate OnlyItem(s: seq<Byte>, m: nat, f: Flags, a: Node, j: nat, t: Node) {
    forall j': nat, t' :: ItemAfter(s, m, j', f, a, t') <==> j' == j && t' == t
  }

  lemma RepeatCount(t: Node, x: seq<Byte>, p: nat, q: nat, ev: seq<Event>) returns (n: nat)
    requires t.RepeatNode? && Matches(t, x, p, q, ev)
    ensures MatchesTimes(t.child, x, p, q, ev, n) && t.rmin <= n && (t.rmax == UINT_MAX || n <= t.rmax)
  {
    n :| MatchesTimes(t.child, x, p, q, ev, n) && t.rmin <= n && (t.rmax == UINT_MAX || n <= t.rmax);
  }

  lemma CountRepeats(t: Node, x: seq<Byte>, p: nat, q: nat, ev: seq<Event>, n: nat)
    requires t.RepeatNode? && t.rmin <= n && (t.rmax == UINT_MAX || n <= t.rmax)
    requires MatchesTimes(t.child, x, p, q, ev, n)
    ensures Matches(t, x, p, q, ev)
  {
  }

  lemma RepeatMeans(t: Node, hi: Option<nat>)
    requires t.RepeatNode? && if t.rmax == UINT_MAX then hi == None else hi.Some? && hi.value == t.rmax
    ensures Repeats(t, t.child, t.rmin, hi)
  {
    hide Matches, MatchesTimes;
    forall x: seq<Byte>, p: nat, q: nat, ev
      ensures Matches(t, x, p, q, ev) <==>
        exists n: nat :: t.rmin <= n && (hi.Some? ==> n <= hi.value) && MatchesTimes(t.child, x, p, q, ev, n)
    {
      if Matches(t, x, p, q, ev) {
        var k := RepeatCount(t, x, p, q, ev);
        assert exists n: nat ::
          t.rmin <= n && (hi.Some? ==> n <= hi.value) && MatchesTimes(t.child, x, p, q, ev, n);
      }
      if n: nat :| t.rmin <= n && (hi.Some? ==> n <= hi.value) && MatchesTimes(t.child, x, p, q, ev, n) {
        CountRepeats(t, x, p, q, ev, n);
      }
    }
  }

  /** A quantifier with its bounds in order and no question mark behind it. */
  lemma QuantifierItem(s: seq<Byte>, m: nat, j: nat, f: Flags, a: Node, min: U32, max: U32)
    requires IsQuantifier(s, m, j, min, max) && min <= max && !Is(s, j, '?')
    ensures OnlyItem(s, m, f, a, j, RepeatNode(min, max, false, Repeated(f, a)))
  {
    var t := RepeatNode(min, max, false, Repeated(f, a));
    forall j': nat, t'
      ensures ItemAfter(s, m, j', f, a, t') <==> j' == j && t' == t
    {
      if ItemAfter(s, m, j', f, a, t') {
        hide IsQuantifier, StrayBrace;
        if BoundsIn(s, m, j', f, a, t') {
          var k, lo, hi := BoundsAreQuantifier(s, m, j', t');
          QuantifierUnique(s, m, j, min, max, k, lo, hi);
        } else {
          NothingThere(s, m, j', f, a, t', j, min, max);
        }
      }
    }
  }

  /** An atom with a star, a plus or a question mark matches it any number of times, at least once, at most once. */
  lemma StarPlusQuestion(s: seq<Byte>, m: nat, f: Flags, a: Node) returns (t: Node)
    requires (Is(s, m, '*') || Is(s, m, '+') || Is(s, m, '?')) && !Is(s, m + 1, '?')
    ensures OnlyItem(s, m, f, a, m + 1, t)
    ensures var b := if f.explicitCaptures && a.CaptureNode? then a.child else a;
      && (Is(s, m, '*') ==> Repeats(t, b, 0, None))
      && (Is(s, m, '+') ==> Repeats(t, b, 1, None))
      && (Is(s, m, '?') ==> Repeats(t, b, 0, Some(1)))
  {
    var min: U32, max: U32 := if Is(s, m, '+') then 1 else 0, if Is(s, m, '?') then 1 else UINT_MAX;
    assert IsQuantifier(s, m, m + 1, min, max);
    t := RepeatNode(min, max, false, Repeated(f, a));
    hide OnlyItem, Repeats, IsQuantifier;
    QuantifierItem(s, m, m + 1, f, a, min, max);
    RepeatMeans(t, if Is(s, m, '?') then Some(1) else None);
  }

  lemma BracedBound(s: seq<Byte>, i: nat) returns (n: U32)
    requires IsDigit(s, i) && Decimal(s, i, DigitsEnd(s, i)) <= UINT_MAX
    ensures IsNumber(s, i, DigitsEnd(s, i), n) && n == Decimal(s, i, DigitsEnd(s, i))
  {
    RegexLimits.NumberFits(s, i);
    n :| IsNumber(s, i, DigitsEnd(s, i), n) && n == Decimal(s, i, DigitsEnd(s, i));
  }

  /**
   {n} repeats n times, {n,} at least n times, {,m} at most m times and {n,m} between n and m times, for
   numbers below the largest of 32 bits.
   */
  lemma Braces(s: seq<Byte>, m: nat, f: Flags, a: Node, k: nat, e: nat, lo: nat, hi: Option<nat>) returns (t: Node)
    requires Is(s, m, '{') && k == DigitsEnd(s, m + 1) && k <= |s| && lo == Decimal(s, m + 1, k) < UINT_MAX
    requires if Is(s, k, ',') then
               e == DigitsEnd(s, k + 1) <= |s| && hi == if e == k + 1 then None else Some(Decimal(s, k + 1, e))
             else k > m + 1 && e == k && hi == Some(lo)
    requires Is(s, e, '}') && !Is(s, e + 1, '?') && (hi.Some? ==> lo <= hi.value < UINT_MAX)
    ensures OnlyItem(s, m, f, a, e + 1, t)
    ensures Repeats(t, if f.explicitCaptures && a.CaptureNode? then a.child else a, lo, hi)
  {
    var min: U32, max: U32 := lo, if hi.Some? then hi.value else UINT_MAX;
    if k > m + 1 {
      var n := BracedBound(s, m + 1);
    }
    if Is(s, k, ',') && e > k + 1 {
      var n := BracedBound(s, k + 1);
    }
    hide IsNumber, Decimal;
    assert IsInterval(s, m + 1, e, min, max);
    assert IsQuantifier(s, m, e + 1, min, max);
    t := RepeatNode(min, max, false, Repeated(f, a));
    hide OnlyItem, Repeats, IsQuantifier;
    QuantifierItem(s, m, e + 1, f, a, min, max);
    RepeatMeans(t, hi);
  }

  // ----- one after the other, and one or the other -----

  /** The tree matches what a and then b match. */
  ghost predicate InTurn(t: Node, a: Node, b: Node) {
    forall x: seq<Byte>, p: nat, q: nat, ev ::
      Matches(t, x, p, q, ev) <==>
        exists m: nat, e1, e2 :: Matches(a, x, p, m, e1) && Matches(b, x, m, q, e2) && ev == e1 + e2
  }

  ghost predicate EitherOf(t: Node, a: Node, b: Node) {
    forall x: seq<Byte>, p: nat, q: nat, ev ::
      Matches(t, x, p, q, ev) <==> Matches(a, x, p, q, ev) || Matches(b, x, p, q, ev)
  }

  lemma OneInTurn(a: Node, x: seq<Byte>, p: nat, q: nat, ev: seq<Event>)
    requires MatchesSeq([a], x, p, q, ev)
    ensures Matches(a, x, p, q, ev)
  {
    assert [] + [a] == [a];
    var m, e1, e2 := SplitLast([], a, x, p, q, ev);
    assert e1 + e2 == e2;
  }

  lemma SplitPair(a: Node, b: Node, x: seq<Byte>, p: nat, q: nat, ev: seq<Event>)
    requires MatchesSeq([a, b], x, p, q, ev)
    ensures exists m: nat, e1, e2 :: Matches(a, x, p, m, e1) && Matches(b, x, m, q, e2) && ev == e1 + e2
  {
    assert [a] + [b] == [a, b];
    var m, e1, e2 := SplitLast([a], b, x, p, q, ev);
    OneInTurn(a, x, p, m, e1);
  }

  lemma JoinPair(a: Node, b: Node, x: seq<Byte>, p: nat, m: nat, q: nat, e1: seq<Event>, e2: seq<Event>)
    requires Matches(a, x, p, m, e1) && Matches(b, x, m, q, e2)
    ensures MatchesSeq([a, b], x, p, q, e1 + e2)
  {
    assert [] + [a] == [a] && [a] + [b] == [a, b];
    assert [] + e1 == e1;
    assert MatchesSeq([], x, p, p, []);
    JoinLast([], a, x, p, p, m, [], e1);
    JoinLast([a], b, x, p, m, q, e1, e2);
  }

  lemma PairInTurn(a: Node, b: Node)
    ensures InTurn(BranchNode([a, b]), a, b)
  {
    forall x: seq<Byte>, p: nat, q: nat, ev
      ensures Matches(BranchNode([a, b]), x, p, q, ev) <==>
        exists m: nat, e1, e2 :: Matches(a, x, p, m, e1) && Matches(b, x, m, q, e2) && ev == e1 + e2
    {
      if Matches(BranchNode([a, b]), x, p, q, ev) {
        SplitPair(a, b, x, p, q, ev);
      }
      if m: nat, e1, e2 :| Matches(a, x, p, m, e1) && Matches(b, x, m, q, e2) && ev == e1 + e2 {
        JoinPair(a, b, x, p, m, q, e1, e2);
      }
    }
  }

  /** Two items in a row. */
  lemma TwoItems(s: seq<Byte>, i: nat, m: nat, j: nat, f: Flags, a: Node, b: Node) returns (t: Node)
    requires i < m < j && IsItem(s, i, m, f, a) && IsItem(s, m, j, f, b)
    ensures IsBranch(s, i, j, f, t) && InTurn(t, a, b)
  {
    t := BranchNode([a, b]);
    ItemInside(s, i, m, f, a);
    assert IsItems(s, i, i, f, []);
    hide IsItem, IsItems, IsBranch;
    ItemsPush(s, i, i, m, f, [], a);
    ItemsPush(s, i, m, j, f, [] + [a], b);
    assert [] + [a] + [b] == [a, b];
    ItemsAreBranch(s, i, j, f, [a, b]);
    PairInTurn(a, b);
  }

  /** Two branches with a bar in between. */
  lemma TwoBranches(s: seq<Byte>, i: nat, m: nat, j: nat, f: Flags, a: Node, b: Node) returns (t: Node)
    requires i <= m < j && IsBranch(s, i, m, f, a) && Is(s, m, '|') && IsBranch(s, m + 1, j, f, b)
    ensures IsPattern(s, i, j, f, t) && EitherOf(t, a, b)
  {
    t := AlternationNode([a, b]);
    hide IsBranch, IsAlternatives, IsPattern;
    OneAlternative(s, i, m, f, a);
    AlternativesPush(s, i, m, j, f, [a], b);
    assert [a] + [b] == [a, b];
    AlternativesArePattern(s, i, j, f, [a, b]);
    forall x: seq<Byte>, p: nat, q: nat, ev
      ensures Matches(t, x, p, q, ev) <==> Matches(a, x, p, q, ev) || Matches(b, x, p, q, ev)
    {
      assert [a, b][0] == a && [a, b][1] == b;
    }
  }

  // ----- flags -----

  predicate HasLetter(s: seq<Byte>, i: nat, j: nat, c: char) {
    exists k :: i <= k < j && Is(s, k, c)
  }

  lemma RunMeans(s: seq<Byte>, i: nat, j: nat, sandbox: bool, add: Flags)
    requires FlagRun(s, i, j, sandbox, add)
    ensures i <= j <= |s| && !HasLetter(s, i, j, '-')
    ensures add.debug <==> !sandbox && HasLetter(s, i, j, 'd')
    ensures add.explicitCaptures <==> HasLetter(s, i, j, 'c')
    ensures add.binary <==> HasLetter(s, i, j, 'b')
  {
    forall k | i <= k < j
      ensures !Is(s, k, '-')
    {
      assert Is(s, k, 'd') || Is(s, k, 'c') || Is(s, k, 'b');
    }
  }

  lemma BehindMinus(s: seq<Byte>, m: nat, j: nat, c: char)
    requires Is(s, m, '-') && m < j && c != '-'
    ensures HasLetter(s, m, j, c) <==> HasLetter(s, m + 1, j, c)
  {
    if k :| m <= k < j && Is(s, k, c) {
      assert m + 1 <= k;
    }
  }

  /**
   A change of flags is cut by its one minus, at m, or has none. A flag is on if it was on or has a letter before
   the minus, and has none behind it; in a sandbox the letter d counts for nothing.
   */
  lemma FlagsMean(s: seq<Byte>, i: nat, j: nat, sandbox: bool, f: Flags, g: Flags) returns (m: nat)
    requires FlagChange(s, i, j, sandbox, f, g)
    ensures i <= m <= j <= |s| && !HasLetter(s, i, m, '-') && (m < j ==> Is(s, m, '-') && !HasLetter(s, m + 1, j, '-'))
    ensures g.binary <==> (f.binary || HasLetter(s, i, m, 'b')) && !HasLetter(s, m, j, 'b')
    ensures g.explicitCaptures <==> (f.explicitCaptures || HasLetter(s, i, m, 'c')) && !HasLetter(s, m, j, 'c')
    ensures g.debug <==>
      (f.debug || (!sandbox && HasLetter(s, i, m, 'd'))) && (sandbox || !HasLetter(s, m, j, 'd'))
  {
    var end, add := ChangeBegins(s, i, j, sandbox, f, g);
    m := end;
    RunMeans(s, i, m, sandbox, add);
    if Is(s, m, '-') {
      var sub :| FlagRun(s, m + 1, j, sandbox, sub) && g == Remove(Add(f, add), sub);
      RunMeans(s, m + 1, j, sandbox, sub);
      BehindMinus(s, m, j, 'b');
      BehindMinus(s, m, j, 'c');
      BehindMinus(s, m, j, 'd');
      hide FlagRun, HasLetter;
    }
  }

  // ----- groups -----

  /** The tree matches what p matches, and records where the group with this number begins and ends. */
  ghost predicate Grouped(t: Node, n: nat, p: Node) {
    forall x: seq<Byte>, i: nat, j: nat, ev ::
      Matches(t, x, i, j, ev) <==>
        exists inner :: Matches(p, x, i, j, inner) && ev == [Event(false, n, i)] + inner + [Event(true, n, j)]
  }

  /** A group captures what its pattern matches, unless captures are explicit and it is an alternation. */
  lemma CapturingGroup(s: seq<Byte>, i: nat, j: nat, f: Flags, t: Node)
    requires Is(s, i, '(') && !Is(s, i + 1, '?') && IsAtom(s, i, j, f, t)
    ensures j > i + 1 && Is(s, j - 1, ')')
    ensures if f.explicitCaptures && t.AlternationNode? then IsPattern(s, i + 1, j - 1, f, t)
            else exists n, p :: IsPattern(s, i + 1, j - 1, f, p) && Grouped(t, n, p)
  {
    var k, g, capture, p := GroupParts(s, i, j, f, t);
    assert k == i + 1 && g == f && capture;
    if !(f.explicitCaptures && p.AlternationNode?) {
      hide IsPattern, IsAtom;
      assert Grouped(t, t.capture, p);
    }
  }

  lemma PlainOpens(s: seq<Byte>, i: nat, c: nat, f: Flags, g: Flags)
    requires Is(s, i, '(') && Is(s, i + 1, '?') && FlagChange(s, i + 2, c, true, f, g) && Is(s, c, ':')
    ensures GroupOpens(s, i, c + 1, f, g, false)
  {
    hide FlagRun;
    var m, add := ChangeBegins(s, i + 2, c, true, f, g);
    RunMeans(s, i + 2, m, true, add);
    if Is(s, m, '-') {
      var sub :| FlagRun(s, m + 1, c, true, sub) && g == Remove(Add(f, add), sub);
      RunMeans(s, m + 1, c, true, sub);
    }
  }

  /** With "?:" and maybe a change of flags before the colon, it matches what its pattern matches under them. */
  lemma PlainGroup(s: seq<Byte>, i: nat, c: nat, j: nat, f: Flags, g: Flags, t: Node)
    requires Is(s, i, '(') && Is(s, i + 1, '?') && FlagChange(s, i + 2, c, true, f, g) && Is(s, c, ':')
    requires IsAtom(s, i, j, f, t)
    ensures c + 1 < j && Is(s, j - 1, ')') && IsPattern(s, c + 1, j - 1, g, t)
  {
    hide *;
    var k, g', capture, p := GroupParts(s, i, j, f, t);
    PlainOpens(s, i, c, f, g);
    GroupOpensUnique(s, i, f, c + 1, g, false, k, g', capture);
  }

  // ----- the names of classes -----

  const HEX_LETTERS: set<int> := (set c: int | 65 <= c <= 70) + (set c: int | 97 <= c <= 102)

  /** The bytes that a class is named for. */
  function BytesOf(cc: CClass): set<int> {
    match cc
    case Alnum => LETTERS + DIGITS
    case Alpha => LETTERS
    case Blank => {9, 32}
    case Cntrl => ASCII - VISIBLE - {32}
    case Digit => DIGITS
    case Graph => VISIBLE
    case Lower => LOWER
    case Print => VISIBLE + {32}
    case Punct => VISIBLE - LETTERS - DIGITS
    case Space => SPACES
    case Upper => UPPER
    case Xdigit => DIGITS + HEX_LETTERS
    case Any => ASCII
    case Line => LINE_BYTES
  }

  lemma BytesHeld(cc: CClass)
    ensures Has(cc, BytesOf(cc))
  {
    forall c: Byte
      ensures Holds(cc, c) <==> c in BytesOf(cc)
    {
      DigitsAndLetters(c);
      HexDigits(c);
      PrintedBytes(c);
      SpacesAndLines(c);
    }
  }

  /** aem_nfa_cclass_name. */
  function NameOf(cc: CClass): string {
    match cc
    case Alnum => "alnum"
    case Alpha => "alpha"
    case Blank => "blank"
    case Cntrl => "cntrl"
    case Digit => "digit"
    case Graph => "graph"
    case Lower => "lower"
    case Print => "print"
    case Punct => "punct"
    case Space => "space"
    case Upper => "upper"
    case Xdigit => "xdigit"
    case Any => "any"
    case Line => "line"
  }

  lemma AsciiLetters(s: string)
    requires |s| >= 3 && forall k :: 0 <= k < |s| ==> (s[k] as int) < 0x100
    ensures |Ascii(s)| == |s| && Ascii(s)[0] == s[0] as int && Ascii(s)[1] == s[1] as int && Ascii(s)[2] == s[2] as int
  {
  }

  lemma NamesDiffer(cc: CClass, cc': CClass)
    requires Ascii(NameOf(cc)) == Ascii(NameOf(cc'))
    ensures cc' == cc
  {
    hide Ascii;
    AsciiLetters(NameOf(cc));
    AsciiLetters(NameOf(cc'));
  }

  lemma ReadName(name: seq<Byte>, cc: CClass)
    ensures ClassNamed(name) == Some(cc) ==> name == Ascii(NameOf(cc))
    ensures name == Ascii(NameOf(cc)) ==> ClassNamed(name).Some?
  {
    hide Ascii;
  }

  /** A name is read as the class that has it. */
  lemma NameRead(name: seq<Byte>, cc: CClass)
    ensures ClassNamed(name) == Some(cc) <==> name == Ascii(NameOf(cc))
  {
    hide *;
    ReadName(name, cc);
    if name == Ascii(NameOf(cc)) {
      var cc' := ClassNamed(name).value;
      ReadName(name, cc');
      NamesDiffer(cc, cc');
    }
  }

  lemma OnlySort(c: Node)
    ensures SortOf([c], [c])
  {
    if RangeComplement.Comparable([c]) {
      RangeComplement.SortedAlike([c]);
    }
  }

  lemma OneSorted(c: Node, sorted: seq<Node>)
    requires SortOf([c], sorted)
    ensures sorted == [c]
  {
    hide RangeComplement.Comparable, RangeComplement.SortedByCompare;
    assert |multiset(sorted)| == |sorted| == 1;
    assert sorted[0] in multiset(sorted);
  }

  /** A bracket expression that holds one thing spells one tree. */
  lemma OneInBrackets(s: seq<Byte>, i: nat, b: nat, f: Flags, c: Node)
    requires Is(s, i, '[') && !Is(s, i + 1, '^') && i + 1 < b && IsRange(s, i + 1, b, c) && Is(s, b, ']')
    ensures OnlyAtom(s, i, f, b + 1, AlternationNode([c]))
  {
    var t := AlternationNode([c]);
    hide IsRange, IsAtom;
    assert IsRanges(s, i + 1, i + 1, []);
    RangesPush(s, i + 1, i + 1, b, [], c);
    assert [] + [c] == [c];
    hide IsRanges;
    OnlySort(c);
    assert BracketParts(s, i, b + 1, t, false, i + 1, b, [c], [c]);
    BracketsAreAtom(s, i, b + 1, f, t);
    forall j: nat, u | IsAtom(s, i, j, f, u)
      ensures j == b + 1 && u == t
    {
      PlainAtom(s, i, j, f, u);
      var neg, a': nat, b': nat, ts, sorted :| BracketParts(s, i, j, u, neg, a', b', ts, sorted);
      PartsEnd(s, i, b + 1, t, false, i + 1, b, [c], [c]);
      PartsEnd(s, i, j, u, neg, a', b', ts, sorted);
      FullRangesUnique(s, i + 1, b, [c], b', ts);
      OneSorted(c, sorted);
    }
  }

  lemma OneAlternativeTakes(c: Node, bytes: set<int>)
    requires TakesOne(c, bytes)
    ensures TakesOne(AlternationNode([c]), bytes)
  {
    forall x: seq<Byte>, p: nat, q: nat, ev
      ensures Matches(AlternationNode([c]), x, p, q, ev) <==> Matches(c, x, p, q, ev)
    {
      assert [c][0] == c;
    }
  }

  lemma NamedClassIs(s: seq<Byte>, i: nat, a: nat, b: nat, neg: bool, cc: CClass)
    requires Is(s, i, '[') && Is(s, i + 1, ':') && Caret(s, i + 2, a, neg) && a <= b <= |s|
    requires s[a..b] == Ascii(NameOf(cc)) && Is(s, b, ':') && Is(s, b + 1, ']')
    ensures IsRange(s, i, b + 2, ClassNode(neg, false, cc)) && i < b
  {
    NameRead(s[a..b], cc);
    hide ClassNamed, Ascii, NameOf, NoNamedClass, IsSomeRune;
    assert IsNamedClass(s, i, b + 2, ClassNode(neg, false, cc));
  }

  lemma NoCaret(s: seq<Byte>, i: nat)
    ensures Is(s, i, '[') ==> !Is(s, i, '^')
  {
  }

  /** So [[:digit:]] matches what \\d matches, and so on; a caret in front of the name turns it round. */
  lemma NamedBrackets(s: seq<Byte>, i: nat, a: nat, b: nat, f: Flags, neg: bool, cc: CClass) returns (t: Node)
    requires Is(s, i, '[') && Is(s, i + 1, '[') && Is(s, i + 2, ':') && Caret(s, i + 3, a, neg) && a <= b <= |s|
    requires s[a..b] == Ascii(NameOf(cc)) && Is(s, b, ':') && Is(s, b + 1, ']') && Is(s, b + 2, ']')
    ensures OnlyAtom(s, i, f, b + 3, t)
    ensures TakesOne(t, if neg then ALL_BYTES - BytesOf(cc) else BytesOf(cc))
  {
    var c, bytes := ClassNode(neg, false, cc), if neg then ALL_BYTES - BytesOf(cc) else BytesOf(cc);
    t := AlternationNode([c]);
    hide *;
    NamedClassIs(s, i + 1, a, b, neg, cc);
    NoCaret(s, i + 1);
    OneInBrackets(s, i, b + 2, f, c);
    BytesHeld(cc);
    ClassTakes(neg, cc, BytesOf(cc));
    OneAlternativeTakes(c, bytes);
  }
}
