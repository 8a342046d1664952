/**
 The grammar is unambiguous: from a given position there is one way to cut the text into atoms, items and
 alternatives, one place where reading stops, and one tree that is spelled, up to what the grammar leaves
 open: the numbers of captures and the order of ranges.
 */
module RegexUnambiguous {
  import opened Bytes
  import opened Ast
  import opened RegexGrammar
  import opened RegexTokens
  import Translate

  /** The same tree, apart from the numbers of captures and the order in which ranges were sorted. */
  ghost predicate Alike(t: Node, u: Node) {
    match t
    case RangeNode(_, _) => u == t
    case AtomNode(_) => u == t
    case ClassNode(_, _, _) => u == t
    case CaptureNode(_, child) => u.CaptureNode? && Alike(child, u.child)
    case RepeatNode(rmin, rmax, reluctant, child) =>
      && u.RepeatNode? && (u.rmin, u.rmax, u.reluctant) == (rmin, rmax, reluctant) && Alike(child, u.child)
    case BranchNode(ts) =>
      u.BranchNode? && |u.children| == |ts| && forall k :: 0 <= k < |ts| ==> Alike(ts[k], u.children[k])
    case AlternationNode(ts) =>
      && u.AlternationNode?
      && (|| SameBracket(ts, u.children)
          || (|u.children| == |ts| && forall k :: 0 <= k < |ts| ==> Alike(ts[k], u.children[k])))
  }

  ghost predicate AllAlike(ts: seq<Node>, us: seq<Node>) {
    |us| == |ts| && forall k :: 0 <= k < |ts| ==> Alike(ts[k], us[k])
  }

  lemma ChildrenAlike(ts: seq<Node>, us: seq<Node>)
    requires AllAlike(ts, us)
    ensures Alike(BranchNode(ts), BranchNode(us)) && Alike(AlternationNode(ts), AlternationNode(us))
  {
  }

  lemma BracketsAlike(ts: seq<Node>, us: seq<Node>)
    requires SameBracket(ts, us)
    ensures Alike(AlternationNode(ts), AlternationNode(us))
  {
  }

  lemma LeafAlike(t: Node)
    requires t.RangeNode? || t.AtomNode? || t.ClassNode?
    ensures Alike(t, t)
  {
  }

  lemma AllAlikeSnoc(ts: seq<Node>, us: seq<Node>)
    requires |us| == |ts| > 0 && AllAlike(ts[..|ts| - 1], us[..|us| - 1]) && Alike(ts[|ts| - 1], us[|us| - 1])
    ensures AllAlike(ts, us)
  {
    hide Alike;
    forall k | 0 <= k < |ts|
      ensures Alike(ts[k], us[k])
    {
      if k < |ts| - 1 {
        assert ts[..|ts| - 1][k] == ts[k] && us[..|us| - 1][k] == us[k];
      }
    }
  }

  lemma RepeatedAlike(f: Flags, a: Node, a': Node)
    requires Alike(a, a')
    ensures Alike(Repeated(f, a), Repeated(f, a'))
  {
  }

  /** What follows an atom is cut in one way. */
  lemma AfterUnique(s: seq<Byte>, m: nat, f: Flags, j: nat, a: Node, t: Node, j': nat, a': Node, t': Node)
    requires ItemAfter(s, m, j, f, a, t) && ItemAfter(s, m, j', f, a', t') && Alike(a, a')
    ensures j' == j && Alike(t, t')
  {
    hide IsQuantifier, StrayBrace, Repeated;
    RepeatedAlike(f, a, a');
    if BoundsIn(s, m, j, f, a, t) {
      var k, min, max := BoundsAreQuantifier(s, m, j, t);
      if BoundsIn(s, m, j', f, a', t') {
        var k', min', max' := BoundsAreQuantifier(s, m, j', t');
        QuantifierUnique(s, m, k, min, max, k', min', max');
      } else {
        NothingThere(s, m, j', f, a', t', k, min, max);
      }
    } else if BoundsIn(s, m, j', f, a', t') {
      var k', min', max' := BoundsAreQuantifier(s, m, j', t');
      NothingThere(s, m, j, f, a, t, k', min', max');
    } else {
      StrayIsBrace(s, m);
    }
  }

  // ----- atoms, items, branches and patterns -----

  /** Parentheses and bars are no atoms, and neither is the end of the text. */
  lemma NoAtomAt(s: seq<Byte>, i: nat, f: Flags)
    requires i == |s| || Is(s, i, ')') || Is(s, i, '|')
    ensures i <= |s| && NoAtom(s, i, f) && Stops(s, i, i, f)
  {
    if i < |s| {
      var c: Byte := s[i];
      assert s[i..|s|] == [c] + s[i + 1..|s|];
      Translate.AsciiFront(c, s[i + 1..|s|]);
      assert IsRune(s, i, i + 1, c, 0) && AtomOf(c, 0, f).None?;
    }
  }

  lemma BracketsAtBracket(s: seq<Byte>, i: nat, j: nat, t: Node)
    ensures IsBrackets(s, i, j, t) ==> Is(s, i, '[')
  {
  }

  lemma GroupParts(s: seq<Byte>, i: nat, j: nat, f: Flags, t: Node)
    returns (k: nat, g: Flags, capture: bool, p: Node)
    requires IsAtom(s, i, j, f, t) && Is(s, i, '(')
    ensures i < k < j <= |s| && GroupOpens(s, i, k, f, g, capture) && Is(s, j - 1, ')') && IsPattern(s, k, j - 1, g, p)
    ensures if !capture || (f.explicitCaptures && p.AlternationNode?) then t == p else t.CaptureNode? && t.child == p
  {
    hide IsBrackets, IsRune, AtomOf, GroupOpens, IsPattern;
    BracketsAtBracket(s, i, j, t);
    k, g, capture :| i < k < j && GroupOpens(s, i, k, f, g, capture) && Is(s, j - 1, ')')
      && (if !capture || (f.explicitCaptures && t.AlternationNode?) then IsPattern(s, k, j - 1, g, t)
          else
            && t.CaptureNode? && !(f.explicitCaptures && t.child.AlternationNode?)
            && IsPattern(s, k, j - 1, g, t.child));
    p := if !capture || (f.explicitCaptures && t.AlternationNode?) then t else t.child;
  }

  lemma OpensAtParen(s: seq<Byte>, i: nat, f: Flags)
    ensures forall k: nat, g, capture :: GroupOpens(s, i, k, f, g, capture) ==> Is(s, i, '(')
  {
  }

  lemma PlainAtom(s: seq<Byte>, i: nat, j: nat, f: Flags, t: Node)
    requires IsAtom(s, i, j, f, t) && !Is(s, i, '(')
    ensures if Is(s, i, '[') then IsBrackets(s, i, j, t)
            else exists c, esc :: IsRune(s, i, j, c, esc) && AtomOf(c, esc, f) == Some(t)
  {
    hide IsBrackets, IsRune, AtomOf, IsPattern;
    BracketsAtBracket(s, i, j, t);
    OpensAtParen(s, i, f);
  }

  /** The pattern of a group is read to its end. */
  lemma GroupEnds(s: seq<Byte>, k: nat, j: nat, g: Flags, p: Node)
    requires k <= j <= |s| && IsPattern(s, k, j, g, p) && Is(s, j, ')')
    ensures Ends(s, k, j, j, g, p)
  {
    hide IsPattern, NoAtom, Stops;
    NoAtomAt(s, j, g);
  }

  lemma BadGroupParts(s: seq<Byte>, i: nat, f: Flags)
    returns (k: nat, g: Flags, capture: bool, m: nat, j: nat, t: Node)
    requires i <= |s| && BadGroup(s, i, f)
    ensures i < k <= |s| && GroupOpens(s, i, k, f, g, capture) && Ends(s, k, m, j, g, t) && !Is(s, j, ')')
  {
    hide GroupOpens, Ends;
    k, g, capture, m, j, t :|
      i < k <= |s| && GroupOpens(s, i, k, f, g, capture) && Ends(s, k, m, j, g, t) && !Is(s, j, ')');
  }

  lemma AtomsAreLeaves(f: Flags)
    ensures forall c, esc ::
      AtomOf(c, esc, f).Some? ==> AtomOf(c, esc, f).value.AtomNode? || AtomOf(c, esc, f).value.ClassNode?
  {
  }

  lemma {:induction false} AtomUnique(s: seq<Byte>, i: nat, f: Flags, j: nat, t: Node, j': nat, t': Node)
    requires i <= |s| && IsAtom(s, i, j, f, t) && IsAtom(s, i, j', f, t')
    ensures j' == j && Alike(t, t')
    decreases |s| - i, 0
  {
    hide IsAtom, IsBrackets, GroupOpens, IsPattern, Ends, AtomOf;
    if Is(s, i, '(') {
      var k, g, capture, p := GroupParts(s, i, j, f, t);
      var k', g', capture', p' := GroupParts(s, i, j', f, t');
      GroupOpensUnique(s, i, f, k, g, capture, k', g', capture');
      GroupEnds(s, k, j - 1, g, p);
      GroupEnds(s, k, j' - 1, g, p');
      EndsUnique(s, k, g, j - 1, j - 1, p, j' - 1, j' - 1, p');
    } else {
      PlainAtom(s, i, j, f, t);
      PlainAtom(s, i, j', f, t');
      if Is(s, i, '[') {
        BracketsUnique(s, i, j, t, j', t');
        BracketsAlike(t.children, t'.children);
      } else {
        AtomsAreLeaves(f);
        LeafAlike(t);
      }
    }
  }

  /** Where an atom begins, there is no reason to stop. */
  lemma {:induction false} AtomExcludes(s: seq<Byte>, i: nat, f: Flags, j: nat, t: Node)
    requires i <= |s|
    ensures !(IsAtom(s, i, j, f, t) && NoAtom(s, i, f))
    decreases |s| - i, 1
  {
    hide IsAtom, IsBrackets, BadBrackets, GroupOpens, IsPattern, AtomOf;
    if IsAtom(s, i, j, f, t) {
      if Is(s, i, '(') {
        var k, g, capture, p := GroupParts(s, i, j, f, t);
        GroupEnds(s, k, j - 1, g, p);
        if BadGroup(s, i, f) {
          hide Ends;
          var k', g', capture', m, e, p' := BadGroupParts(s, i, f);
          GroupOpensUnique(s, i, f, k, g, capture, k', g', capture');
          EndsUnique(s, k, g, j - 1, j - 1, p, m, e, p');
        }
      } else {
        PlainAtom(s, i, j, f, t);
        if Is(s, i, '[') {
          BracketsExclude(s, i, j, t);
        }
      }
    }
  }

  lemma ItemParts(s: seq<Byte>, i: nat, j: nat, f: Flags, t: Node) returns (m: nat, a: Node)
    requires IsItem(s, i, j, f, t)
    ensures i <= m <= j && IsAtom(s, i, m, f, a) && ItemAfter(s, m, j, f, a, t)
  {
    hide IsAtom, ItemAfter;
    m, a :| i <= m <= j && IsAtom(s, i, m, f, a) && ItemAfter(s, m, j, f, a, t);
  }

  lemma {:induction false} ItemUnique(s: seq<Byte>, i: nat, f: Flags, j: nat, t: Node, j': nat, t': Node)
    requires i <= |s| && IsItem(s, i, j, f, t) && IsItem(s, i, j', f, t')
    ensures j' == j && Alike(t, t')
    decreases |s| - i, 2
  {
    hide IsItem, IsAtom, ItemAfter;
    var m, a := ItemParts(s, i, j, f, t);
    var m', a' := ItemParts(s, i, j', f, t');
    AtomUnique(s, i, f, m, a, m', a');
    AfterUnique(s, m, f, j, a, t, j', a', t');
  }

  lemma {:induction false} ItemExcludes(s: seq<Byte>, i: nat, f: Flags, j: nat, t: Node, e: nat)
    requires IsItem(s, i, j, f, t) && i <= |s|
    ensures !Stops(s, i, e, f)
    decreases |s| - i, 3
  {
    hide IsItem, IsAtom, ItemAfter, NoAtom, BadBrace;
    var m, a := ItemParts(s, i, j, f, t);
    AtomExcludes(s, i, f, m, a);
    if i < e && Stops(s, i, e, f) {
      var a' :| IsAtom(s, i, e, f, a');
      AtomUnique(s, i, f, m, a, e, a');
      BadBraceEnds(s, m, j, f, a, t);
    }
  }

  lemma {:induction false} StopsUnique(s: seq<Byte>, i: nat, f: Flags, e: nat, e': nat)
    requires Stops(s, i, e, f) && Stops(s, i, e', f)
    ensures e' == e
    decreases |s| - i, 3
  {
    hide IsAtom, NoAtom, BadBrace;
    if i < e {
      var a :| IsAtom(s, i, e, f, a);
      AtomExcludes(s, i, f, e, a);
      if i < e' {
        var a' :| IsAtom(s, i, e', f, a');
        AtomUnique(s, i, f, e, a, e', a');
      }
    } else if i < e' {
      var a' :| IsAtom(s, i, e', f, a');
      AtomExcludes(s, i, f, e', a');
    }
  }

  lemma ItemsSplit(s: seq<Byte>, i: nat, j: nat, f: Flags, ts: seq<Node>) returns (m: nat)
    requires IsItems(s, i, j, f, ts) && ts != []
    ensures i <= m < j && IsItems(s, i, m, f, ts[..|ts| - 1]) && IsItem(s, m, j, f, ts[|ts| - 1])
  {
    hide IsItem;
    m :| i <= m < j && IsItems(s, i, m, f, ts[..|ts| - 1]) && IsItem(s, m, j, f, ts[|ts| - 1]);
  }

  lemma RunesInside(s: seq<Byte>, i: nat, j: nat)
    ensures forall c, esc :: IsRune(s, i, j, c, esc) ==> i < j <= |s|
  {
  }

  /** Items begin inside the text. */
  lemma ItemInside(s: seq<Byte>, i: nat, j: nat, f: Flags, t: Node)
    requires IsItem(s, i, j, f, t)
    ensures i < |s|
  {
    hide IsItem, IsAtom, ItemAfter;
    var m, a := ItemParts(s, i, j, f, t);
    if !Is(s, i, '(') {
      hide IsBrackets, AtomOf;
      PlainAtom(s, i, m, f, a);
      BracketsAtBracket(s, i, m, a);
      RunesInside(s, i, m);
    }
  }

  lemma {:induction false} ItemsUnique(s: seq<Byte>, i: nat, f: Flags, j: nat, ts: seq<Node>, j': nat, ts': seq<Node>)
    requires i <= |s| && IsItems(s, i, j, f, ts) && IsItems(s, i, j', f, ts') && |ts'| == |ts|
    ensures j' == j && AllAlike(ts, ts')
    decreases |s| - i, 4, |ts|
  {
    if ts != [] {
      hide IsItems, IsItem;
      var m := ItemsSplit(s, i, j, f, ts);
      var m' := ItemsSplit(s, i, j', f, ts');
      ItemsUnique(s, i, f, m, ts[..|ts| - 1], m', ts'[..|ts| - 1]);
      ItemInside(s, m, j, f, ts[|ts| - 1]);
      ItemUnique(s, m, f, j, ts[|ts| - 1], j', ts'[|ts| - 1]);
      AllAlikeSnoc(ts, ts');
    }
  }

  /** After the first n of some items there is another. */
  lemma {:induction false} ItemsPrefix(s: seq<Byte>, i: nat, j: nat, f: Flags, ts: seq<Node>, n: nat)
    returns (m: nat, j': nat)
    requires IsItems(s, i, j, f, ts) && n < |ts|
    ensures i <= m < |s| && IsItems(s, i, m, f, ts[..n]) && IsItem(s, m, j', f, ts[n])
    decreases |ts|
  {
    hide IsItems, IsItem;
    m := ItemsSplit(s, i, j, f, ts);
    j' := j;
    ItemInside(s, m, j, f, ts[|ts| - 1]);
    if n < |ts| - 1 {
      var front := ts[..|ts| - 1];
      m, j' := ItemsPrefix(s, i, m, f, front, n);
      assert front[..n] == ts[..n] && front[n] == ts[n];
    }
  }

  lemma StopInside(s: seq<Byte>, m: nat, e: nat, f: Flags)
    requires Stops(s, m, e, f)
    ensures m <= e <= |s|
  {
  }

  lemma ItemsGrow(s: seq<Byte>, i: nat, j: nat, f: Flags, ts: seq<Node>)
    requires IsItems(s, i, j, f, ts)
    ensures i <= j
  {
  }

  /** Items that are read until reading stops: there are no more and no fewer of them. */
  lemma {:induction false} FullItemsUnique(s: seq<Byte>, i: nat, f: Flags, m: nat, e: nat, ts: seq<Node>,
                                           m': nat, e': nat, ts': seq<Node>)
    requires i <= |s| && IsItems(s, i, m, f, ts) && Stops(s, m, e, f)
    requires IsItems(s, i, m', f, ts') && Stops(s, m', e', f)
    ensures m' == m && e' == e && AllAlike(ts, ts')
    decreases |s| - i, 5
  {
    hide IsItems, IsItem, Stops;
    StopInside(s, m, e, f);
    ItemsGrow(s, i, m, f, ts);
    if |ts| < |ts'| {
      var k, j := ItemsPrefix(s, i, m', f, ts', |ts|);
      ItemsUnique(s, i, f, m, ts, k, ts'[..|ts|]);
      ItemExcludes(s, m, f, j, ts'[|ts|], e);
    } else if |ts'| < |ts| {
      var k, j := ItemsPrefix(s, i, m, f, ts, |ts'|);
      ItemsUnique(s, i, f, m', ts', k, ts[..|ts'|]);
      ItemExcludes(s, m', f, j, ts[|ts'|], e');
    } else {
      ItemsUnique(s, i, f, m, ts, m', ts');
      StopsUnique(s, m, f, e, e');
    }
  }

  lemma AtomMoves(s: seq<Byte>, i: nat, j: nat, f: Flags, t: Node)
    requires IsAtom(s, i, j, f, t)
    ensures i < j
  {
    hide IsAtom, IsBrackets, IsPattern, GroupOpens, AtomOf, BadBrackets;
    if Is(s, i, '(') {
      var _, _, _, _ := GroupParts(s, i, j, f, t);
    } else {
      PlainAtom(s, i, j, f, t);
      RunesInside(s, i, j);
      if Is(s, i, '[') {
        BracketsExclude(s, i, j, t);
      }
    }
  }

  lemma OneItem(s: seq<Byte>, i: nat, j: nat, f: Flags, t: Node)
    requires IsItem(s, i, j, f, t) && i <= |s|
    ensures i < j && IsItems(s, i, j, f, [t])
  {
    hide IsItem, IsAtom, ItemAfter;
    assert IsItems(s, i, i, f, []);
    var m, a := ItemParts(s, i, j, f, t);
    AtomMoves(s, i, m, f, a);
    ItemsPush(s, i, i, j, f, [], t);
    assert [] + [t] == [t];
  }

  lemma BranchItems(s: seq<Byte>, i: nat, j: nat, f: Flags, t: Node) returns (ts: seq<Node>)
    requires IsBranch(s, i, j, f, t) && i <= |s|
    ensures i <= j && IsItems(s, i, j, f, ts) && t == if |ts| == 1 then ts[0] else BranchNode(ts)
  {
    hide IsItem, IsItems;
    if t.BranchNode? && |t.children| != 1 && IsItems(s, i, j, f, t.children) {
      ts := t.children;
      ItemsGrow(s, i, j, f, ts);
    } else {
      ts := [t];
      OneItem(s, i, j, f, t);
    }
  }

  lemma {:induction false} BranchUnique(s: seq<Byte>, i: nat, f: Flags, m: nat, e: nat, t: Node,
                                        m': nat, e': nat, t': Node)
    requires i <= |s| && IsBranch(s, i, m, f, t) && Stops(s, m, e, f)
    requires IsBranch(s, i, m', f, t') && Stops(s, m', e', f)
    ensures m' == m && e' == e && Alike(t, t')
    decreases |s| - i, 6
  {
    hide IsBranch, IsItems, Stops;
    var ts := BranchItems(s, i, m, f, t);
    var ts' := BranchItems(s, i, m', f, t');
    FullItemsUnique(s, i, f, m, e, ts, m', e', ts');
    ChildrenAlike(ts, ts');
  }

  lemma AlternativesSplit(s: seq<Byte>, i: nat, j: nat, f: Flags, ts: seq<Node>) returns (m: nat)
    requires IsAlternatives(s, i, j, f, ts) && |ts| > 1
    ensures i <= m < j && Is(s, m, '|') && IsAlternatives(s, i, m, f, ts[..|ts| - 1])
    ensures IsBranch(s, m + 1, j, f, ts[|ts| - 1])
  {
    hide IsBranch;
    m :| i <= m < j && Is(s, m, '|') && IsAlternatives(s, i, m, f, ts[..|ts| - 1])
      && IsBranch(s, m + 1, j, f, ts[|ts| - 1]);
  }

  lemma {:induction false} AlternativesUnique(s: seq<Byte>, i: nat, f: Flags, m: nat, e: nat, ts: seq<Node>,
                                              m': nat, e': nat, ts': seq<Node>)
    requires i <= |s| && IsAlternatives(s, i, m, f, ts) && Stops(s, m, e, f)
    requires IsAlternatives(s, i, m', f, ts') && Stops(s, m', e', f) && |ts'| == |ts|
    ensures m' == m && e' == e && AllAlike(ts, ts')
    decreases |s| - i, 7, |ts|
  {
    hide IsBranch, Stops;
    if |ts| == 1 {
      BranchUnique(s, i, f, m, e, ts[0], m', e', ts'[0]);
    } else if |ts| > 1 {
      hide *;
      var b := AlternativesSplit(s, i, m, f, ts);
      var b' := AlternativesSplit(s, i, m', f, ts');
      NoAtomAt(s, b, f);
      NoAtomAt(s, b', f);
      AlternativesUnique(s, i, f, b, b, ts[..|ts| - 1], b', b', ts'[..|ts| - 1]);
      BranchUnique(s, b + 1, f, m, e, ts[|ts| - 1], m', e', ts'[|ts| - 1]);
      AllAlikeSnoc(ts, ts');
    }
  }

  /** After the first n of some alternatives there is a bar. */
  lemma {:induction false} AlternativesPrefix(s: seq<Byte>, i: nat, j: nat, f: Flags, ts: seq<Node>, n: nat)
    returns (m: nat)
    requires IsAlternatives(s, i, j, f, ts) && 0 < n < |ts|
    ensures IsAlternatives(s, i, m, f, ts[..n]) && Is(s, m, '|') && Stops(s, m, m, f)
    decreases |ts|
  {
    hide IsAlternatives, IsBranch, Stops;
    m := AlternativesSplit(s, i, j, f, ts);
    if n == |ts| - 1 {
      NoAtomAt(s, m, f);
    } else {
      var front := ts[..|ts| - 1];
      m := AlternativesPrefix(s, i, m, f, front, n);
      assert front[..n] == ts[..n];
    }
  }

  lemma PatternAlternatives(s: seq<Byte>, i: nat, j: nat, f: Flags, t: Node) returns (ts: seq<Node>)
    requires IsPattern(s, i, j, f, t)
    ensures ts != [] && IsAlternatives(s, i, j, f, ts) && t == if |ts| == 1 then ts[0] else AlternationNode(ts)
  {
    hide IsAlternatives, IsBranch;
    if IsBranch(s, i, j, f, t) {
      ts := [t];
      OneAlternative(s, i, j, f, t);
    } else {
      ts := t.children;
    }
  }

  /** From one place, a pattern is read in one way to one end. */
  lemma {:induction false} EndsUnique(s: seq<Byte>, i: nat, f: Flags, m: nat, e: nat, t: Node,
                                      m': nat, e': nat, t': Node)
    requires i <= |s|
    ensures Ends(s, i, m, e, f, t) && Ends(s, i, m', e', f, t') ==> m' == m && e' == e && Alike(t, t')
    decreases |s| - i, 8
  {
    hide IsPattern, IsAlternatives, Stops;
    if Ends(s, i, m, e, f, t) && Ends(s, i, m', e', f, t') {
      var ts := PatternAlternatives(s, i, m, f, t);
      var ts' := PatternAlternatives(s, i, m', f, t');
      if |ts| < |ts'| {
        var k := AlternativesPrefix(s, i, m', f, ts', |ts|);
        AlternativesUnique(s, i, f, m, e, ts, k, k, ts'[..|ts|]);
      } else if |ts'| < |ts| {
        var k := AlternativesPrefix(s, i, m, f, ts, |ts'|);
        AlternativesUnique(s, i, f, m', e', ts', k, k, ts[..|ts'|]);
      } else {
        AlternativesUnique(s, i, f, m, e, ts, m', e', ts');
        ChildrenAlike(ts, ts');
      }
    }
  }

  // ----- whole texts -----

  /** The whole text spells a pattern. */
  ghost predicate Spelled(s: seq<Byte>, f: Flags) {
    exists t :: IsPattern(s, 0, |s|, f, t)
  }

  /** A text spells one tree. */
  lemma TreeUnique(s: seq<Byte>, f: Flags, t: Node, u: Node)
    ensures IsPattern(s, 0, |s|, f, t) && IsPattern(s, 0, |s|, f, u) ==> Alike(t, u)
  {
    hide IsPattern, NoAtom, Stops;
    if IsPattern(s, 0, |s|, f, t) && IsPattern(s, 0, |s|, f, u) {
      NoAtomAt(s, |s|, f);
      EndsUnique(s, 0, f, |s|, |s|, t, |s|, |s|, u);
    }
  }

  lemma StopsInside(s: seq<Byte>, m: nat, e: nat, f: Flags)
    requires Stops(s, m, e, f)
    ensures e == |s| ==> m == |s|
  {
    hide IsAtom, NoAtom;
  }

  /** However a text is read to an end, that is the end of the text exactly if the text spells a pattern. */
  lemma SpelledExactly(s: seq<Byte>, f: Flags, m: nat, e: nat, t: Node)
    ensures Ends(s, 0, m, e, f, t) ==> (e == |s| <==> Spelled(s, f)) && (e == |s| ==> m == |s|)
  {
    hide IsPattern, NoAtom, IsAtom;
    if Ends(s, 0, m, e, f, t) {
      StopsInside(s, m, e, f);
      if t' :| IsPattern(s, 0, |s|, f, t') {
        NoAtomAt(s, |s|, f);
        EndsUnique(s, 0, f, m, e, t, |s|, |s|, t');
      }
    }
  }
}
