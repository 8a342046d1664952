/** What trees a text can spell: the compiler's one blind spot, a lone alternative that fails, is not among them. */
module RegexShape {
  import opened Bytes
  import opened Ast
  import opened CaptureNumbers
  import opened CompiledTree
  import opened RegexGrammar
  import opened RegexTokens
  import opened RegexUnambiguous
  import RangeComplement

  lemma RangeIsLeaf(s: seq<Byte>, i: nat, j: nat, t: Node)
    requires IsRange(s, i, j, t)
    ensures Leaf(t)
  {
    hide NoNamedClass, IsSomeRune;
  }

  lemma RangesSplit(s: seq<Byte>, i: nat, j: nat, ts: seq<Node>) returns (m: nat)
    requires IsRanges(s, i, j, ts) && ts != []
    ensures IsRanges(s, i, m, ts[..|ts| - 1]) && IsRange(s, m, j, ts[|ts| - 1])
  {
    hide IsRange;
    var front, last := ts[..|ts| - 1], ts[|ts| - 1];
    m :| IsRanges(s, i, m, front) && (front != [] ==> !Is(s, m, ']')) && m < j && IsRange(s, m, j, last);
  }

  lemma {:induction false} RangesAreLeaves(s: seq<Byte>, i: nat, j: nat, ts: seq<Node>)
    requires IsRanges(s, i, j, ts)
    ensures forall k :: 0 <= k < |ts| ==> Leaf(ts[k])
    decreases |ts|
  {
    hide *;
    if ts != [] {
      var front, last := ts[..|ts| - 1], ts[|ts| - 1];
      var m := RangesSplit(s, i, j, ts);
      RangesAreLeaves(s, i, m, front);
      RangeIsLeaf(s, m, j, last);
      forall k | 0 <= k < |ts|
        ensures Leaf(ts[k])
      {
        assert ts[k] == if k < |front| then front[k] else last;
      }
    }
  }

  lemma BracketsShaped(s: seq<Byte>, i: nat, j: nat, t: Node)
    requires IsBrackets(s, i, j, t)
    ensures Shaped(t)
  {
    hide IsRanges, RangeComplement.ComplementOf;
    var neg, a: nat, b: nat, ts, sorted :| BracketParts(s, i, j, t, neg, a, b, ts, sorted);
    RangesAreLeaves(s, a, b, ts);
    SortKeeps(ts, sorted);
  }

  lemma {:induction false} AtomShaped(s: seq<Byte>, i: nat, j: nat, f: Flags, t: Node)
    requires i <= |s| && IsAtom(s, i, j, f, t)
    ensures Shaped(t)
    decreases |s| - i, 0
  {
    hide IsAtom, IsBrackets, GroupOpens, IsPattern, AtomOf;
    if Is(s, i, '(') {
      var k, g, capture, p := GroupParts(s, i, j, f, t);
      PatternShaped(s, k, j - 1, g, p);
    } else {
      PlainAtom(s, i, j, f, t);
      if Is(s, i, '[') {
        BracketsShaped(s, i, j, t);
      } else {
        AtomsAreLeaves(f);
      }
    }
  }

  lemma {:induction false} ItemShaped(s: seq<Byte>, i: nat, j: nat, f: Flags, t: Node)
    requires i <= |s| && IsItem(s, i, j, f, t)
    ensures Shaped(t)
    decreases |s| - i, 1
  {
    hide IsItem, IsAtom, StrayBrace, IsBounds;
    var m, a := ItemParts(s, i, j, f, t);
    AtomShaped(s, i, m, f, a);
  }

  lemma {:induction false} ItemsShaped(s: seq<Byte>, i: nat, j: nat, f: Flags, ts: seq<Node>)
    requires i <= |s| && IsItems(s, i, j, f, ts)
    ensures forall k :: 0 <= k < |ts| ==> Shaped(ts[k])
    decreases |s| - i, 2, |ts|
  {
    hide IsItems, IsItem, Shaped;
    if ts != [] {
      var m := ItemsSplit(s, i, j, f, ts);
      ItemsShaped(s, i, m, f, ts[..|ts| - 1]);
      ItemInside(s, m, j, f, ts[|ts| - 1]);
      ItemShaped(s, m, j, f, ts[|ts| - 1]);
      assert forall k :: 0 <= k < |ts| - 1 ==> ts[k] == ts[..|ts| - 1][k];
    }
  }

  lemma {:induction false} BranchShaped(s: seq<Byte>, i: nat, j: nat, f: Flags, t: Node)
    requires i <= |s| && IsBranch(s, i, j, f, t)
    ensures Shaped(t)
    decreases |s| - i, 3
  {
    hide IsBranch, IsItems;
    var ts := BranchItems(s, i, j, f, t);
    ItemsShaped(s, i, j, f, ts);
  }

  lemma {:induction false} AlternativesShaped(s: seq<Byte>, i: nat, j: nat, f: Flags, ts: seq<Node>)
    requires i <= |s| && IsAlternatives(s, i, j, f, ts)
    ensures forall k :: 0 <= k < |ts| ==> Shaped(ts[k])
    decreases |s| - i, 4, |ts|
  {
    hide IsBranch, Shaped;
    if |ts| == 1 {
      BranchShaped(s, i, j, f, ts[0]);
    } else if |ts| > 1 {
      hide IsAlternatives;
      var m := AlternativesSplit(s, i, j, f, ts);
      AlternativesShaped(s, i, m, f, ts[..|ts| - 1]);
      BranchShaped(s, m + 1, j, f, ts[|ts| - 1]);
      assert forall k :: 0 <= k < |ts| - 1 ==> ts[k] == ts[..|ts| - 1][k];
    }
  }

  lemma {:induction false} PatternShaped(s: seq<Byte>, i: nat, j: nat, f: Flags, t: Node)
    requires i <= |s| && IsPattern(s, i, j, f, t)
    ensures Shaped(t)
    decreases |s| - i, 5
  {
    hide IsPattern, IsAlternatives;
    var ts := PatternAlternatives(s, i, j, f, t);
    AlternativesShaped(s, i, j, f, ts);
  }
}
