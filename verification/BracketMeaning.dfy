/** What bracket expressions match once they are compiled, and exactly when that is what they say. */
module BracketMeaning {
  import opened Bytes
  import opened NfaInsn
  import opened NfaSemantics
  import opened Ast
  import opened NfaProgram
  import opened CompiledTree
  import opened RangeComplement
  import opened RegexGrammar
  import opened RegexTokens
  import Translate

  // ----- alternations of ranges -----

  /** Some range begins above a byte and reaches the last byte or beyond. */
  predicate StartsAbove(rs: seq<Node>)
    requires AllRanges(rs)
  {
    exists k :: 0 <= k < |rs| && rs[k].min > 0xFF && rs[k].max >= 0xFF
  }

  /** What the code of these ranges takes: the bytes in them and, because of the clamp, perhaps the last byte. */
  ghost predicate Takes(rs: seq<Node>, v: Byte)
    requires AllRanges(rs)
  {
    Covers(rs, v) || (v == 0xFF && StartsAbove(rs))
  }

  lemma EffectiveRanges(rs: seq<Node>, sc: bool, v: Byte)
    requires AllRanges(rs)
    ensures AllRanges(EffectiveAll(rs, sc)) && (Covers(EffectiveAll(rs, sc), v) <==> Takes(rs, v))
  {
    var us := EffectiveAll(rs, sc);
    if Covers(us, v) {
      var k :| 0 <= k < |us| && us[k].min <= v <= us[k].max;
      assert us[k] == Effective(rs[k], sc);
      assert rs[k].min <= v <= rs[k].max || (v == 0xFF && rs[k].min > 0xFF && rs[k].max >= 0xFF);
    }
    if Covers(rs, v) {
      var k :| 0 <= k < |rs| && rs[k].min <= v <= rs[k].max;
      assert us[k] == Effective(rs[k], sc) == rs[k];
    }
    if v == 0xFF && StartsAbove(rs) {
      var k :| 0 <= k < |rs| && rs[k].min > 0xFF && rs[k].max >= 0xFF;
      assert us[k] == Effective(rs[k], sc) == LAST_BYTE;
    }
  }

  lemma RangesAreWhole(rs: seq<Node>, sc: bool)
    requires AllRanges(rs)
    ensures Whole(AlternationNode(rs))
    ensures Effective(AlternationNode(rs), sc) ==
      if rs == [] then BranchNode([]) else AlternationNode(EffectiveAll(rs, sc))
  {
  }

  lemma NothingMatches(s: seq<Byte>, pos: nat, ev: seq<Event>)
    ensures Matches(BranchNode([]), s, 0, pos, ev) <==> pos == 0 && ev == []
  {
  }

  /** The code of an alternation of ranges takes one byte; without any range it takes the empty string. */
  lemma RangesAccept(rs: seq<Node>, sc: bool, s: seq<Byte>, pos: nat, ev: seq<Event>)
    requires AllRanges(rs)
    ensures OwnAccepts(AlternationNode(rs), sc, s, pos, ev) <==>
      ev == [] && if rs == [] then pos == 0 else pos == 1 && s != [] && Takes(rs, s[0])
  {
    hide OwnAccepts, Takes, Effective, EffectiveAll, Whole, Matches;
    MeaningIsOwn(AlternationNode(rs), sc, s, pos, ev);
    RangesAreWhole(rs, sc);
    if rs != [] {
      var us := EffectiveAll(rs, sc);
      if s != [] {
        EffectiveRanges(rs, sc, s[0]);
      } else {
        EffectiveRanges(rs, sc, 0);
      }
      RangesMatch(us, s, 0, pos, ev);
    } else {
      NothingMatches(s, pos, ev);
    }
  }

  // ----- bracket expressions -----

  /** The code of t takes one byte, in one of the ranges ts or, if neg, in none of them. */
  ghost predicate TakesOneByte(t: Node, sc: bool, ts: seq<Node>, neg: bool)
    requires AllRanges(ts)
  {
    forall s: seq<Byte>, pos: nat, ev ::
      OwnAccepts(t, sc, s, pos, ev) <==> ev == [] && pos == 1 && s != [] && Covers(ts, s[0]) != neg
  }

  /** Whatever order the ranges are sorted in. */
  lemma TakesExactly(out: seq<Node>, sc: bool, ts: seq<Node>, neg: bool)
    requires AllRanges(out) && AllRanges(ts)
    ensures TakesOneByte(AlternationNode(out), sc, ts, neg) <==>
      out != [] && forall v: Byte :: Takes(out, v) <==> Covers(ts, v) != neg
  {
    var t := AlternationNode(out);
    hide OwnAccepts, Takes, Covers;
    forall s: seq<Byte>, pos: nat, ev
      ensures OwnAccepts(t, sc, s, pos, ev) <==>
        ev == [] && if out == [] then pos == 0 else pos == 1 && s != [] && Takes(out, s[0])
    {
      RangesAccept(out, sc, s, pos, ev);
    }
    if out == [] {
      assert OwnAccepts(t, sc, [], 0, []);
    }
    if TakesOneByte(t, sc, ts, neg) && out != [] {
      forall v: Byte
        ensures Takes(out, v) <==> Covers(ts, v) != neg
      {
        var s: seq<Byte> := [v];
        assert s[0] == v;
        assert OwnAccepts(t, sc, s, 1, []) <==> Takes(out, v);
      }
    }
  }

  lemma AboveIsElement(rs: seq<Node>)
    requires AllRanges(rs)
    ensures StartsAbove(rs) <==> exists r :: r in rs && r.RangeNode? && r.min > 0xFF && r.max >= 0xFF
  {
    if r :| r in rs && r.RangeNode? && r.min > 0xFF && r.max >= 0xFF {
      var k :| 0 <= k < |rs| && rs[k] == r;
    }
  }

  lemma SameRanges(ts: seq<Node>, sorted: seq<Node>)
    requires AllRanges(ts) && AllRanges(sorted) && multiset(sorted) == multiset(ts)
    ensures forall v: U32 :: Covers(sorted, v) <==> Covers(ts, v)
    ensures StartsAbove(sorted) <==> StartsAbove(ts)
    ensures sorted == [] <==> ts == []
  {
    forall v: U32
      ensures Covers(sorted, v) <==> Covers(ts, v)
    {
      CoversSame(ts, sorted, v);
      CoversSame(sorted, ts, v);
    }
    assert forall r :: r in sorted <==> r in ts by {
      forall r
        ensures r in sorted <==> r in ts
      {
        assert r in multiset(sorted) <==> r in multiset(ts);
      }
    }
    AboveIsElement(sorted);
    AboveIsElement(ts);
    assert |multiset(sorted)| == |sorted| && |multiset(ts)| == |ts|;
  }

  /**
   A bracket expression of ranges, as compiled: one byte in one of its ranges, exactly if it is not empty
   and the clamp adds no byte.
   */
  lemma PlainBrackets(s: seq<Byte>, i: nat, j: nat, t: Node, a: nat, b: nat,
                      ts: seq<Node>, sorted: seq<Node>, sc: bool)
    requires BracketParts(s, i, j, t, false, a, b, ts, sorted) && AllRanges(ts)
    ensures TakesOneByte(t, sc, ts, false) <==> ts != [] && (StartsAbove(ts) ==> Covers(ts, 0xFF))
  {
    hide IsRanges, TakesOneByte, Covers, StartsAbove;
    SortKeeps(ts, sorted);
    TakesExactly(sorted, sc, ts, false);
    SameRanges(ts, sorted);
  }

  /** The j-th range and the gap before the k-th have a byte in common. */
  predicate HitsByte(rs: seq<Node>, j: nat, k: nat)
    requires AllRanges(rs) && j < k <= |rs|
  {
    Hits(rs, j, k) && rs[j].min <= 0xFF && Wrap(PrevMax(rs, k) + 1) <= 0xFF
  }

  /** A byte is both in a range and in a gap exactly if a range meets a later gap in some byte. */
  lemma ByteHitExactly(rs: seq<Node>)
    requires AllRanges(rs) && SortedByMin(rs)
    ensures (exists v: Byte :: Covers(rs, v) && Covers(ComplementOf(rs), v)) <==>
      exists j: nat, k: nat :: j < k <= |rs| && HitsByte(rs, j, k)
  {
    hide ComplementOf;
    if v: Byte :| Covers(rs, v) && Covers(ComplementOf(rs), v) {
      ComplementCovers(rs, v);
      var k: nat :| k <= |rs| && InGap(rs, k, v);
      var j: nat :| j < |rs| && rs[j].min <= v <= rs[j].max;
      NotBefore(rs, j, k, v);
      HitMeans(rs, j, k, v);
      assert HitsByte(rs, j, k);
    }
    if j: nat, k: nat :| j < k <= |rs| && HitsByte(rs, j, k) {
      var v := HitHas(rs, j, k);
      ComplementCovers(rs, v);
      assert Covers(rs, v);
    }
  }

  lemma MissedAreTaken(ts: seq<Node>, sorted: seq<Node>)
    requires AllRanges(ts) && AllRanges(sorted) && SortedByMin(sorted) && sorted != []
    requires forall v: U32 :: Covers(sorted, v) <==> Covers(ts, v)
    ensures forall v: Byte :: !Covers(ts, v) ==> Covers(ComplementOf(sorted), v)
  {
    hide ComplementOf;
    forall v: Byte | !Covers(ts, v)
      ensures Covers(ComplementOf(sorted), v)
    {
      hide Covers;
      MissedIsInGap(sorted, v, 0);
      ComplementCovers(sorted, v);
    }
  }

  /**
   A negated one, as compiled: one byte in none of its ranges, exactly if something is left over for the
   code, no range meets a later gap in a byte, and the clamp adds no byte that is in a range. The condition
   on the order is that the comparison can tell the ranges apart.
   */
  lemma NegatedBrackets(s: seq<Byte>, i: nat, j: nat, t: Node, a: nat, b: nat,
                        ts: seq<Node>, sorted: seq<Node>, sc: bool)
    requires BracketParts(s, i, j, t, true, a, b, ts, sorted) && Comparable(ts)
    ensures TakesOneByte(t, sc, ts, true) <==>
      && ComplementOf(sorted) != []
      && (forall j: nat, k: nat :: j < k <= |sorted| ==> !HitsByte(sorted, j, k))
      && !(Covers(ts, 0xFF) && StartsAbove(ComplementOf(sorted)))
  {
    hide IsRanges, TakesOneByte, HitsByte, StartsAbove, ComplementOf;
    SortedAlike(sorted);
    SameRanges(ts, sorted);
    TakesExactly(ComplementOf(sorted), sc, ts, true);
    ByteHitExactly(sorted);
    if ts == [] {
      ComplementOfNothing();
    } else {
      hide Covers;
      MissedAreTaken(ts, sorted);
    }
  }

  lemma RestIsAbove(out: seq<Node>, ts: seq<Node>)
    requires AllRanges(out) && AllRanges(ts) && forall k :: 0 <= k < |out| ==> out[k].min <= out[k].max
    requires forall v: U32 :: Covers(out, v) <==> !Covers(ts, v)
    ensures (out != [] && forall v: Byte :: Takes(out, v) <==> !Covers(ts, v)) <==>
      && (exists v: U32 :: !Covers(ts, v))
      && (Covers(ts, 0xFF) ==> forall v: U32 :: v > 0xFF ==> Covers(ts, v))
  {
    if out != [] {
      assert Covers(out, out[0].min);
      assert !Covers(ts, out[0].min);
    }
    if v: U32 :| !Covers(ts, v) {
      assert Covers(out, v);
      assert out != [];
    }
    if StartsAbove(out) {
      var k :| 0 <= k < |out| && out[k].min > 0xFF && out[k].max >= 0xFF;
      assert Covers(out, out[k].min);
    }
    if v: U32 :| Covers(ts, 0xFF) && v > 0xFF && !Covers(ts, v) {
      assert Covers(out, v);
      var k :| 0 <= k < |out| && out[k].min <= v <= out[k].max;
      assert !Covers(out, 0xFF);
      assert StartsAbove(out);
      assert Takes(out, 0xFF);
    }
  }

  /** If no range reaches into a later gap, the condition can be read off the ranges as they are written. */
  lemma NegatedAsWritten(s: seq<Byte>, i: nat, j: nat, t: Node, a: nat, b: nat,
                         ts: seq<Node>, sorted: seq<Node>, sc: bool)
    requires BracketParts(s, i, j, t, true, a, b, ts, sorted) && ts != [] && Comparable(ts) && Unbroken(sorted)
    ensures TakesOneByte(t, sc, ts, true) <==>
      && (exists v: U32 :: !Covers(ts, v))
      && (Covers(ts, 0xFF) ==> forall v: U32 :: v > 0xFF ==> Covers(ts, v))
  {
    hide IsRanges, TakesOneByte, ComplementOf, Unbroken;
    SortedAlike(sorted);
    SameRanges(ts, sorted);
    var out := ComplementOf(sorted);
    TakesExactly(out, sc, ts, true);
    OutputNonempty(sorted);
    forall v: U32
      ensures Covers(out, v) <==> !Covers(ts, v)
    {
      UnbrokenCovers(sorted, v);
    }
    hide *;
    RestIsAbove(out, ts);
  }

  // ----- a natural expression that goes wrong -----

  const NOT_HIGH := Ascii("[^\\x80-\\xff]")

  const HIGH: Node := RangeNode(0x80, 0xFF)

  /** The bytes below 0x80, and whatever is no byte. */
  const LOW_OR_WIDE: Node := AlternationNode([RangeNode(0, 0x7F), RangeNode(0x100, UINT_MAX)])

  lemma EscapeTexts()
    ensures Translate.EscapeOf(0x80) == [92, 120, 56, 48] && Translate.EscapeOf(0xFF) == [92, 120, 102, 102]
  {
    assert Translate.Nibbles(0x80, 0) == 0x80 && Translate.Nibbles(0x80, 1) == 8;
    assert Translate.Nibbles(0xFF, 0) == 0xFF && Translate.Nibbles(0xFF, 1) == 15;
  }

  lemma EscapedRune(s: seq<Byte>, i: nat, j: nat, c: U32)
    requires i <= j <= |s| && s[i..|s|] == Translate.EscapeOf(c) + s[j..] && j == i + |Translate.EscapeOf(c)|
    ensures IsSomeRune(s, i, j, c)
  {
    hide Translate.UnescapeFront, Translate.EscapeOf;
    Translate.UnescapeEscape(c, s[j..]);
    assert IsRune(s, i, j, c, Translate.UnescapeFront(s[i..|s|]).value.1);
  }

  lemma HighEscapes(s: seq<Byte>)
    requires s == [91, 94, 92, 120, 56, 48, 45, 92, 120, 102, 102, 93]
    ensures IsSomeRune(s, 2, 6, 0x80) && IsSomeRune(s, 7, 11, 0xFF)
  {
    EscapeTexts();
    assert s[2..|s|] == [92, 120, 56, 48] + s[6..];
    assert s[7..|s|] == [92, 120, 102, 102] + s[11..];
    hide *;
    EscapedRune(s, 2, 6, 0x80);
    EscapedRune(s, 7, 11, 0xFF);
  }

  lemma OneRange(s: seq<Byte>, i: nat, j: nat, t: Node)
    requires i < j <= |s| && IsRange(s, i, j, t)
    ensures IsRanges(s, i, j, [t])
  {
    hide IsRange;
    assert IsRanges(s, i, i, []);
    RangesPush(s, i, i, j, [], t);
    assert [] + [t] == [t];
  }

  lemma HighComplement()
    ensures ComplementOf([HIGH]) == LOW_OR_WIDE.children
  {
    assert GapsBefore([HIGH], 1) == GapsBefore([HIGH], 0) + Gap(UINT_MAX, 0x80) == [RangeNode(0, 0x7F)];
    assert ComplementOf([HIGH]) == [RangeNode(0, 0x7F)] + [RangeNode(0x100, UINT_MAX)];
  }

  lemma DashRange(s: seq<Byte>, i: nat, m: nat, j: nat, lo: U32, hi: U32)
    requires !Is(s, i, '[') && IsSomeRune(s, i, m, lo) && Is(s, m, '-') && IsSomeRune(s, m + 1, j, hi)
    ensures IsRange(s, i, j, RangeNode(lo, hi))
  {
    hide IsSomeRune;
    assert NoNamedClass(s, i);
  }

  lemma HighBrackets(s: seq<Byte>)
    requires s == [91, 94, 92, 120, 56, 48, 45, 92, 120, 102, 102, 93]
    ensures BracketParts(s, 0, 12, LOW_OR_WIDE, true, 2, 11, [HIGH], [HIGH])
  {
    hide IsSomeRune, IsRange, IsRanges, ComplementOf;
    HighEscapes(s);
    HighComplement();
    DashRange(s, 2, 6, 11, 0x80, 0xFF);
    OneRange(s, 2, 11, HIGH);
  }

  lemma NotOneByte(t: Node, sc: bool, ts: seq<Node>, s: seq<Byte>)
    requires AllRanges(ts) && s != [] && OwnAccepts(t, sc, s, 1, []) && Covers(ts, s[0])
    ensures !TakesOneByte(t, sc, ts, true)
  {
    hide OwnAccepts, Covers;
  }

  lemma LastByteTaken(sc: bool)
    ensures !Matches(LOW_OR_WIDE, [0xFF], 0, 1, []) && OwnAccepts(LOW_OR_WIDE, sc, [0xFF], 1, [])
    ensures Covers([HIGH], 0xFF)
  {
    var out := LOW_OR_WIDE.children;
    hide OwnAccepts;
    RangesAccept(out, sc, [0xFF], 1, []);
    RangesMatch(out, [0xFF], 0, 1, []);
    assert out[1].min > 0xFF;
    assert [HIGH][0].min <= 0xFF <= [HIGH][0].max;
  }

  /** A text that is a bracket expression is a pattern. */
  lemma BracketsSpell(s: seq<Byte>, j: nat, f: Flags, t: Node, neg: bool, a: nat, b: nat,
                      ts: seq<Node>, sorted: seq<Node>)
    requires j == |s| && BracketParts(s, 0, j, t, neg, a, b, ts, sorted)
    ensures IsPattern(s, 0, j, f, t)
  {
    assert IsBrackets(s, 0, j, t);
    hide IsAtom, IsItem, IsPattern, BracketParts;
    BracketsAreAtom(s, 0, j, f, t);
    AtomIsItem(s, 0, j, j, f, t, t);
    assert IsBranch(s, 0, j, f, t);
    OneAlternative(s, 0, j, f, t);
  }

  /**
   The expression [^\x80-\xff] spells a tree that takes no byte from 0x80 on, but its code takes 0xFF: the
   clamp turns the range behind the last byte into that byte.
   */
  lemma LastByteSlipsIn(f: Flags, sc: bool)
    ensures IsPattern(NOT_HIGH, 0, |NOT_HIGH|, f, LOW_OR_WIDE)
    ensures !Matches(LOW_OR_WIDE, [0xFF], 0, 1, []) && OwnAccepts(LOW_OR_WIDE, sc, [0xFF], 1, [])
    ensures !TakesOneByte(LOW_OR_WIDE, sc, [HIGH], true)
  {
    assert NOT_HIGH == [91, 94, 92, 120, 56, 48, 45, 92, 120, 102, 102, 93];
    hide *;
    HighBrackets(NOT_HIGH);
    BracketsSpell(NOT_HIGH, 12, f, LOW_OR_WIDE, true, 2, 11, [HIGH], [HIGH]);
    LastByteTaken(sc);
    NotOneByte(LOW_OR_WIDE, sc, [HIGH], [0xFF]);
  }
}
