/**
 The pieces of a regular expression are read in one way: from a given position there is one text that is
 a change of flags, a quantifier, a range, a bracket expression or the opening of a group.
 */
module RegexTokens {
  import opened Bytes
  import opened Ast
  import opened CaptureNumbers
  import opened RegexGrammar
  import RangeComplement

  // ----- flags -----

  lemma FlagRunNotLonger(s: seq<Byte>, i: nat, j: nat, sandbox: bool, f: Flags, j': nat, f': Flags)
    requires FlagRun(s, i, j, sandbox, f) && FlagRun(s, i, j', sandbox, f')
    ensures j' <= j
  {
    if j < j' {
      assert false;
    }
  }

  lemma FlagRunUnique(s: seq<Byte>, i: nat, j: nat, sandbox: bool, f: Flags, j': nat, f': Flags)
    requires FlagRun(s, i, j, sandbox, f) && FlagRun(s, i, j', sandbox, f')
    ensures j' == j && f' == f
  {
    FlagRunNotLonger(s, i, j, sandbox, f, j', f');
    FlagRunNotLonger(s, i, j', sandbox, f', j, f);
  }

  lemma ChangeBegins(s: seq<Byte>, i: nat, j: nat, sandbox: bool, f: Flags, g: Flags) returns (m: nat, add: Flags)
    requires FlagChange(s, i, j, sandbox, f, g)
    ensures FlagRun(s, i, m, sandbox, add)
    ensures !Is(s, m, '-') ==> j == m && g == Add(f, add)
    ensures Is(s, m, '-') ==> exists sub :: FlagRun(s, m + 1, j, sandbox, sub) && g == Remove(Add(f, add), sub)
  {
    hide FlagRun;
    if add0 :| FlagRun(s, i, j, sandbox, add0) && !Is(s, j, '-') && g == Add(f, add0) {
      m, add := j, add0;
    } else {
      var m0: nat, add1, sub :| FlagRun(s, i, m0, sandbox, add1) && Is(s, m0, '-')
        && FlagRun(s, m0 + 1, j, sandbox, sub) && g == Remove(Add(f, add1), sub);
      m, add := m0, add1;
    }
  }

  lemma FlagChangeUnique(s: seq<Byte>, i: nat, j: nat, sandbox: bool, f: Flags, g: Flags, j': nat, g': Flags)
    requires FlagChange(s, i, j, sandbox, f, g) && FlagChange(s, i, j', sandbox, f, g')
    ensures j' == j && g' == g
  {
    hide FlagRun;
    var m, add := ChangeBegins(s, i, j, sandbox, f, g);
    var m', add' := ChangeBegins(s, i, j', sandbox, f, g');
    FlagRunUnique(s, i, m, sandbox, add, m', add');
    if Is(s, m, '-') {
      var sub :| FlagRun(s, m + 1, j, sandbox, sub) && g == Remove(Add(f, add), sub);
      var sub' :| FlagRun(s, m + 1, j', sandbox, sub') && g' == Remove(Add(f, add), sub');
      FlagRunUnique(s, m + 1, j, sandbox, sub, j', sub');
    }
  }

  // ----- quantifiers -----

  lemma NoDigitsHere(s: seq<Byte>, i: nat)
    requires !IsDigit(s, i)
    ensures DigitsEnd(s, i) == i
  {
  }

  /** The end of the first number, and of the second one if there is a comma. */
  lemma IntervalEnd(s: seq<Byte>, i: nat, j: nat, min: U32, max: U32)
    requires IsInterval(s, i, j, min, max) && Is(s, j, '}')
    ensures var m := DigitsEnd(s, i);
            && (if m == i then Is(s, m, ',') && min == 0 else IsNumber(s, i, m, min))
            && if Is(s, m, ',') then
                 j == DigitsEnd(s, m + 1) && (if j == m + 1 then max == UINT_MAX else IsNumber(s, m + 1, j, max))
               else j == m && max == min
  {
    hide Wrapped;
    if !(IsNumber(s, i, j, min) && max == min) {
      var m: nat :| i <= m < j <= |s| && Is(s, m, ',')
        && (IsNumber(s, i, m, min) || (m == i && min == 0))
        && (IsNumber(s, m + 1, j, max) || (m + 1 == j && max == UINT_MAX));
      assert !IsDigit(s, m) && !IsDigit(s, j);
      NoDigitsHere(s, m);
      NoDigitsHere(s, j);
    }
  }

  lemma IntervalUnique(s: seq<Byte>, i: nat, j: nat, min: U32, max: U32, k: nat, lo: U32, hi: U32)
    requires IsInterval(s, i, j, min, max) && Is(s, j, '}')
    requires IsInterval(s, i, k, lo, hi) && Is(s, k, '}')
    ensures k == j && lo == min && hi == max
  {
    hide IsInterval;
    IntervalEnd(s, i, j, min, max);
    IntervalEnd(s, i, k, lo, hi);
  }

  lemma QuantifierUnique(s: seq<Byte>, i: nat, j: nat, min: U32, max: U32, j': nat, min': U32, max': U32)
    requires IsQuantifier(s, i, j, min, max) && IsQuantifier(s, i, j', min', max')
    ensures j' == j && min' == min && max' == max
  {
    hide IsInterval;
    if Is(s, i, '{') {
      IntervalUnique(s, i + 1, j - 1, min, max, j' - 1, min', max');
    }
  }

  /** A brace behind which there is no number begins no repetition. */
  lemma StrayIsNone(s: seq<Byte>, i: nat, j: nat, min: U32, max: U32)
    requires StrayBrace(s, i)
    ensures !IsQuantifier(s, i, j, min, max)
  {
    hide Wrapped;
    if IsQuantifier(s, i, j, min, max) {
      IntervalEnd(s, i + 1, j - 1, min, max);
    }
  }

  ghost predicate BoundsIn(s: seq<Byte>, m: nat, j: nat, f: Flags, a: Node, t: Node) {
    t.RepeatNode? && t.child == Repeated(f, a) && t.rmin <= t.rmax && IsBounds(s, m, j, t.rmin, t.rmax, t.reluctant)
  }

  lemma StrayIsBrace(s: seq<Byte>, m: nat)
    ensures StrayBrace(s, m) ==> Is(s, m, '{')
  {
  }

  lemma BoundsAreQuantifier(s: seq<Byte>, m: nat, j: nat, t: Node) returns (k: nat, min: U32, max: U32)
    requires t.RepeatNode? && IsBounds(s, m, j, t.rmin, t.rmax, t.reluctant)
    ensures IsQuantifier(s, m, k, min, max) && (min, max) == (t.rmin, t.rmax)
    ensures t.reluctant == Is(s, k, '?') && j == if t.reluctant then k + 1 else k
  {
    k, min, max := if t.reluctant then j - 1 else j, t.rmin, t.rmax;
  }

  lemma NothingThere(s: seq<Byte>, m: nat, j: nat, f: Flags, a: Node, t: Node, k: nat, min: U32, max: U32)
    requires ItemAfter(s, m, j, f, a, t) && !BoundsIn(s, m, j, f, a, t)
    ensures !IsQuantifier(s, m, k, min, max)
  {
    hide IsInterval, StrayBrace;
    if StrayBrace(s, m) {
      StrayIsNone(s, m, k, min, max);
    }
  }

  /** A bad brace ends no item. */
  lemma BadBraceEnds(s: seq<Byte>, m: nat, j: nat, f: Flags, a: Node, t: Node)
    requires BadBrace(s, m)
    ensures !ItemAfter(s, m, j, f, a, t)
  {
    hide IsQuantifier;
    if BoundsIn(s, m, j, f, a, t) {
      var _, _, _ := BoundsAreQuantifier(s, m, j, t);
    }
  }

  // ----- brackets -----

  predicate SameSorted(ts: seq<Node>, us: seq<Node>, a: seq<Node>, b: seq<Node>) {
    || (ts == a && us == b)
    || (RangeComplement.AllRanges(a) && RangeComplement.AllRanges(b)
        && ts == RangeComplement.ComplementOf(a) && us == RangeComplement.ComplementOf(b))
  }

  /** The children of one bracket expression, sorted in one way or another. */
  ghost predicate SameBracket(ts: seq<Node>, us: seq<Node>) {
    exists rs, a, b :: SortOf(rs, a) && SortOf(rs, b) && SameSorted(ts, us, a, b)
  }

  lemma NamedClassUnique(s: seq<Byte>, i: nat, j: nat, t: Node, j': nat, t': Node)
    requires IsNamedClass(s, i, j, t) && IsNamedClass(s, i, j', t')
    ensures j' == j && t' == t
  {
    hide ClassNamed;
    var name := i + 2;
    var a: nat, b: nat :| Caret(s, name, a, t.neg) && a <= b <= |s| && ClassNamed(s[a..b]) == Some(t.cclass)
      && Is(s, b, ':') && Is(s, b + 1, ']') && j == b + 2;
    var a': nat, b': nat :| Caret(s, name, a', t'.neg) && a' <= b' <= |s| && ClassNamed(s[a'..b']) == Some(t'.cclass)
      && Is(s, b', ':') && Is(s, b' + 1, ']') && j' == b' + 2;
    ClassNamesAreAlnum(s[a..b]);
    forall k | a <= k < b
      ensures IsAlnum(s[k])
    {
      assert s[a..b][k - a] == s[k];
    }
    OneWayToRead(s, name, a, b, t.neg, a', b', t'.neg);
  }

  lemma RuneUnique(s: seq<Byte>, i: nat, j: nat, c: U32, j': nat, c': U32)
    requires IsSomeRune(s, i, j, c) && IsSomeRune(s, i, j', c')
    ensures j' == j && c' == c
  {
  }

  lemma SomeRune(s: seq<Byte>, i: nat, j: nat, c: U32)
    requires IsSomeRune(s, i, j, c)
    ensures !NoRune(s, i) && i < j <= |s|
  {
  }

  lemma NamedClassMoves(s: seq<Byte>, i: nat, j: nat, t: Node)
    requires IsNamedClass(s, i, j, t)
    ensures !NoNamedClass(s, i) && i < j <= |s| && t.ClassNode?
  {
  }

  lemma RangeBegins(s: seq<Byte>, i: nat, j: nat, t: Node) returns (m: nat)
    requires IsRange(s, i, j, t) && !IsNamedClass(s, i, j, t)
    ensures t.RangeNode? && NoNamedClass(s, i) && IsSomeRune(s, i, m, t.min)
    ensures if Is(s, m, '-') then IsSomeRune(s, m + 1, j, t.max) else j == m && t.max == t.min
  {
    hide IsNamedClass, NoNamedClass, IsSomeRune;
    if m0: nat :| IsSomeRune(s, i, m0, t.min) && Is(s, m0, '-') && IsSomeRune(s, m0 + 1, j, t.max) {
      m := m0;
    } else {
      m := j;
    }
  }

  /** Where a range begins, it ends in one place. */
  lemma RangeUnique(s: seq<Byte>, i: nat, j: nat, t: Node, j': nat, t': Node)
    requires IsRange(s, i, j, t) && IsRange(s, i, j', t')
    ensures j' == j && t' == t
  {
    hide IsNamedClass, NoNamedClass, IsSomeRune;
    if IsNamedClass(s, i, j, t) {
      NamedClassMoves(s, i, j, t);
      NamedClassUnique(s, i, j, t, j', t');
    } else {
      if IsNamedClass(s, i, j', t') {
        NamedClassMoves(s, i, j', t');
        assert false;
      }
      var m := RangeBegins(s, i, j, t);
      var m' := RangeBegins(s, i, j', t');
      RuneUnique(s, i, m, t.min, m', t'.min);
      if Is(s, m, '-') {
        RuneUnique(s, m + 1, j, t.max, j', t'.max);
      }
    }
  }

  lemma RangeExcludes(s: seq<Byte>, i: nat, j: nat, t: Node)
    requires IsRange(s, i, j, t)
    ensures !NoRange(s, i) && i < |s|
  {
    hide IsNamedClass, NoNamedClass, IsSomeRune, NoRune;
    if IsNamedClass(s, i, j, t) {
      NamedClassMoves(s, i, j, t);
    } else {
      var m := RangeBegins(s, i, j, t);
      SomeRune(s, i, m, t.min);
      if c, m': nat :| IsSomeRune(s, i, m', c) && Is(s, m', '-') && NoRune(s, m' + 1) {
        RuneUnique(s, i, m, t.min, m', c);
        SomeRune(s, m + 1, j, t.max);
      }
    }
  }

  lemma {:induction false} RangesUnique(s: seq<Byte>, i: nat, j: nat, ts: seq<Node>, j': nat, ts': seq<Node>)
    requires IsRanges(s, i, j, ts) && IsRanges(s, i, j', ts') && |ts'| == |ts|
    ensures j' == j && ts' == ts
    decreases |ts|
  {
    hide IsRange;
    if ts != [] {
      var front, last := ts[..|ts| - 1], ts[|ts| - 1];
      var front', last' := ts'[..|ts| - 1], ts'[|ts| - 1];
      var m: nat :| IsRanges(s, i, m, front) && (front != [] ==> !Is(s, m, ']')) && m < j && IsRange(s, m, j, last);
      var m': nat :|
        IsRanges(s, i, m', front') && (front' != [] ==> !Is(s, m', ']')) && m' < j' && IsRange(s, m', j', last');
      RangesUnique(s, i, m, front, m', front');
      RangeUnique(s, m, j, last, j', last');
      assert ts == front + [last] && ts' == front' + [last'];
    }
  }

  /** After the first n of some ranges there is another. */
  lemma {:induction false} RangesPrefix(s: seq<Byte>, i: nat, j: nat, ts: seq<Node>, n: nat) returns (m: nat)
    requires IsRanges(s, i, j, ts) && n < |ts|
    ensures IsRanges(s, i, m, ts[..n]) && (n > 0 ==> !Is(s, m, ']')) && !NoRange(s, m) && m < |s|
    decreases |ts|
  {
    hide IsRange, NoRange;
    var front, last := ts[..|ts| - 1], ts[|ts| - 1];
    var m0: nat :| IsRanges(s, i, m0, front) && (front != [] ==> !Is(s, m0, ']')) && m0 < j && IsRange(s, m0, j, last);
    if n == |ts| - 1 {
      m := m0;
      RangeExcludes(s, m, j, last);
    } else {
      m := RangesPrefix(s, i, m0, front, n);
      assert ts[..n] == front[..n];
    }
  }

  lemma {:induction false} RangesMove(s: seq<Byte>, i: nat, j: nat, ts: seq<Node>)
    requires IsRanges(s, i, j, ts)
    ensures i <= j && (ts != [] <==> j > i)
    decreases |ts|
  {
    hide IsRange;
    if ts != [] {
      var front, last := ts[..|ts| - 1], ts[|ts| - 1];
      var m: nat :| IsRanges(s, i, m, front) && m < j && IsRange(s, m, j, last);
      RangesMove(s, i, m, front);
    }
  }

  /** The ranges end where none can follow: at a bracket behind the first, at the end, or where no range begins. */
  ghost predicate RangesEnd(s: seq<Byte>, b: nat, ts: seq<Node>) {
    b == |s| || (ts != [] && Is(s, b, ']')) || NoRange(s, b)
  }

  lemma FullRangesUnique(s: seq<Byte>, i: nat, j: nat, ts: seq<Node>, j': nat, ts': seq<Node>)
    requires IsRanges(s, i, j, ts) && IsRanges(s, i, j', ts')
    requires RangesEnd(s, j, ts) && RangesEnd(s, j', ts')
    ensures j' == j && ts' == ts
  {
    hide NoRange, IsRanges;
    if |ts| < |ts'| {
      var m := RangesPrefix(s, i, j', ts', |ts|);
      RangesUnique(s, i, j, ts, m, ts'[..|ts|]);
    } else if |ts'| < |ts| {
      var m := RangesPrefix(s, i, j, ts, |ts'|);
      RangesUnique(s, i, j', ts', m, ts[..|ts'|]);
    } else {
      RangesUnique(s, i, j, ts, j', ts');
    }
  }

  lemma PartsEnd(s: seq<Byte>, i: nat, j: nat, t: Node, neg: bool, a: nat, b: nat, ts: seq<Node>, sorted: seq<Node>)
    requires BracketParts(s, i, j, t, neg, a, b, ts, sorted)
    ensures RangesEnd(s, b, ts)
  {
    hide IsRanges, NoRange, SortOf;
    RangesMove(s, a, b, ts);
  }

  lemma BadPartsEnd(s: seq<Byte>, i: nat, neg: bool, a: nat, b: nat, ts: seq<Node>)
    requires BadParts(s, i, neg, a, b, ts)
    ensures RangesEnd(s, b, ts)
  {
    hide IsRanges, NoRange;
    RangesMove(s, a, b, ts);
  }

  lemma BracketsUnique(s: seq<Byte>, i: nat, j: nat, t: Node, j': nat, t': Node)
    requires IsBrackets(s, i, j, t) && IsBrackets(s, i, j', t')
    ensures j' == j && t.AlternationNode? && t'.AlternationNode? && SameBracket(t.children, t'.children)
  {
    hide IsRanges, NoRange, SortOf, RangeComplement.ComplementOf;
    var neg, a: nat, b: nat, ts, sorted :| BracketParts(s, i, j, t, neg, a, b, ts, sorted);
    var neg', a': nat, b': nat, ts', sorted' :| BracketParts(s, i, j', t', neg', a', b', ts', sorted');
    PartsEnd(s, i, j, t, neg, a, b, ts, sorted);
    PartsEnd(s, i, j', t', neg', a', b', ts', sorted');
    FullRangesUnique(s, a, b, ts, b', ts');
    assert SameSorted(t.children, t'.children, sorted, sorted');
  }

  lemma SameElements(ts: seq<Node>, us: seq<Node>)
    requires forall t :: t in us ==> t in ts
    ensures (forall k :: 0 <= k < |ts| ==> Leaf(ts[k])) ==> forall k :: 0 <= k < |us| ==> Leaf(us[k])
    ensures RangeComplement.AllRanges(ts) ==> RangeComplement.AllRanges(us)
  {
    forall k | 0 <= k < |us|
      ensures us[k] in ts
    {
    }
  }

  lemma SortKeeps(ts: seq<Node>, sorted: seq<Node>)
    requires multiset(sorted) == multiset(ts)
    ensures (forall k :: 0 <= k < |ts| ==> Leaf(ts[k])) ==> forall k :: 0 <= k < |sorted| ==> Leaf(sorted[k])
    ensures RangeComplement.AllRanges(ts) <==> RangeComplement.AllRanges(sorted)
  {
    forall t
      ensures t in ts <==> t in sorted
    {
      assert t in multiset(ts) <==> t in multiset(sorted);
    }
    SameElements(ts, sorted);
    SameElements(sorted, ts);
  }

  lemma BracketsExclude(s: seq<Byte>, i: nat, j: nat, t: Node)
    ensures IsBrackets(s, i, j, t) ==> !BadBrackets(s, i) && i < j
  {
    hide IsRanges, NoRange, RangeComplement.ComplementOf;
    if IsBrackets(s, i, j, t) {
      var neg, a: nat, b: nat, ts, sorted :| BracketParts(s, i, j, t, neg, a, b, ts, sorted);
      PartsEnd(s, i, j, t, neg, a, b, ts, sorted);
      RangesMove(s, a, b, ts);
      if neg', a': nat, b': nat, ts' :| BadParts(s, i, neg', a', b', ts') {
        BadPartsEnd(s, i, neg', a', b', ts');
        FullRangesUnique(s, a, b, ts, b', ts');
        if neg {
          SortKeeps(ts, sorted);
        }
      }
    }
  }

  // ----- groups -----

  lemma GroupOpensUnique(s: seq<Byte>, i: nat, f: Flags, k: nat, g: Flags, capture: bool,
                         k': nat, g': Flags, capture': bool)
    requires GroupOpens(s, i, k, f, g, capture) && GroupOpens(s, i, k', f, g', capture')
    ensures k' == k && g' == g && capture' == capture
  {
    hide FlagChange;
    if Is(s, i + 1, '?') {
      var c, c' := if capture then k else k - 1, if capture' then k' else k' - 1;
      FlagChangeUnique(s, i + 2, c, true, f, g, c', g');
    }
  }
}
