/** Sorting and complementing the ranges of a negated bracket expression (regex.c). */
module RangeComplement {
  import opened Bytes
  import opened Ast
  import opened NfaSemantics

  // ----- the comparison that sorts them -----

  /** aem_nfa_brackets_compar on two ranges: an unsigned difference read as a 32-bit int. */
  function Compare(a: U32, b: U32): int {
    var d := (a - b) % 0x1_0000_0000;
    if d < 0x8000_0000 then d else d - 0x1_0000_0000
  }

  /** It orders two values exactly when they are less than half the range apart. */
  lemma CompareExact(a: U32, b: U32)
    ensures (Compare(a, b) < 0 <==> a < b) <==> -0x8000_0000 <= a - b < 0x8000_0000
  {
    if a < b {
      assert (a - b) % 0x1_0000_0000 == a - b + 0x1_0000_0000;
    } else {
      assert (a - b) % 0x1_0000_0000 == a - b;
    }
  }

  predicate AllRanges(rs: seq<Node>) {
    forall k :: 0 <= k < |rs| ==> rs[k].RangeNode?
  }

  /** Any two lower bounds are less than half the 32-bit range apart. */
  predicate Comparable(rs: seq<Node>) {
    && AllRanges(rs)
    && forall j, k :: 0 <= j < |rs| && 0 <= k < |rs| ==> -0x8000_0000 < rs[j].min - rs[k].min < 0x8000_0000
  }

  /** What a sort by that comparison promises where the comparison is an order. */
  predicate SortedByCompare(rs: seq<Node>)
    requires AllRanges(rs)
  {
    forall j, k :: 0 <= j < k < |rs| ==> Compare(rs[j].min, rs[k].min) <= 0
  }

  predicate SortedByMin(rs: seq<Node>)
    requires AllRanges(rs)
  {
    forall j, k :: 0 <= j < k < |rs| ==> rs[j].min <= rs[k].min
  }

  lemma CompareLess(a: U32, b: U32)
    requires -0x8000_0000 < a - b < 0x8000_0000
    ensures Compare(a, b) <= 0 <==> a <= b
  {
    CompareExact(b, a);
    CompareExact(a, b);
  }

  lemma SortedAlike(rs: seq<Node>)
    requires Comparable(rs)
    ensures SortedByCompare(rs) <==> SortedByMin(rs)
  {
    forall j, k | 0 <= j < k < |rs|
      ensures Compare(rs[j].min, rs[k].min) <= 0 <==> rs[j].min <= rs[k].min
    {
      CompareLess(rs[j].min, rs[k].min);
    }
  }

  lemma InsertAt(rs: seq<Node>, min: U32) returns (i: nat)
    requires AllRanges(rs) && SortedByMin(rs)
    ensures i <= |rs| && forall k :: 0 <= k < i ==> rs[k].min <= min
    ensures forall k :: i <= k < |rs| ==> min <= rs[k].min
  {
    i := 0;
    while i < |rs| && rs[i].min <= min
      invariant i <= |rs| && forall k :: 0 <= k < i ==> rs[k].min <= min
    {
      i := i + 1;
    }
  }

  lemma Inserted(rs: seq<Node>, i: nat, r: Node)
    requires AllRanges(rs) && SortedByMin(rs) && r.RangeNode? && i <= |rs|
    requires forall k :: 0 <= k < i ==> rs[k].min <= r.min
    requires forall k :: i <= k < |rs| ==> r.min <= rs[k].min
    ensures AllRanges(rs[..i] + [r] + rs[i..]) && SortedByMin(rs[..i] + [r] + rs[i..])
  {
    var out := rs[..i] + [r] + rs[i..];
    forall k | 0 <= k < |out|
      ensures out[k] == if k < i then rs[k] else if k == i then r else rs[k - 1]
    {
    }
  }

  lemma InsertedSame(rs: seq<Node>, i: nat, r: Node)
    requires i <= |rs|
    ensures multiset(rs[..i] + [r] + rs[i..]) == multiset(rs + [r])
  {
    assert rs == rs[..i] + rs[i..];
  }

  /** The sort has an outcome. */
  lemma {:induction false} CanSort(rs: seq<Node>) returns (sorted: seq<Node>)
    requires AllRanges(rs)
    ensures AllRanges(sorted) && multiset(sorted) == multiset(rs) && SortedByMin(sorted)
  {
    if rs == [] {
      sorted := [];
    } else {
      var front, last := rs[..|rs| - 1], rs[|rs| - 1];
      assert rs == front + [last];
      var rest := CanSort(front);
      hide SortedByMin;
      var i := InsertAt(rest, last.min);
      sorted := rest[..i] + [last] + rest[i..];
      Inserted(rest, i, last);
      InsertedSame(rest, i, last);
    }
  }

  lemma SameComparable(rs: seq<Node>, sorted: seq<Node>)
    requires multiset(sorted) == multiset(rs)
    ensures Comparable(rs) ==> Comparable(sorted)
  {
    if Comparable(rs) {
      forall j | 0 <= j < |sorted|
        ensures sorted[j] in rs
      {
        assert sorted[j] in multiset(sorted);
        assert sorted[j] in multiset(rs);
      }
    }
  }

  // ----- the complement -----

  predicate Ordered(rs: seq<Node>)
    requires AllRanges(rs)
  {
    (forall k :: 0 <= k < |rs| ==> rs[k].min <= rs[k].max) && SortedByMin(rs)
  }

  /** uint32_t arithmetic. */
  function Wrap(x: int): U32 {
    x % 0x1_0000_0000
  }

  /** The range between an upper bound and the next lower bound, unless the code finds none. */
  function Gap(prevMax: U32, min: U32): (out: seq<Node>)
    ensures AllRanges(out) && |out| <= 1
  {
    if Wrap(min - 1) != UINT_MAX && Wrap(prevMax + 1) <= Wrap(min - 1)
    then [RangeNode(Wrap(prevMax + 1), Wrap(min - 1))] else []
  }

  /** The upper bound before the k-th range; UINT_MAX, whose successor is 0, before the first. */
  function PrevMax(rs: seq<Node>, k: nat): U32
    requires AllRanges(rs) && k <= |rs|
  {
    if k == 0 then UINT_MAX else rs[k - 1].max
  }

  function GapsBefore(rs: seq<Node>, n: nat): (out: seq<Node>)
    requires AllRanges(rs) && n <= |rs|
    ensures AllRanges(out)
  {
    if n == 0 then [] else GapsBefore(rs, n - 1) + Gap(PrevMax(rs, n - 1), rs[n - 1].min)
  }

  function LastGap(prevMax: U32): (out: seq<Node>)
    ensures AllRanges(out) && |out| <= 1
  {
    if Wrap(prevMax + 1) != 0 then [RangeNode(Wrap(prevMax + 1), UINT_MAX)] else []
  }

  function ComplementOf(rs: seq<Node>): (out: seq<Node>)
    requires AllRanges(rs)
    ensures AllRanges(out)
  {
    GapsBefore(rs, |rs|) + LastGap(PrevMax(rs, |rs|))
  }

  lemma {:induction false} GapsBeforePrefix(rs: seq<Node>, rs': seq<Node>, n: nat)
    requires AllRanges(rs) && n <= |rs| && n <= |rs'| && rs[..n] == rs'[..n]
    requires AllRanges(rs')
    ensures PrevMax(rs, n) == PrevMax(rs', n) && GapsBefore(rs, n) == GapsBefore(rs', n)
  {
    if n > 0 {
      assert rs[..n - 1] == rs[..n][..n - 1] == rs'[..n - 1];
      assert rs[n - 1] == rs[..n][n - 1] == rs'[n - 1];
      GapsBeforePrefix(rs, rs', n - 1);
    }
  }

  /** The second half of re_parse_brackets; it gives up on anything that is not a range. */
  method Complement(children: seq<Node>) returns (out: Option<seq<Node>>)
    ensures out.Some? <==> AllRanges(children)
    ensures out.Some? ==> out.value == ComplementOf(children)
  {
    var result := [];
    var prevMax: U32 := UINT_MAX;
    for i := 0 to |children|
      invariant AllRanges(children[..i])
      invariant prevMax == PrevMax(children[..i], i)
      invariant result == GapsBefore(children[..i], i)
    {
      var child := children[i];
      if !child.RangeNode? {
        return None;
      }
      GapsBeforePrefix(children[..i + 1], children[..i], i);
      var newMin, newMax := Wrap(prevMax + 1), Wrap(child.min - 1);
      if newMax != UINT_MAX && newMin <= newMax {
        result := result + [RangeNode(newMin, newMax)];
      }
      prevMax := child.max;
    }
    assert children[..|children|] == children;
    var lastMin := Wrap(prevMax + 1);
    if lastMin != 0 {
      result := result + [RangeNode(lastMin, UINT_MAX)];
    }
    out := Some(result);
  }

  // ----- when the complement is right -----

  ghost predicate Covers(rs: seq<Node>, v: U32)
    requires AllRanges(rs)
  {
    exists k :: 0 <= k < |rs| && rs[k].min <= v <= rs[k].max
  }

  predicate Ascending(rs: seq<Node>)
    requires AllRanges(rs)
  {
    && (forall k :: 0 <= k < |rs| ==> rs[k].min <= rs[k].max)
    && (forall j, k :: 0 <= j < k < |rs| ==> rs[j].max < rs[k].min)
  }

  ghost predicate IsComplement(out: seq<Node>, rs: seq<Node>)
    requires AllRanges(out) && AllRanges(rs)
  {
    && Ascending(out)
    && forall v: U32 :: Covers(out, v) <==> !Covers(rs, v)
  }

  /** The lower bound of the k-th range; one past the last value after all of them. */
  function NextMin(rs: seq<Node>, k: nat): int
    requires AllRanges(rs) && k <= |rs|
  {
    if k == |rs| then UINT_MAX + 1 else rs[k].min
  }

  /** The k-th range follows one that ends at UINT_MAX, and does not begin at 0. */
  predicate Restarts(rs: seq<Node>, k: nat)
    requires AllRanges(rs) && 1 <= k < |rs|
  {
    rs[k - 1].max == UINT_MAX && rs[k].min > 0
  }

  /** There is room before the k-th range, but the j-th reaches into it. */
  predicate Overreaches(rs: seq<Node>, j: nat, k: nat)
    requires AllRanges(rs) && j < k <= |rs|
  {
    rs[j].max > rs[k - 1].max && rs[k - 1].max + 1 < NextMin(rs, k)
  }

  /** What the code needs of its input. */
  predicate Chained(rs: seq<Node>)
    requires AllRanges(rs)
  {
    && (forall k: nat :: 1 <= k < |rs| ==> !Restarts(rs, k))
    && (forall j: nat, k: nat :: j < k <= |rs| ==> !Overreaches(rs, j, k))
  }

  /** v lies in the gap before the k-th range, as the code sees it. */
  predicate InGap(rs: seq<Node>, k: nat, v: U32)
    requires AllRanges(rs) && k <= |rs|
  {
    if k == |rs| then PrevMax(rs, k) != UINT_MAX && v > PrevMax(rs, k)
    else Wrap(PrevMax(rs, k) + 1) <= v < rs[k].min
  }

  lemma CoversConcat(a: seq<Node>, b: seq<Node>, v: U32)
    requires AllRanges(a) && AllRanges(b)
    ensures Covers(a + b, v) <==> Covers(a, v) || Covers(b, v)
  {
    if Covers(a, v) {
      var k :| 0 <= k < |a| && a[k].min <= v <= a[k].max;
      assert (a + b)[k] == a[k];
    }
    if Covers(b, v) {
      var k :| 0 <= k < |b| && b[k].min <= v <= b[k].max;
      assert (a + b)[|a| + k] == b[k];
    }
  }

  lemma GapCovers(p: U32, m: U32, v: U32)
    ensures Covers(Gap(p, m), v) <==> Wrap(p + 1) <= v < m
  {
    var g := Gap(p, m);
    if g != [] {
      assert g[0].min <= v <= g[0].max <==> Wrap(p + 1) <= v < m;
    }
  }

  lemma GapsBeforeStep(rs: seq<Node>, n: nat)
    requires AllRanges(rs) && 0 < n <= |rs|
    ensures GapsBefore(rs, n) == GapsBefore(rs, n - 1) + Gap(PrevMax(rs, n - 1), rs[n - 1].min)
  {
  }

  lemma {:induction false} GapsCover(rs: seq<Node>, n: nat, v: U32)
    requires AllRanges(rs) && n <= |rs|
    ensures Covers(GapsBefore(rs, n), v) <==> exists k :: 0 <= k < n && InGap(rs, k, v)
  {
    if n > 0 {
      GapsCover(rs, n - 1, v);
      CoversConcat(GapsBefore(rs, n - 1), Gap(PrevMax(rs, n - 1), rs[n - 1].min), v);
      GapCovers(PrevMax(rs, n - 1), rs[n - 1].min, v);
      hide GapsBefore, Gap, Covers;
      assert GapsBefore(rs, n) == GapsBefore(rs, n - 1) + Gap(PrevMax(rs, n - 1), rs[n - 1].min) by {
        GapsBeforeStep(rs, n);
      }
      assert Covers(Gap(PrevMax(rs, n - 1), rs[n - 1].min), v) <==> InGap(rs, n - 1, v);
    } else {
      assert GapsBefore(rs, 0) == [];
    }
  }

  lemma ComplementCovers(rs: seq<Node>, v: U32)
    requires AllRanges(rs)
    ensures Covers(ComplementOf(rs), v) <==> exists k :: 0 <= k <= |rs| && InGap(rs, k, v)
  {
    var n := |rs|;
    GapsCover(rs, n, v);
    CoversConcat(GapsBefore(rs, n), LastGap(PrevMax(rs, n)), v);
    var g := LastGap(PrevMax(rs, n));
    if g != [] {
      assert g[0].min <= v <= g[0].max <==> InGap(rs, n, v);
    }
    assert Covers(g, v) <==> InGap(rs, n, v);
  }

  /** Whatever the input misses lies in some gap. */
  lemma {:induction false} MissedIsInGap(rs: seq<Node>, v: U32, k: nat)
    requires AllRanges(rs) && SortedByMin(rs) && rs != [] && !Covers(rs, v)
    requires k <= |rs| && forall j :: 0 <= j < k ==> rs[j].min <= v
    ensures exists k' :: 0 <= k' <= |rs| && InGap(rs, k', v)
    decreases |rs| - k
  {
    if k < |rs| && rs[k].min <= v {
      MissedIsInGap(rs, v, k + 1);
    } else {
      if k > 0 {
        assert !(rs[k - 1].min <= v <= rs[k - 1].max);
      }
      assert InGap(rs, k, v);
    }
  }

  lemma GapIsMissed(rs: seq<Node>, v: U32, k: nat)
    requires AllRanges(rs) && Ordered(rs) && Chained(rs) && k <= |rs| && rs != [] && InGap(rs, k, v)
    ensures !Covers(rs, v)
  {
    forall j: nat | j < |rs|
      ensures !(rs[j].min <= v <= rs[j].max)
    {
      if j >= k {
        assert rs[k].min <= rs[j].min;
      } else {
        assert !Overreaches(rs, j, k);
        assert k < |rs| ==> !Restarts(rs, k);
      }
    }
  }

  predicate EndsBelow(rs: seq<Node>, bound: int)
    requires AllRanges(rs)
  {
    forall j :: 0 <= j < |rs| ==> rs[j].max < bound
  }

  lemma GapAbove(rs: seq<Node>, n: nat)
    requires AllRanges(rs) && Ordered(rs) && Chained(rs) && 0 < n <= |rs|
    ensures var g := Gap(PrevMax(rs, n - 1), rs[n - 1].min);
      Ascending(g) && EndsBelow(g, rs[n - 1].min) && (n > 1 && g != [] ==> rs[n - 2].min <= g[0].min)
    ensures n > 1 ==> rs[n - 2].min <= rs[n - 1].min
    ensures EndsBelow([], 0)
  {
    if n > 1 {
      assert !Restarts(rs, n - 1);
      assert rs[n - 2].min <= rs[n - 1].min && rs[n - 2].min <= rs[n - 2].max;
    }
  }

  lemma AppendAscending(out: seq<Node>, g: seq<Node>, m: int, m': int)
    requires AllRanges(out) && AllRanges(g) && Ascending(out) && Ascending(g) && |g| <= 1
    requires EndsBelow(out, m) && m <= m' && EndsBelow(g, m') && (g != [] ==> m <= g[0].min)
    ensures Ascending(out + g) && EndsBelow(out + g, m')
  {
  }

  lemma {:induction false} GapsAscend(rs: seq<Node>, n: nat)
    requires AllRanges(rs) && Ordered(rs) && Chained(rs) && n <= |rs|
    ensures Ascending(GapsBefore(rs, n))
    ensures n == 0 ==> GapsBefore(rs, n) == []
    ensures n > 0 ==> EndsBelow(GapsBefore(rs, n), rs[n - 1].min)
  {
    if n > 0 {
      var out, g := GapsBefore(rs, n - 1), Gap(PrevMax(rs, n - 1), rs[n - 1].min);
      GapsAscend(rs, n - 1);
      GapsBeforeStep(rs, n);
      GapAbove(rs, n);
      hide GapsBefore, Gap, Chained, Ordered, Ascending, EndsBelow;
      AppendAscending(out, g, if n > 1 then rs[n - 2].min else 0, rs[n - 1].min);
    }
  }

  lemma ChainedSuffices(rs: seq<Node>)
    requires AllRanges(rs) && Ordered(rs) && rs != [] && Chained(rs)
    ensures IsComplement(ComplementOf(rs), rs)
  {
    var n := |rs|;
    GapsAscend(rs, n);
    AppendAscending(GapsBefore(rs, n), LastGap(PrevMax(rs, n)), rs[n - 1].min, UINT_MAX + 1);
    forall v: U32
      ensures Covers(ComplementOf(rs), v) <==> !Covers(rs, v)
    {
      ComplementCovers(rs, v);
      if !Covers(rs, v) {
        MissedIsInGap(rs, v, 0);
      } else if Covers(ComplementOf(rs), v) {
        var k: nat :| k <= |rs| && InGap(rs, k, v);
        GapIsMissed(rs, v, k);
      }
    }
  }

  lemma {:induction false} GapsArePrefix(rs: seq<Node>, k: nat, n: nat)
    requires AllRanges(rs) && k <= n <= |rs|
    ensures GapsBefore(rs, k) <= GapsBefore(rs, n)
  {
    if k < n {
      GapsArePrefix(rs, k, n - 1);
    }
  }

  lemma GapFromZero(rs: seq<Node>, k: nat)
    requires AllRanges(rs) && 1 <= k < |rs| && Restarts(rs, k)
    ensures Gap(PrevMax(rs, k), rs[k].min) == [RangeNode(0, rs[k].min - 1)]
  {
  }

  lemma PrefixThrough(a: seq<Node>, b: seq<Node>, c: seq<Node>, out: seq<Node>)
    requires b == a + c && b <= out
    ensures a + c <= out
  {
  }

  lemma GapAgain(rs: seq<Node>, k: nat, r: Node)
    requires AllRanges(rs) && 1 <= k < |rs| && Restarts(rs, k) && r == RangeNode(0, rs[k].min - 1)
    ensures GapsBefore(rs, k) + [r] <= GapsBefore(rs, |rs|)
  {
    hide *;
    GapFromZero(rs, k);
    GapsBeforeStep(rs, k + 1);
    GapsArePrefix(rs, k + 1, |rs|);
    PrefixThrough(GapsBefore(rs, k), GapsBefore(rs, k + 1), [r], GapsBefore(rs, |rs|));
  }

  lemma FirstGap(rs: seq<Node>)
    requires AllRanges(rs) && rs != [] && rs[0].min > 0
    ensures GapsBefore(rs, 1) == Gap(UINT_MAX, rs[0].min) == [RangeNode(0, rs[0].min - 1)]
  {
    assert GapsBefore(rs, 0) == [];
  }

  lemma Repeats(a: seq<Node>, r: Node, b: seq<Node>, rest: seq<Node>)
    requires AllRanges(b + rest) && a != [] && a[0] == r && r.RangeNode? && r.min <= r.max && a + [r] <= b
    ensures !Ascending(b + rest)
  {
    var out, i := b + rest, |a|;
    assert out[0] == (a + [r])[0] == r && out[i] == (a + [r])[i] == r;
    assert out[0].max >= out[i].min;
  }

  /** When all ranges so far begin at the same value, starting over gives the first gap again. */
  lemma RestartRepeats(rs: seq<Node>, k: nat)
    requires AllRanges(rs) && 1 <= k < |rs| && Restarts(rs, k) && rs[0].min == rs[k].min
    ensures !Ascending(ComplementOf(rs))
  {
    var r := RangeNode(0, rs[k].min - 1);
    FirstGap(rs);
    GapsArePrefix(rs, 1, k);
    GapAgain(rs, k, r);
    hide GapsBefore, LastGap, Ascending;
    Repeats(GapsBefore(rs, k), r, GapsBefore(rs, |rs|), LastGap(PrevMax(rs, |rs|)));
  }

  lemma CoversRestart(rs: seq<Node>, k: nat)
    requires AllRanges(rs) && Ordered(rs) && 1 <= k < |rs| && Restarts(rs, k) && rs[0].min < rs[k].min
    ensures !IsComplement(ComplementOf(rs), rs)
  {
    var v := rs[0].min;
    hide ComplementOf;
    ComplementCovers(rs, v);
    assert InGap(rs, k, v) && Covers(rs, v);
  }

  /** A range that ends at UINT_MAX makes the code start over from 0. */
  lemma StartsOver(rs: seq<Node>, k: nat)
    requires AllRanges(rs) && Ordered(rs) && 1 <= k < |rs| && Restarts(rs, k)
    ensures !IsComplement(ComplementOf(rs), rs)
  {
    if rs[0].min < rs[k].min {
      CoversRestart(rs, k);
    } else {
      assert rs[0].min == rs[k].min;
      RestartRepeats(rs, k);
    }
  }

  /** A gap behind a range that reaches over it takes values that the range covers. */
  lemma ReachesOver(rs: seq<Node>, j: nat, k: nat)
    requires AllRanges(rs) && Ordered(rs) && j < k <= |rs| && Overreaches(rs, j, k)
    ensures !IsComplement(ComplementOf(rs), rs)
  {
    var v: U32 := rs[k - 1].max + 1;
    ComplementCovers(rs, v);
    assert InGap(rs, k, v);
    assert rs[j].min <= rs[k - 1].min <= v <= rs[j].max;
  }

  /** For ranges sorted by lower bound, the code computes the complement exactly on chained input. */
  lemma ComplementExact(rs: seq<Node>)
    requires AllRanges(rs) && Ordered(rs) && rs != []
    ensures IsComplement(ComplementOf(rs), rs) <==> Chained(rs)
  {
    hide IsComplement, ComplementOf, Restarts, Overreaches;
    if Chained(rs) {
      ChainedSuffices(rs);
    } else if exists k: nat :: 1 <= k < |rs| && Restarts(rs, k) {
      var k: nat :| 1 <= k < |rs| && Restarts(rs, k);
      StartsOver(rs, k);
    } else {
      var j: nat, k: nat :| j < k <= |rs| && Overreaches(rs, j, k);
      ReachesOver(rs, j, k);
    }
  }

  /** Ranges with increasing upper bounds, only the last of them up to UINT_MAX, are chained. */
  lemma IncreasingIsChained(rs: seq<Node>)
    requires AllRanges(rs) && Ordered(rs)
    requires forall j, k :: 0 <= j < k < |rs| ==> rs[j].max <= rs[k].max && rs[j].max < UINT_MAX
    ensures Chained(rs)
  {
  }

  /** Without ranges, as after an unterminated "[^", there is no output either: nothing, not everything. */
  lemma ComplementOfNothing()
    ensures ComplementOf([]) == [] && !IsComplement([], [])
  {
    assert !Covers([], 0);
  }

  // ----- ranges the wrong way round too -----

  /** The j-th range and the gap before the k-th have a value in common. */
  predicate Hits(rs: seq<Node>, j: nat, k: nat)
    requires AllRanges(rs) && j < k <= |rs|
  {
    var lo, hi := Wrap(PrevMax(rs, k) + 1), NextMin(rs, k) - 1;
    && (k < |rs| || PrevMax(rs, k) != UINT_MAX)
    && (if rs[j].min < lo then lo else rs[j].min) <= (if rs[j].max < hi then rs[j].max else hi)
  }

  predicate Unbroken(rs: seq<Node>)
    requires AllRanges(rs)
  {
    forall j: nat, k: nat :: j < k <= |rs| ==> !Hits(rs, j, k)
  }

  ghost predicate CoversTheRest(out: seq<Node>, rs: seq<Node>)
    requires AllRanges(out) && AllRanges(rs)
  {
    forall v: U32 :: Covers(out, v) <==> !Covers(rs, v)
  }

  lemma HitMeans(rs: seq<Node>, j: nat, k: nat, v: U32)
    requires AllRanges(rs) && j < k <= |rs|
    ensures InGap(rs, k, v) && rs[j].min <= v <= rs[j].max ==> Hits(rs, j, k)
  {
  }

  lemma HitHas(rs: seq<Node>, j: nat, k: nat) returns (v: U32)
    requires AllRanges(rs) && j < k <= |rs| && Hits(rs, j, k)
    ensures InGap(rs, k, v) && rs[j].min <= v <= rs[j].max
    ensures v == rs[j].min || v == Wrap(PrevMax(rs, k) + 1)
  {
    var lo := Wrap(PrevMax(rs, k) + 1);
    v := if rs[j].min < lo then lo else rs[j].min;
  }

  lemma NotBefore(rs: seq<Node>, j: nat, k: nat, v: U32)
    requires AllRanges(rs) && SortedByMin(rs) && j < |rs| && k <= |rs|
    requires InGap(rs, k, v) && rs[j].min <= v
    ensures j < k
  {
  }

  lemma UnbrokenCovers(rs: seq<Node>, v: U32)
    requires AllRanges(rs) && SortedByMin(rs) && rs != [] && Unbroken(rs)
    ensures Covers(ComplementOf(rs), v) <==> !Covers(rs, v)
  {
    hide ComplementOf;
    ComplementCovers(rs, v);
    if !Covers(rs, v) {
      MissedIsInGap(rs, v, 0);
    } else if Covers(ComplementOf(rs), v) {
      var k: nat :| k <= |rs| && InGap(rs, k, v);
      var j: nat :| j < |rs| && rs[j].min <= v <= rs[j].max;
      NotBefore(rs, j, k, v);
      HitMeans(rs, j, k, v);
      assert false;
    }
  }

  /**
   For any ranges sorted by lower bound, also ranges the wrong way round, which cover nothing: the
   output covers exactly the values in no input range if and only if no range meets a later gap.
   */
  lemma CoverExact(rs: seq<Node>)
    requires AllRanges(rs) && SortedByMin(rs) && rs != []
    ensures CoversTheRest(ComplementOf(rs), rs) <==> Unbroken(rs)
  {
    if Unbroken(rs) {
      forall v: U32
        ensures Covers(ComplementOf(rs), v) <==> !Covers(rs, v)
      {
        UnbrokenCovers(rs, v);
      }
    } else {
      var j: nat, k: nat :| j < k <= |rs| && Hits(rs, j, k);
      var v := HitHas(rs, j, k);
      hide ComplementOf;
      ComplementCovers(rs, v);
      assert Covers(rs, v) && Covers(ComplementOf(rs), v);
    }
  }

  /** No range of the output is the wrong way round. */
  lemma {:induction false} GapsNonempty(rs: seq<Node>, n: nat)
    requires AllRanges(rs) && n <= |rs|
    ensures forall k :: 0 <= k < |GapsBefore(rs, n)| ==> GapsBefore(rs, n)[k].min <= GapsBefore(rs, n)[k].max
  {
    if n > 0 {
      GapsNonempty(rs, n - 1);
    }
  }

  lemma OutputNonempty(rs: seq<Node>)
    requires AllRanges(rs)
    ensures forall k :: 0 <= k < |ComplementOf(rs)| ==> ComplementOf(rs)[k].min <= ComplementOf(rs)[k].max
  {
    GapsNonempty(rs, |rs|);
  }

  lemma CoversSame(rs: seq<Node>, sorted: seq<Node>, v: U32)
    requires AllRanges(rs) && AllRanges(sorted) && multiset(sorted) == multiset(rs)
    ensures Covers(sorted, v) ==> Covers(rs, v)
  {
    if Covers(sorted, v) {
      var k :| 0 <= k < |sorted| && sorted[k].min <= v <= sorted[k].max;
      assert sorted[k] in multiset(sorted);
      assert sorted[k] in multiset(rs);
      var j :| 0 <= j < |rs| && rs[j] == sorted[k];
    }
  }

  /** An alternation of ranges matches one byte that one of them covers. */
  lemma RangesMatch(rs: seq<Node>, s: seq<Byte>, i: nat, j: nat, ev: seq<Event>)
    requires AllRanges(rs)
    ensures Matches(AlternationNode(rs), s, i, j, ev) <==> ev == [] && i < |s| && j == i + 1 && Covers(rs, s[i])
  {
    if Matches(AlternationNode(rs), s, i, j, ev) {
      var k :| 0 <= k < |rs| && Matches(rs[k], s, i, j, ev);
      assert rs[k].min <= s[i] <= rs[k].max;
    }
    if ev == [] && i < |s| && j == i + 1 && Covers(rs, s[i]) {
      var k :| 0 <= k < |rs| && rs[k].min <= s[i] <= rs[k].max;
      assert Matches(rs[k], s, i, j, ev);
    }
  }

  /** What a negated bracket expression matches: any one byte outside all its ranges. */
  lemma NegatedRangesMatch(rs: seq<Node>, sorted: seq<Node>, s: seq<Byte>, i: nat, j: nat, ev: seq<Event>)
    requires AllRanges(rs) && AllRanges(sorted) && multiset(sorted) == multiset(rs) && rs != []
    requires SortedByMin(sorted) && Unbroken(sorted)
    ensures Matches(AlternationNode(ComplementOf(sorted)), s, i, j, ev) <==>
      ev == [] && i < |s| && j == i + 1 && !Covers(rs, s[i])
  {
    hide ComplementOf, Unbroken, Matches;
    RangesMatch(ComplementOf(sorted), s, i, j, ev);
    if i < |s| {
      assert sorted != [] by {
        assert rs[0] in multiset(rs);
        assert rs[0] in multiset(sorted);
      }
      UnbrokenCovers(sorted, s[i]);
      CoversSame(rs, sorted, s[i]);
      CoversSame(sorted, rs, s[i]);
    }
  }
}
