/** The regex syntax tree of nfa-compile.h and what a tree matches. */
module Ast {
  import opened Bytes
  import opened NfaInsn
  import opened NfaSemantics
  import opened Utf8

  datatype Node =
    | RangeNode(min: U32, max: U32)
    | AtomNode(c: U32)
    | ClassNode(neg: bool, frontier: bool, cclass: CClass)
    | CaptureNode(capture: nat, child: Node)
    | RepeatNode(rmin: U32, rmax: U32, reluctant: bool, child: Node)
    | BranchNode(children: seq<Node>)
    | AlternationNode(children: seq<Node>)

  /**
   The denotation: in the input s, the tree matches from position i to position j and
   records the capture events ev.  It is a relation on positions and not a set of strings
   because a frontier looks at the bytes on both sides of a position.
   */
  ghost predicate Matches(t: Node, s: seq<Byte>, i: nat, j: nat, ev: seq<Event>)
    decreases t, 0
  {
    match t
    case RangeNode(min, max) => i < |s| && min <= s[i] <= max && j == i + 1 && ev == []
    case AtomNode(c) =>
      j == i + |EncodeRune(c)| && j <= |s| && s[i..j] == EncodeRune(c) && ev == []
    case ClassNode(neg, frontier, cc) =>
      ev == [] &&
      if frontier then j == i && FrontierMatch(neg, cc, s, i)
      else i < |s| && j == i + 1 && ClassMatch(neg, cc, s[i])
    case CaptureNode(n, child) =>
      exists inner ::
        Matches(child, s, i, j, inner) && ev == [Event(false, n, i)] + inner + [Event(true, n, j)]
    case RepeatNode(rmin, rmax, _, child) =>
      exists k: nat :: MatchesTimes(child, s, i, j, ev, k) && rmin <= k && (rmax == UINT_MAX || k <= rmax)
    case BranchNode(children) => MatchesSeq(children, s, i, j, ev)
    case AlternationNode(children) =>
      exists k :: 0 <= k < |children| && Matches(children[k], s, i, j, ev)
  }

  /** k matches of t in a row. */
  ghost predicate MatchesTimes(t: Node, s: seq<Byte>, i: nat, j: nat, ev: seq<Event>, k: nat)
    decreases t, 1, k
  {
    if k == 0 then i == j && ev == []
    else exists m: nat, e1, e2 ::
      MatchesTimes(t, s, i, m, e1, k - 1) && Matches(t, s, m, j, e2) && ev == e1 + e2
  }

  /** The trees of ts one after the other. */
  ghost predicate MatchesSeq(ts: seq<Node>, s: seq<Byte>, i: nat, j: nat, ev: seq<Event>)
    decreases ts, 0
  {
    if ts == [] then i == j && ev == []
    else
      var front, last := ts[..|ts| - 1], ts[|ts| - 1];
      exists m: nat, e1, e2 ::
        MatchesSeq(front, s, i, m, e1) && Matches(last, s, m, j, e2) && ev == e1 + e2
  }

  /**
   The trees the compiler handles: no reluctant repetition, bounds in order, no empty
   alternation, ranges that the clamp to a byte leaves alone and, where plain char is
   signed, only ASCII atoms.
   */
  predicate Supported(t: Node, signedChar: bool) {
    match t
    case RangeNode(min, max) => min <= 0xFF || max < 0xFF
    case AtomNode(c) => signedChar ==> c <= 0x7F
    case ClassNode(_, _, _) => true
    case CaptureNode(_, child) => Supported(child, signedChar)
    case RepeatNode(rmin, rmax, reluctant, child) => !reluctant && rmin <= rmax && Supported(child, signedChar)
    case BranchNode(children) => forall k :: 0 <= k < |children| ==> Supported(children[k], signedChar)
    case AlternationNode(children) =>
      children != [] && forall k :: 0 <= k < |children| ==> Supported(children[k], signedChar)
  }

  /** Every capture number in the tree is below n. */
  predicate CapturesBelow(t: Node, n: nat) {
    match t
    case RangeNode(_, _) => true
    case AtomNode(_) => true
    case ClassNode(_, _, _) => true
    case CaptureNode(c, child) => c < n && CapturesBelow(child, n)
    case RepeatNode(_, _, _, child) => CapturesBelow(child, n)
    case BranchNode(children) => forall k :: 0 <= k < |children| ==> CapturesBelow(children[k], n)
    case AlternationNode(children) => forall k :: 0 <= k < |children| ==> CapturesBelow(children[k], n)
  }

  lemma {:induction false} CapturesBelowMonotone(t: Node, n: nat, m: nat)
    requires CapturesBelow(t, n) && n <= m
    ensures CapturesBelow(t, m)
  {
    match t
    case CaptureNode(_, child) => CapturesBelowMonotone(child, n, m);
    case RepeatNode(_, _, _, child) => CapturesBelowMonotone(child, n, m);
    case BranchNode(children) =>
      forall k | 0 <= k < |children| { CapturesBelowMonotone(children[k], n, m); }
    case AlternationNode(children) =>
      forall k | 0 <= k < |children| { CapturesBelowMonotone(children[k], n, m); }
    case _ =>
  }

  lemma {:induction false} MatchesInRange(t: Node, s: seq<Byte>, i: nat, j: nat, ev: seq<Event>)
    requires Matches(t, s, i, j, ev) && i <= |s|
    ensures i <= j <= |s|
    decreases t, 0
  {
    match t
    case RangeNode(min, max) =>
    case AtomNode(c) =>
    case ClassNode(neg, frontier, cc) =>
    case CaptureNode(n, child) =>
      var inner :| Matches(child, s, i, j, inner) && ev == [Event(false, n, i)] + inner + [Event(true, n, j)];
      MatchesInRange(child, s, i, j, inner);
    case RepeatNode(rmin, rmax, _, child) =>
      var k: nat :| MatchesTimes(child, s, i, j, ev, k);
      MatchesTimesInRange(child, s, i, j, ev, k);
    case BranchNode(children) => MatchesSeqInRange(children, s, i, j, ev);
    case AlternationNode(children) =>
      var k :| 0 <= k < |children| && Matches(children[k], s, i, j, ev);
      MatchesInRange(children[k], s, i, j, ev);
  }

  lemma {:induction false} MatchesTimesInRange(t: Node, s: seq<Byte>, i: nat, j: nat, ev: seq<Event>, k: nat)
    requires MatchesTimes(t, s, i, j, ev, k) && i <= |s|
    ensures i <= j <= |s|
    decreases t, 1, k
  {
    if k > 0 {
      var m: nat, e1, e2 :| MatchesTimes(t, s, i, m, e1, k - 1) && Matches(t, s, m, j, e2) && ev == e1 + e2;
      MatchesTimesInRange(t, s, i, m, e1, k - 1);
      MatchesInRange(t, s, m, j, e2);
    }
  }

  lemma {:induction false} MatchesSeqInRange(ts: seq<Node>, s: seq<Byte>, i: nat, j: nat, ev: seq<Event>)
    requires MatchesSeq(ts, s, i, j, ev) && i <= |s|
    ensures i <= j <= |s|
    decreases ts, 0
  {
    if ts != [] {
      var m: nat, e1, e2 :|
        MatchesSeq(ts[..|ts| - 1], s, i, m, e1) && Matches(ts[|ts| - 1], s, m, j, e2) && ev == e1 + e2;
      MatchesSeqInRange(ts[..|ts| - 1], s, i, m, e1);
      MatchesInRange(ts[|ts| - 1], s, m, j, e2);
    }
  }

  /** The last of some trees, and those before it. */
  lemma SplitLast(front: seq<Node>, t: Node, s: seq<Byte>, i: nat, j: nat, ev: seq<Event>)
    returns (m: nat, e1: seq<Event>, e2: seq<Event>)
    requires MatchesSeq(front + [t], s, i, j, ev)
    ensures MatchesSeq(front, s, i, m, e1) && Matches(t, s, m, j, e2) && ev == e1 + e2
  {
    var ts := front + [t];
    assert ts[..|ts| - 1] == front && ts[|ts| - 1] == t;
    m, e1, e2 :| MatchesSeq(ts[..|ts| - 1], s, i, m, e1) && Matches(ts[|ts| - 1], s, m, j, e2) && ev == e1 + e2;
  }

  lemma JoinLast(front: seq<Node>, t: Node, s: seq<Byte>, i: nat, m: nat, j: nat, e1: seq<Event>, e2: seq<Event>)
    requires MatchesSeq(front, s, i, m, e1) && Matches(t, s, m, j, e2)
    ensures MatchesSeq(front + [t], s, i, j, e1 + e2)
  {
    var ts := front + [t];
    assert ts[..|ts| - 1] == front && ts[|ts| - 1] == t;
    assert MatchesSeq(ts[..|ts| - 1], s, i, m, e1) && Matches(ts[|ts| - 1], s, m, j, e2);
  }
}
