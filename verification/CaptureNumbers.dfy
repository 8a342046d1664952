/** The capture numbers of a syntax tree, in the order of a walk from the left. */
module CaptureNumbers {
  import opened Ast

  ghost function Captures(t: Node): seq<nat>
    decreases t, 0
  {
    match t
    case RangeNode(_, _) => []
    case AtomNode(_) => []
    case ClassNode(_, _, _) => []
    case CaptureNode(n, child) => [n] + Captures(child)
    case RepeatNode(_, _, _, child) => Captures(child)
    case BranchNode(children) => CapturesOf(children)
    case AlternationNode(children) => CapturesOf(children)
  }

  ghost function CapturesOf(ts: seq<Node>): seq<nat>
    decreases ts, 0
  {
    if ts == [] then [] else CapturesOf(ts[..|ts| - 1]) + Captures(ts[|ts| - 1])
  }

  lemma CapturesOfPush(ts: seq<Node>, t: Node)
    ensures CapturesOf(ts + [t]) == CapturesOf(ts) + Captures(t)
  {
    assert (ts + [t])[..|ts|] == ts;
  }

  lemma CapturesOfOne(t: Node)
    ensures CapturesOf([t]) == Captures(t)
  {
    assert [t][..0] == [];
  }

  lemma CapturesOfCapture(n: nat, t: Node)
    ensures Captures(CaptureNode(n, t)) == [n] + Captures(t)
  {
  }

  lemma CapturesOfList(ts: seq<Node>)
    ensures Captures(BranchNode(ts)) == Captures(AlternationNode(ts)) == CapturesOf(ts)
  {
  }

  /** Strictly increasing, from lo on and below hi. */
  predicate Increasing(ns: seq<nat>, lo: nat, hi: nat) {
    && lo <= hi
    && (forall k :: 0 <= k < |ns| ==> lo <= ns[k] < hi)
    && (forall j, k :: 0 <= j < k < |ns| ==> ns[j] < ns[k])
  }

  /** Exactly lo, lo + 1, ..., hi - 1. */
  predicate Consecutive(ns: seq<nat>, lo: nat, hi: nat) {
    |ns| == hi - lo && forall k :: 0 <= k < |ns| ==> ns[k] == lo + k
  }

  lemma NoCaptures(n: nat)
    ensures CapturesOf([]) == [] && Increasing([], n, n) && Consecutive([], n, n)
  {
  }

  predicate Leaf(t: Node) {
    t.RangeNode? || t.AtomNode? || t.ClassNode?
  }

  lemma {:induction false} LeavesHaveNone(ts: seq<Node>)
    requires forall k :: 0 <= k < |ts| ==> Leaf(ts[k])
    ensures CapturesOf(ts) == []
  {
    if ts != [] {
      LeavesHaveNone(ts[..|ts| - 1]);
    }
  }

  lemma Append(a: seq<nat>, b: seq<nat>, lo: nat, mid: nat, hi: nat)
    requires Increasing(a, lo, mid) && Increasing(b, mid, hi)
    ensures Increasing(a + b, lo, hi)
    ensures Consecutive(a, lo, mid) && Consecutive(b, mid, hi) ==> Consecutive(a + b, lo, hi)
  {
  }

  lemma Prepend(n: nat, ns: seq<nat>, hi: nat)
    requires Increasing(ns, n + 1, hi)
    ensures Increasing([n] + ns, n, hi)
    ensures Consecutive(ns, n + 1, hi) ==> Consecutive([n] + ns, n, hi)
  {
  }

  lemma Widen(ns: seq<nat>, lo: nat, lo': nat, hi: nat, hi': nat)
    requires Increasing(ns, lo, hi) && lo' <= lo && hi <= hi'
    ensures Increasing(ns, lo', hi')
  {
  }

  /** Dropping a capture node at the top; its number is free again if it was the last one. */
  lemma DropTop(n: nat, ns: seq<nat>, lo: nat, hi: nat)
    requires Increasing([n] + ns, lo, hi)
    ensures Increasing(ns, lo, if n == hi - 1 then hi - 1 else hi)
  {
    var all := [n] + ns;
    forall k | 0 <= k < |ns|
      ensures all[0] < all[k + 1] == ns[k] < hi
    {
    }
    forall j, k | 0 <= j < k < |ns|
      ensures ns[j] < ns[k]
    {
      assert all[j + 1] < all[k + 1];
    }
    if ns != [] {
      assert all[0] < all[1] < hi;
    }
  }

  predicate AllBelow(ns: seq<nat>, n: nat) {
    forall k :: 0 <= k < |ns| ==> ns[k] < n
  }

  /** Numbers below n everywhere in the walk are numbers below n everywhere in the tree. */
  lemma {:induction false} BelowAll(t: Node, n: nat)
    requires AllBelow(Captures(t), n)
    ensures CapturesBelow(t, n)
    decreases t, 0
  {
    match t
    case CaptureNode(c, child) =>
      var all := [c] + Captures(child);
      assert all[0] == c && forall k :: 0 <= k < |Captures(child)| ==> Captures(child)[k] == all[k + 1];
      BelowAll(child, n);
    case RepeatNode(_, _, _, child) => BelowAll(child, n);
    case BranchNode(children) => BelowAllOf(children, n);
    case AlternationNode(children) => BelowAllOf(children, n);
    case _ =>
  }

  lemma {:induction false} BelowAllOf(ts: seq<Node>, n: nat)
    requires AllBelow(CapturesOf(ts), n)
    ensures forall k :: 0 <= k < |ts| ==> CapturesBelow(ts[k], n)
    decreases ts, 0
  {
    if ts != [] {
      var a, b := CapturesOf(ts[..|ts| - 1]), Captures(ts[|ts| - 1]);
      assert CapturesOf(ts) == a + b;
      assert forall k :: 0 <= k < |a| ==> a[k] == (a + b)[k];
      assert forall k :: 0 <= k < |b| ==> b[k] == (a + b)[|a| + k];
      BelowAllOf(ts[..|ts| - 1], n);
      BelowAll(ts[|ts| - 1], n);
      assert forall k :: 0 <= k < |ts| - 1 ==> ts[k] == ts[..|ts| - 1][k];
    }
  }
}
