/**
 What compiled code stands for. Unless something in a tree fails to compile, its code is, instruction by
 instruction, the code of a tree that the compiler handles as the tree says.
 */
module CompiledTree {
  import opened Bytes
  import opened NfaInsn
  import opened Ast
  import opened Codegen
  import opened CompileFailure
  import opened Utf8
  import Runes

  /** Nothing that is compiled fails, not even inside an alternation. */
  predicate Whole(t: Node) {
    match t
    case RangeNode(_, _) => true
    case AtomNode(_) => true
    case ClassNode(_, _, _) => true
    case CaptureNode(_, child) => Whole(child)
    case RepeatNode(rmin, rmax, reluctant, child) =>
      && rmin <= rmax
      && if rmin > 0 then Whole(child) && (reluctant ==> EmptyCode(child))
         else !reluctant && (rmax > 0 ==> Whole(child))
    case BranchNode(children) => forall k :: 0 <= k < |children| ==> Whole(children[k])
    case AlternationNode(children) => forall k :: 0 <= k < |children| ==> Whole(children[k])
  }

  /** No alternation has a failing child as its only one. */
  predicate Shaped(t: Node) {
    match t
    case RangeNode(_, _) => true
    case AtomNode(_) => true
    case ClassNode(_, _, _) => true
    case CaptureNode(_, child) => Shaped(child)
    case RepeatNode(_, _, _, child) => Shaped(child)
    case BranchNode(children) => forall k :: 0 <= k < |children| ==> Shaped(children[k])
    case AlternationNode(children) =>
      (|children| == 1 ==> !Fails(children[0])) && forall k :: 0 <= k < |children| ==> Shaped(children[k])
  }

  /** In such trees, that is all there is to go wrong. */
  lemma {:induction false} WholeExactly(t: Node)
    requires Shaped(t)
    ensures Whole(t) <==> !Fails(t) && !Dangling(t)
  {
    match t
    case CaptureNode(_, child) => WholeExactly(child);
    case RepeatNode(_, _, _, child) => WholeExactly(child);
    case BranchNode(children) =>
      forall k | 0 <= k < |children| { WholeExactly(children[k]); }
    case AlternationNode(children) =>
      forall k | 0 <= k < |children| { WholeExactly(children[k]); }
    case _ =>
  }

  lemma {:induction false} WholeIsSafe(t: Node)
    requires Whole(t)
    ensures !Fails(t) && !Dangling(t)
  {
    match t
    case CaptureNode(_, child) => WholeIsSafe(child);
    case RepeatNode(rmin, rmax, _, child) =>
      if Whole(child) { WholeIsSafe(child); }
    case BranchNode(children) =>
      forall k | 0 <= k < |children| { WholeIsSafe(children[k]); }
    case AlternationNode(children) =>
      forall k | 0 <= k < |children| { WholeIsSafe(children[k]); }
    case _ =>
  }

  /** What the clamp makes of a range, or of a byte of an atom, that lies above a byte. */
  const LAST_BYTE: Node := RangeNode(0xFF, 0xFF)

  /**
   The tree that the code of t stands for. A range that starts above a byte and reaches the last one
   takes that one; so does, where plain char is signed, every byte of an atom outside ASCII. What leaves
   no code takes the empty string, which makes a difference for an alternation without children.
   */
  function Effective(t: Node, sc: bool): Node {
    match t
    case RangeNode(min, max) => if min > 0xFF && max >= 0xFF then LAST_BYTE else t
    case AtomNode(c) => if sc && c > 0x7F then BranchNode(seq(|EncodeRune(c)|, _ => LAST_BYTE)) else t
    case ClassNode(_, _, _) => t
    case CaptureNode(n, child) => CaptureNode(n, Effective(child, sc))
    case RepeatNode(rmin, rmax, reluctant, child) =>
      if reluctant || !Whole(child) then BranchNode([]) else RepeatNode(rmin, rmax, false, Effective(child, sc))
    case BranchNode(children) => BranchNode(EffectiveAll(children, sc))
    case AlternationNode(children) =>
      if children == [] then BranchNode([]) else AlternationNode(EffectiveAll(children, sc))
  }

  function EffectiveAll(ts: seq<Node>, sc: bool): (us: seq<Node>)
    ensures |us| == |ts| && forall k :: 0 <= k < |ts| ==> us[k] == Effective(ts[k], sc)
  {
    seq(|ts|, k requires 0 <= k < |ts| => Effective(ts[k], sc))
  }

  lemma {:induction false} EffectiveSupported(t: Node, sc: bool)
    requires Whole(t)
    ensures Supported(Effective(t, sc), sc)
  {
    match t
    case CaptureNode(_, child) => EffectiveSupported(child, sc);
    case RepeatNode(_, _, _, child) =>
      if Whole(child) { EffectiveSupported(child, sc); }
    case BranchNode(children) =>
      forall k | 0 <= k < |children| { EffectiveSupported(children[k], sc); }
    case AlternationNode(children) =>
      forall k | 0 <= k < |children| { EffectiveSupported(children[k], sc); }
    case _ =>
  }

  lemma {:induction false} SupportedIsItself(t: Node, sc: bool)
    requires Supported(t, sc)
    ensures Whole(t) && Effective(t, sc) == t
  {
    match t
    case CaptureNode(_, child) => SupportedIsItself(child, sc);
    case RepeatNode(_, _, _, child) => SupportedIsItself(child, sc);
    case BranchNode(children) =>
      forall k | 0 <= k < |children| { SupportedIsItself(children[k], sc); }
      assert EffectiveAll(children, sc) == children;
    case AlternationNode(children) =>
      forall k | 0 <= k < |children| { SupportedIsItself(children[k], sc); }
      assert EffectiveAll(children, sc) == children;
    case _ =>
  }

  /** Exactly the supported trees stand for themselves. */
  lemma {:induction false} SupportedExactly(t: Node, sc: bool)
    ensures Supported(t, sc) <==> Whole(t) && Effective(t, sc) == t
  {
    if Whole(t) && Effective(t, sc) == t {
      EffectiveSupported(t, sc);
    }
    if Supported(t, sc) {
      SupportedIsItself(t, sc);
    }
  }

  // ----- the same code -----

  ghost predicate SameCode(t: Node, u: Node, sc: bool) {
    forall base: nat :: Emit(u, base, sc) == Emit(t, base, sc)
  }

  lemma SameAt(t: Node, u: Node, base: nat, sc: bool)
    requires SameCode(t, u, sc)
    ensures Emit(u, base, sc) == Emit(t, base, sc)
  {
    hide Emit;
  }

  lemma {:induction false} SameCopies(t: Node, u: Node, base: nat, k: nat, sc: bool)
    requires SameCode(t, u, sc)
    ensures EmitCopies(u, base, k, sc) == EmitCopies(t, base, k, sc)
  {
    if k > 0 {
      hide Emit;
      SameCopies(t, u, base, k - 1, sc);
    }
  }

  lemma {:induction false} SameOptional(t: Node, u: Node, base: nat, k: nat, r: nat, sc: bool)
    requires SameCode(t, u, sc)
    ensures EmitOptional(u, base, k, r, sc) == EmitOptional(t, base, k, r, sc)
    decreases r
  {
    hide *;
    SameCopies(t, u, base, k, sc);
    OptionalEnds(t, base, k, r, sc);
    OptionalEnds(u, base, k, r, sc);
    if r > 0 {
      var front := EmitOptional(t, base, k, r - 1, sc);
      SameOptional(t, u, base, k, r - 1, sc);
      if front.ok {
        SameAt(t, u, base + |front.code| + 1, sc);
        EmitOptionalStep(t, base, k, r - 1, sc);
        EmitOptionalStep(u, base, k, r - 1, sc);
      }
    }
  }

  lemma SameStar(t: Node, u: Node, base: nat, sc: bool)
    requires SameCode(t, u, sc)
    ensures EmitStar(u, base, sc) == EmitStar(t, base, sc)
  {
    hide Emit, SameCode;
    SameAt(t, u, base + 1, sc);
  }

  lemma SameRepeat(t: Node, u: Node, rmin: U32, rmax: U32, sc: bool)
    requires SameCode(t, u, sc)
    ensures SameCode(RepeatNode(rmin, rmax, false, t), RepeatNode(rmin, rmax, false, u), sc)
  {
    hide Emit, EmitCopies, EmitOptional, EmitStar;
    forall base: nat
      ensures Emit(RepeatNode(rmin, rmax, false, u), base, sc) == Emit(RepeatNode(rmin, rmax, false, t), base, sc)
    {
      SameCopies(t, u, base, rmin, sc);
      if rmin <= rmax { SameOptional(t, u, base, rmin, rmax - rmin, sc); }
      if rmin > 0 { SameCopies(t, u, base, rmin - 1, sc); }
      SameStar(t, u, base, sc);
      EmitRepeatStep(t, rmin, rmax, base, sc);
      EmitRepeatStep(u, rmin, rmax, base, sc);
    }
  }

  ghost predicate AllSameCode(ts: seq<Node>, us: seq<Node>, sc: bool) {
    |us| == |ts| && forall k :: 0 <= k < |ts| ==> SameCode(ts[k], us[k], sc)
  }

  lemma {:induction false} SameSeq(ts: seq<Node>, us: seq<Node>, base: nat, sc: bool)
    requires AllSameCode(ts, us, sc)
    ensures EmitSeq(us, base, sc) == EmitSeq(ts, base, sc)
    decreases |ts|
  {
    if ts != [] {
      var n := |ts| - 1;
      SameSeq(ts[..n], us[..n], base, sc);
      var here := base + |EmitSeq(ts[..n], base, sc).code|;
      hide Emit, SameCode;
      SameAt(ts[n], us[n], here, sc);
    }
  }

  lemma JumpOverIs(ts: seq<Node>, base: nat, sc: bool)
    requires ts != []
    ensures var e := Emit(ts[0], FirstChild(ts, base), sc);
            JumpOver(ts, base, sc) == if e.ok then FirstChild(ts, base) + |e.code| else 0
  {
    hide Emit;
  }

  lemma {:induction false} SameAlternation(ts: seq<Node>, us: seq<Node>, base: nat, sc: bool)
    requires AllSameCode(ts, us, sc)
    ensures EmitAlternation(us, base, sc) == EmitAlternation(ts, base, sc)
    ensures ts != [] ==> JumpOver(us, base, sc) == JumpOver(ts, base, sc)
    decreases |ts|
  {
    if ts != [] {
      hide Emit, SameCode;
      SameAt(ts[0], us[0], FirstChild(ts, base), sc);
      if |ts| > 1 {
        assert AllSameCode(ts[1..], us[1..], sc);
        hide *;
        var post := base + 2 + |Emit(ts[0], base + 1, sc).code|;
        SameAlternation(ts[1..], us[1..], post, sc);
        EmitAlternationStep(ts, base, sc);
        EmitAlternationStep(us, base, sc);
        JumpOverIs(ts, base, sc);
        JumpOverIs(us, base, sc);
      }
    }
  }

  /** Every byte of an encoding outside ASCII is above 0x7F. */
  lemma HighBytes(c: U32)
    requires c > 0x7F
    ensures forall k :: 0 <= k < |EncodeRune(c)| ==> EncodeRune(c)[k] > 0x7F
  {
    Runes.TailShape(c, RuneLen(c));
  }

  lemma {:induction false} LastBytes(n: nat, base: nat, sc: bool)
    ensures EmitSeq(seq(n, _ => LAST_BYTE), base, sc) == Emitted(seq(n, _ => Range(0xFF, 0xFF)), true)
  {
    if n > 0 {
      LastBytes(n - 1, base, sc);
      assert seq(n, _ => LAST_BYTE)[..n - 1] == seq(n - 1, _ => LAST_BYTE);
      assert seq(n, _ => Range(0xFF, 0xFF)) == seq(n - 1, _ => Range(0xFF, 0xFF)) + [Range(0xFF, 0xFF)];
    }
  }

  lemma AtomSameCode(c: U32, sc: bool)
    ensures SameCode(AtomNode(c), Effective(AtomNode(c), sc), sc)
  {
    if sc && c > 0x7F {
      HighBytes(c);
      var n := |EncodeRune(c)|;
      assert AtomCode(EncodeRune(c), sc) == seq(n, _ => Range(0xFF, 0xFF));
      forall base: nat
        ensures Emit(Effective(AtomNode(c), sc), base, sc) == Emit(AtomNode(c), base, sc)
      {
        LastBytes(n, base, sc);
      }
    }
  }

  lemma RepeatEmpty(t: Node, sc: bool)
    requires t.RepeatNode? && Whole(t) && (t.reluctant || !Whole(t.child))
    ensures SameCode(t, BranchNode([]), sc)
  {
    forall base: nat
      ensures Emit(t, base, sc) == Emitted([], true)
    {
      hide Emit;
      EmitStatus(t, base, sc);
      assert EmptyCode(t) && !Fails(t) by {
        if t.rmin > 0 { WholeIsSafe(t.child); }
      }
    }
  }

  /** The code of a tree is that of its effective tree, wherever it lies. */
  lemma {:induction false} EffectiveCode(t: Node, sc: bool)
    requires Whole(t)
    ensures SameCode(t, Effective(t, sc), sc)
  {
    match t
    case RangeNode(_, _) =>
    case AtomNode(c) => AtomSameCode(c, sc);
    case ClassNode(_, _, _) =>
    case CaptureNode(_, child) => EffectiveCode(child, sc);
    case RepeatNode(rmin, rmax, reluctant, child) =>
      if reluctant || !Whole(child) {
        RepeatEmpty(t, sc);
      } else {
        EffectiveCode(child, sc);
        SameRepeat(child, Effective(child, sc), rmin, rmax, sc);
      }
    case BranchNode(children) =>
      var us := EffectiveAll(children, sc);
      forall k | 0 <= k < |children|
        ensures SameCode(children[k], us[k], sc)
      {
        EffectiveCode(children[k], sc);
      }
      forall base: nat
        ensures Emit(BranchNode(us), base, sc) == Emit(t, base, sc)
      {
        SameSeq(children, us, base, sc);
      }
    case AlternationNode(children) =>
      var us := EffectiveAll(children, sc);
      forall k | 0 <= k < |children|
        ensures SameCode(children[k], us[k], sc)
      {
        EffectiveCode(children[k], sc);
      }
      forall base: nat
        ensures Emit(Effective(t, sc), base, sc) == Emit(t, base, sc)
      {
        SameAlternation(children, us, base, sc);
      }
  }
}
