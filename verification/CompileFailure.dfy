/**
 Which trees fail to compile, and what a failure inside an alternation, which nobody notices,
 leaves behind: forks and jumps that were never patched and lead to address 0.
 */
module CompileFailure {
  import opened Bytes
  import opened NfaInsn
  import opened Ast
  import opened Codegen
  import opened Utf8

  // ----- on trees -----

  /** Compiling t reports a failure. */
  predicate Fails(t: Node) {
    match t
    case RangeNode(_, _) => false
    case AtomNode(_) => false
    case ClassNode(_, _, _) => false
    case CaptureNode(_, child) => Fails(child)
    case RepeatNode(rmin, rmax, reluctant, child) =>
      || rmin > rmax
      || if rmin > 0 then Fails(child) || (reluctant && !EmptyCode(child))
         else reluctant || (rmax > 0 && Fails(child))
    case BranchNode(children) => exists k :: 0 <= k < |children| && Fails(children[k])
    case AlternationNode(_) => false
  }

  /** Compiling t, to its end or to a failure, leaves no code. */
  predicate EmptyCode(t: Node) {
    match t
    case RangeNode(_, _) => false
    case AtomNode(_) => false
    case ClassNode(_, _, _) => false
    case CaptureNode(_, _) => false
    case RepeatNode(rmin, rmax, reluctant, child) =>
      rmin > rmax || if rmin > 0 then EmptyCode(child) else reluctant || rmax == 0
    case BranchNode(children) =>
      forall k :: 0 <= k < |children| ==> EmptyCode(children[k]) || exists j :: 0 <= j < k && Fails(children[j])
    case AlternationNode(children) => children == [] || (|children| == 1 && EmptyCode(children[0]))
  }

  /** The code of t, up to its end or to a failure, holds a fork or jump that was never patched. */
  predicate Dangling(t: Node) {
    match t
    case RangeNode(_, _) => false
    case AtomNode(_) => false
    case ClassNode(_, _, _) => false
    case CaptureNode(_, child) => Dangling(child)
    case RepeatNode(rmin, rmax, reluctant, child) =>
      && rmin <= rmax
      && if rmin > 0 then Dangling(child) else !reluctant && rmax > 0 && (Fails(child) || Dangling(child))
    case BranchNode(children) =>
      exists k :: 0 <= k < |children| && Dangling(children[k]) && forall j :: 0 <= j < k ==> !Fails(children[j])
    case AlternationNode(children) =>
      if |children| == 1 then Dangling(children[0])
      else exists k :: 0 <= k < |children| && (Fails(children[k]) || Dangling(children[k]))
  }

  lemma {:induction false} SupportedIsSafe(t: Node, sc: bool)
    requires Supported(t, sc)
    ensures !Fails(t) && !Dangling(t)
  {
    match t
    case CaptureNode(_, child) => SupportedIsSafe(child, sc);
    case RepeatNode(_, _, _, child) => SupportedIsSafe(child, sc);
    case BranchNode(children) =>
      forall k | 0 <= k < |children| { SupportedIsSafe(children[k], sc); }
    case AlternationNode(children) =>
      forall k | 0 <= k < |children| { SupportedIsSafe(children[k], sc); }
    case _ =>
  }

  // ----- failure and emptiness of the emitted code -----

  /** The compiler fails exactly on the trees that Fails names, and emptiness is no matter of place. */
  lemma {:induction false} EmitStatus(t: Node, base: nat, sc: bool)
    ensures Emit(t, base, sc).ok <==> !Fails(t)
    ensures Emit(t, base, sc).code == [] <==> EmptyCode(t)
    decreases t, 0
  {
    match t
    case RangeNode(_, _) =>
    case AtomNode(c) =>
      assert |EncodeRune(c)| > 0;
    case ClassNode(_, _, _) =>
    case CaptureNode(_, child) =>
      EmitStatus(child, base + 1, sc);
    case RepeatNode(rmin, rmax, _, child) =>
      EmitCopiesStatus(child, base, rmin, sc);
      if rmin <= rmax { EmitOptionalStatus(child, base, rmin, rmax - rmin, sc); }
      EmitStatus(child, base + 1, sc);
    case BranchNode(children) =>
      EmitSeqStatus(children, base, sc);
    case AlternationNode(children) =>
      if |children| == 1 { EmitStatus(children[0], base, sc); }
  }

  lemma {:induction false} EmitCopiesStatus(t: Node, base: nat, k: nat, sc: bool)
    ensures EmitCopies(t, base, k, sc).ok <==> k == 0 || !Fails(t)
    ensures EmitCopies(t, base, k, sc).code == [] <==> k == 0 || EmptyCode(t)
    decreases t, 1, k
  {
    if k > 0 {
      EmitCopiesStatus(t, base, k - 1, sc);
      EmitStatus(t, base + |EmitCopies(t, base, k - 1, sc).code|, sc);
    }
  }

  lemma {:induction false} EmitOptionalStatus(t: Node, base: nat, k: nat, r: nat, sc: bool)
    ensures EmitOptional(t, base, k, r, sc).ok <==> k + r == 0 || !Fails(t)
    ensures EmitOptional(t, base, k, r, sc).code == [] <==>
      (if k == 0 then r == 0 else EmptyCode(t) && (r == 0 || Fails(t)))
    decreases t, 2, r
  {
    EmitCopiesStatus(t, base, k, sc);
    if r > 0 {
      EmitOptionalStatus(t, base, k, r - 1, sc);
      EmitStatus(t, base + |EmitOptional(t, base, k, r - 1, sc).code| + 1, sc);
    }
  }

  lemma BranchSnoc(front: seq<Node>, last: Node)
    ensures Fails(BranchNode(front + [last])) <==> Fails(BranchNode(front)) || Fails(last)
    ensures EmptyCode(BranchNode(front + [last])) <==>
      EmptyCode(BranchNode(front)) && (Fails(BranchNode(front)) || EmptyCode(last))
    ensures Dangling(BranchNode(front + [last])) <==>
      Dangling(BranchNode(front)) || (!Fails(BranchNode(front)) && Dangling(last))
  {
    var ts := front + [last];
    assert ts[|front|] == last && forall k :: 0 <= k < |front| ==> ts[k] == front[k];
  }

  lemma {:induction false} EmitSeqStatus(ts: seq<Node>, base: nat, sc: bool)
    ensures EmitSeq(ts, base, sc).ok <==> !Fails(BranchNode(ts))
    ensures EmitSeq(ts, base, sc).code == [] <==> EmptyCode(BranchNode(ts))
    decreases ts, 0
  {
    if ts != [] {
      hide *;
      var front, last := ts[..|ts| - 1], ts[|ts| - 1];
      assert ts == front + [last];
      EmitSeqStatus(front, base, sc);
      EmitStatus(last, base + |EmitSeq(front, base, sc).code|, sc);
      BranchSnoc(front, last);
      EmitSeqStep(front, last, base, sc);
    }
  }

  // ----- where forks and jumps lead -----

  /**
   Forks and jumps of a fragment at base, below top: they stay inside, except that exactly a
   dangling fragment also has some that lead to address 0.
   */
  ghost predicate Confined(code: seq<Insn>, base: nat, top: nat, dangling: bool) {
    && (forall k :: 0 <= k < |code| && HasTarget(code[k]) ==>
          base <= code[k].target <= top || (dangling && code[k].target == 0))
    && (dangling ==> exists k :: 0 <= k < |code| && HasTarget(code[k]) && code[k].target == 0)
  }

  lemma ConfinedConcat(c1: seq<Insn>, base1: nat, top1: nat, d1: bool,
                       c2: seq<Insn>, base2: nat, top2: nat, d2: bool, base: nat, top: nat)
    requires Confined(c1, base1, top1, d1) && base <= base1 && top1 <= top
    requires Confined(c2, base2, top2, d2) && base <= base2 && top2 <= top
    ensures Confined(c1 + c2, base, top, d1 || d2)
  {
    var c := c1 + c2;
    if d1 {
      var k :| 0 <= k < |c1| && HasTarget(c1[k]) && c1[k].target == 0;
      assert c[k] == c1[k];
    }
    if d2 {
      var k :| 0 <= k < |c2| && HasTarget(c2[k]) && c2[k].target == 0;
      assert c[|c1| + k] == c2[k];
    }
  }

  lemma ConfinedOne(insn: Insn, base: nat, top: nat)
    ensures HasTarget(insn) && base <= insn.target <= top ==> Confined([insn], base, top, false)
    ensures !HasTarget(insn) ==> Confined([insn], base, top, false)
    ensures HasTarget(insn) && insn.target == 0 ==> Confined([insn], base, top, true)
  {
    assert [insn][0] == insn;
  }

  lemma ConfinedNotPatched(base: nat, top: nat)
    ensures Confined([Fork(0)], base, top, true)
  {
    ConfinedOne(Fork(0), base, top);
  }

  lemma ConfinedNone(base: nat, top: nat)
    ensures Confined([], base, top, false)
  {
  }

  lemma {:induction false} AtomConfined(bytes: seq<Byte>, base: nat, sc: bool)
    ensures Confined(AtomCode(bytes, sc), base, base + |AtomCode(bytes, sc)|, false)
  {
  }

  /**
   The targets of emitted code, exactly: they lie in the code or right behind it, unless the tree is
   dangling, and then some of them are 0.
   */
  lemma {:induction false} EmitConfined(t: Node, base: nat, sc: bool)
    ensures Confined(Emit(t, base, sc).code, base, base + |Emit(t, base, sc).code|, Dangling(t))
    decreases t, 0
  {
    hide Confined, EmitSeq, EmitAlternation;
    var top := base + |Emit(t, base, sc).code|;
    match t
    case RangeNode(min, max) => ConfinedOne(RangeInsn(min, max), base, top);
    case AtomNode(c) => AtomConfined(EncodeRune(c), base, sc);
    case ClassNode(neg, frontier, cc) => ConfinedOne(Class(neg, frontier, cc), base, top);
    case CaptureNode(_, _) => CaptureConfined(t, base, sc);
    case RepeatNode(_, _, _, _) => RepeatConfined(t, base, sc);
    case BranchNode(children) => SeqConfined(children, base, sc);
    case AlternationNode(children) => AlternationConfined(children, base, sc);
  }

  lemma {:induction false} CaptureConfined(t: Node, base: nat, sc: bool)
    requires t.CaptureNode?
    ensures Confined(Emit(t, base, sc).code, base, base + |Emit(t, base, sc).code|, Dangling(t))
    decreases t, 0, 0
  {
    hide Confined;
    var CaptureNode(n, child) := t;
    var e, top := Emit(child, base + 1, sc), base + |Emit(t, base, sc).code|;
    var close := if e.ok then [Capture(true, n)] else [];
    assert Emit(t, base, sc).code == [Capture(false, n)] + (e.code + close) && Dangling(t) == Dangling(child);
    hide *;
    EmitConfined(child, base + 1, sc);
    ConfinedOne(Capture(false, n), base, base + 1);
    ConfinedOne(Capture(true, n), base, top);
    ConfinedNone(base, top);
    ConfinedConcat(e.code, base + 1, base + 1 + |e.code|, Dangling(child), close, base, top, false, base, top);
    ConfinedConcat([Capture(false, n)], base, base + 1, false, e.code + close, base, top, Dangling(child), base, top);
  }

  lemma {:induction false} RepeatConfined(t: Node, base: nat, sc: bool)
    requires t.RepeatNode?
    ensures Confined(Emit(t, base, sc).code, base, base + |Emit(t, base, sc).code|, Dangling(t))
    decreases t, 0, 0
  {
    hide Confined;
    var RepeatNode(rmin, rmax, reluctant, child) := t;
    ConfinedNone(base, base);
    EmitStatus(t, base, sc);
    if rmin <= rmax {
      var copies := EmitCopies(child, base, rmin, sc);
      EmitCopiesStatus(child, base, rmin, sc);
      CopiesConfined(child, base, rmin, sc);
      if copies.ok && !(rmin > 0 && copies.code == []) && !reluctant {
        if rmax != UINT_MAX {
          OptionalConfined(child, base, rmin, rmax - rmin, sc);
        } else if rmin > 0 {
          var last := base + |EmitCopies(child, base, rmin - 1, sc).code|;
          var top := base + |copies.code| + 1;
          ConfinedOne(Fork(last), base, top);
          ConfinedConcat(copies.code, base, base + |copies.code|, Dangling(child),
                         [Fork(last)], base, top, false, base, top);
        } else {
          StarConfined(child, base, sc);
        }
      }
    }
  }

  /** No copies at all, and none after a failure. */
  lemma CopiesEnd(t: Node, base: nat, k: nat, sc: bool)
    ensures k == 0 ==> EmitCopies(t, base, k, sc).code == []
    ensures k > 0 && !EmitCopies(t, base, k - 1, sc).ok ==> EmitCopies(t, base, k, sc) == EmitCopies(t, base, k - 1, sc)
  {
  }

  lemma {:induction false} CopiesConfined(t: Node, base: nat, k: nat, sc: bool)
    ensures Confined(EmitCopies(t, base, k, sc).code, base, base + |EmitCopies(t, base, k, sc).code|,
                     k > 0 && Dangling(t))
    decreases t, 1, k
  {
    hide *;
    CopiesEnd(t, base, k, sc);
    if k == 0 {
      ConfinedNone(base, base);
    } else {
      CopiesConfined(t, base, k - 1, sc);
      EmitCopiesStatus(t, base, k - 1, sc);
      var front := EmitCopies(t, base, k - 1, sc);
      if front.ok {
        EmitCopiesStep(t, base, k, sc);
        var here := base + |front.code|;
        var e := Emit(t, here, sc);
        EmitConfined(t, here, sc);
        var top := here + |e.code|;
        ConfinedConcat(front.code, base, here, k > 1 && Dangling(t), e.code, here, top, Dangling(t), base, top);
      }
    }
  }

  /** k copies and r optional ones. */
  predicate OptionalDangling(t: Node, k: nat, r: nat) {
    if k > 0 then Dangling(t) else r > 0 && (Fails(t) || Dangling(t))
  }

  lemma OptionConfined(front: seq<Insn>, base: nat, here: nat, e: Emitted, d1: bool, d2: bool)
    requires here == base + |front| && Confined(front, base, here, d1)
    requires Confined(e.code, here + 1, here + 1 + |e.code|, d2)
    ensures var code := WithOption(front, here, e).code;
            Confined(code, base, base + |code|, d1 || !e.ok || d2)
  {
    hide Confined;
    var end := here + 1 + |e.code|;
    var fork := Fork(if e.ok then end else 0);
    ConfinedOne(fork, here, end);
    ConfinedConcat([fork], here, end, !e.ok, e.code, here + 1, end, d2, here, end);
    ConfinedConcat(front, base, here, d1, [fork] + e.code, here, end, !e.ok || d2, base, end);
  }

  /** No optional copy at all, and none after a failure. */
  lemma OptionalEnds(t: Node, base: nat, k: nat, r: nat, sc: bool)
    ensures r == 0 ==> EmitOptional(t, base, k, r, sc) == EmitCopies(t, base, k, sc)
    ensures r > 0 && !EmitOptional(t, base, k, r - 1, sc).ok ==>
      EmitOptional(t, base, k, r, sc) == EmitOptional(t, base, k, r - 1, sc)
  {
  }

  lemma {:induction false} OptionalConfined(t: Node, base: nat, k: nat, r: nat, sc: bool)
    ensures Confined(EmitOptional(t, base, k, r, sc).code, base, base + |EmitOptional(t, base, k, r, sc).code|,
                     OptionalDangling(t, k, r))
    decreases t, 2, r
  {
    hide Confined, Emit, EmitCopies, EmitOptional, Fails, Dangling;
    OptionalEnds(t, base, k, r, sc);
    if r == 0 {
      CopiesConfined(t, base, k, sc);
    } else {
      OptionalConfined(t, base, k, r - 1, sc);
      EmitOptionalStatus(t, base, k, r - 1, sc);
      var front := EmitOptional(t, base, k, r - 1, sc);
      if front.ok {
        var here := base + |front.code|;
        EmitStatus(t, here + 1, sc);
        EmitConfined(t, here + 1, sc);
        EmitOptionalStep(t, base, k, r - 1, sc);
        hide *;
        OptionConfined(front.code, base, here, Emit(t, here + 1, sc), OptionalDangling(t, k, r - 1), Dangling(t));
      }
    }
  }

  lemma LoopConfined(e: Emitted, base: nat, dangling: bool)
    requires Confined(e.code, base + 1, base + 1 + |e.code|, dangling)
    ensures Confined(WithLoop(base, e), base, base + |WithLoop(base, e)|, !e.ok || dangling)
  {
    hide Confined;
    if e.ok {
      var top := base + 2 + |e.code|;
      ConfinedOne(Fork(top), base, top);
      ConfinedOne(Jmp(base), base, top);
      ConfinedConcat(e.code, base + 1, base + 1 + |e.code|, dangling, [Jmp(base)], base, top, false, base, top);
      ConfinedConcat([Fork(top)], base, top, false, e.code + [Jmp(base)], base, top, dangling, base, top);
    } else {
      var top := base + 1 + |e.code|;
      ConfinedNotPatched(base, top);
      ConfinedConcat([Fork(0)], base, top, true, e.code, base + 1, top, dangling, base, top);
    }
  }

  lemma {:induction false} StarConfined(t: Node, base: nat, sc: bool)
    ensures Confined(EmitStar(t, base, sc).code, base, base + |EmitStar(t, base, sc).code|, Fails(t) || Dangling(t))
    decreases t, 1
  {
    hide *;
    EmitStatus(t, base + 1, sc);
    EmitConfined(t, base + 1, sc);
    EmitStarStep(t, base, sc);
    LoopConfined(Emit(t, base + 1, sc), base, Dangling(t));
  }

  lemma SnocConfined(front: seq<Node>, last: Node, base: nat, sc: bool)
    requires var code := EmitSeq(front, base, sc).code;
             Confined(code, base, base + |code|, Dangling(BranchNode(front)))
    requires var here := base + |EmitSeq(front, base, sc).code|; var code := Emit(last, here, sc).code;
             Confined(code, here, here + |code|, Dangling(last))
    ensures var code := EmitSeq(front + [last], base, sc).code;
            Confined(code, base, base + |code|, Dangling(BranchNode(front + [last])))
  {
    hide *;
    EmitSeqStatus(front, base, sc);
    BranchSnoc(front, last);
    EmitSeqStep(front, last, base, sc);
    var f := EmitSeq(front, base, sc);
    if f.ok {
      var here := base + |f.code|;
      var e := Emit(last, here, sc).code;
      ConfinedConcat(f.code, base, here, Dangling(BranchNode(front)), e, here, here + |e|, Dangling(last),
                     base, here + |e|);
    }
  }

  lemma NothingConfined(base: nat, sc: bool)
    ensures Confined(EmitSeq([], base, sc).code, base, base + |EmitSeq([], base, sc).code|, Dangling(BranchNode([])))
  {
    hide Confined;
    ConfinedNone(base, base);
  }

  lemma {:induction false} SeqConfined(ts: seq<Node>, base: nat, sc: bool)
    ensures Confined(EmitSeq(ts, base, sc).code, base, base + |EmitSeq(ts, base, sc).code|, Dangling(BranchNode(ts)))
    decreases ts, 0
  {
    hide *;
    if ts == [] {
      NothingConfined(base, sc);
    } else {
      var front, last := ts[..|ts| - 1], ts[|ts| - 1];
      assert ts == front + [last];
      SeqConfined(front, base, sc);
      EmitConfined(last, base + |EmitSeq(front, base, sc).code|, sc);
      SnocConfined(front, last, base, sc);
    }
  }

  lemma DanglingCons(ts: seq<Node>)
    requires |ts| > 1
    ensures Dangling(AlternationNode(ts)) <==>
      || Fails(ts[0])
      || Dangling(ts[0]) || Fails(ts[1]) || Dangling(AlternationNode(ts[1..]))
  {
    var rest := ts[1..];
    assert rest[0] == ts[1] && forall k :: 1 <= k < |ts| ==> ts[k] == rest[k - 1];
    if Dangling(AlternationNode(rest)) && |rest| > 1 {
      var k :| 0 <= k < |rest| && (Fails(rest[k]) || Dangling(rest[k]));
      assert ts[k + 1] == rest[k];
    }
  }

  /** The jump over the next alternative leads behind it, and is left at 0 if that one fails. */
  lemma JumpOverTarget(ts: seq<Node>, base: nat, sc: bool)
    requires ts != []
    ensures if Fails(ts[0]) then JumpOver(ts, base, sc) == 0
            else base <= JumpOver(ts, base, sc) <= base + |EmitAlternation(ts, base, sc).code|
  {
    EmitStatus(ts[0], FirstChild(ts, base), sc);
  }

  lemma AlternativeConfined(base: nat, e: Emitted, d1: bool, target: nat, lost: bool, rest: Emitted, d2: bool)
    requires Confined(e.code, base + 1, base + 1 + |e.code|, d1)
    requires var post := base + 2 + |e.code|; Confined(rest.code, post, post + |rest.code|, d2)
    requires if lost then target == 0 else base <= target <= base + 2 + |e.code| + |rest.code|
    ensures var code := WithAlternative(base, e, target, rest).code;
            Confined(code, base, base + |code|, d1 || lost || d2)
  {
    hide Confined;
    var post, top := base + 2 + |e.code|, base + 2 + |e.code| + |rest.code|;
    ConfinedOne(Jmp(target), base, top);
    ConfinedOne(Fork(post), base, top);
    ConfinedConcat([Jmp(target)], base, top, lost, rest.code, post, top, d2, base, top);
    ConfinedConcat(e.code, base + 1, post - 1, d1, [Jmp(target)] + rest.code, base, top, lost || d2, base, top);
    ConfinedConcat([Fork(post)], base, top, false, e.code + ([Jmp(target)] + rest.code), base, top, d1 || lost || d2,
                   base, top);
  }

  lemma {:induction false} AlternationConfined(ts: seq<Node>, base: nat, sc: bool)
    ensures Confined(EmitAlternation(ts, base, sc).code, base, base + |EmitAlternation(ts, base, sc).code|,
                     Dangling(AlternationNode(ts)))
    decreases ts, 1
  {
    hide Confined;
    if ts == [] {
      ConfinedNone(base, base);
    } else if |ts| == 1 {
      EmitConfined(ts[0], base, sc);
    } else {
      hide *;
      AlternativesConfined(ts, base, sc);
    }
  }

  lemma {:induction false} AlternativesConfined(ts: seq<Node>, base: nat, sc: bool)
    requires |ts| > 1
    ensures Confined(EmitAlternation(ts, base, sc).code, base, base + |EmitAlternation(ts, base, sc).code|,
                     Dangling(AlternationNode(ts)))
    decreases ts, 0
  {
    hide *;
    DanglingCons(ts);
    EmitAlternationStep(ts, base, sc);
    var first, rest, e := ts[0], ts[1..], Emit(ts[0], base + 1, sc);
    EmitStatus(first, base + 1, sc);
    EmitConfined(first, base + 1, sc);
    if e.ok {
      var post := base + 2 + |e.code|;
      AlternationConfined(rest, post, sc);
      JumpOverTarget(rest, post, sc);
      AlternativeConfined(base, e, Dangling(first), JumpOver(rest, post, sc), Fails(rest[0]),
                          EmitAlternation(rest, post, sc), Dangling(AlternationNode(rest)));
    } else {
      var top := base + 1 + |e.code|;
      ConfinedNotPatched(base, top);
      ConfinedConcat([Fork(0)], base, top, true, e.code, base + 1, top, Dangling(first), base, top);
    }
  }

  /** Some fork or jump of code between base and top leads elsewhere. */
  ghost predicate Escapes(code: seq<Insn>, base: nat, top: nat) {
    exists k :: 0 <= k < |code| && HasTarget(code[k]) && !(base <= code[k].target <= top)
  }

  /** Code that does not lie at address 0 leads out of itself exactly when its tree is dangling. */
  lemma EscapesExactly(t: Node, base: nat, sc: bool)
    requires base > 0
    ensures Escapes(Emit(t, base, sc).code, base, base + |Emit(t, base, sc).code|) <==> Dangling(t)
  {
    EmitConfined(t, base, sc);
    hide Emit, Dangling;
  }

  // ----- alternatives behind a failure -----

  lemma JumpOverFirst(ts: seq<Node>, us: seq<Node>, base: nat, sc: bool)
    requires |ts| > 1 && |us| > 1 && ts[0] == us[0]
    ensures JumpOver(ts, base, sc) == JumpOver(us, base, sc)
  {
  }

  /** Once an alternative has failed, the alternatives behind it make no difference to the code. */
  lemma {:induction false} AlternativesLost(ts: seq<Node>, us: seq<Node>, vs: seq<Node>, base: nat, sc: bool)
    requires ts != [] && Fails(ts[|ts| - 1]) && us != [] && vs != []
    ensures EmitAlternation(ts + us, base, sc) == EmitAlternation(ts + vs, base, sc)
    decreases |ts|
  {
    hide Emit, EmitAlternation, JumpOver;
    EmitStatus(ts[0], base + 1, sc);
    EmitAlternationStep(ts + us, base, sc);
    EmitAlternationStep(ts + vs, base, sc);
    if !Fails(ts[0]) {
      var post := base + 2 + |Emit(ts[0], base + 1, sc).code|;
      assert (ts + us)[1..] == ts[1..] + us && (ts + vs)[1..] == ts[1..] + vs;
      AlternativesLost(ts[1..], us, vs, post, sc);
      JumpOverFirst(ts[1..] + us, ts[1..] + vs, post, sc);
    }
  }

  // ----- code that stays inside can be moved -----

  function MoveInsn(insn: Insn, d: nat): Insn {
    match insn
    case Jmp(t) => Jmp(t + d)
    case Fork(t) => Fork(t + d)
    case _ => insn
  }

  function MoveCode(code: seq<Insn>, d: nat): (r: seq<Insn>)
    ensures |r| == |code|
  {
    seq(|code|, i requires 0 <= i < |code| => MoveInsn(code[i], d))
  }

  lemma MoveConcat(c1: seq<Insn>, c2: seq<Insn>, d: nat)
    ensures MoveCode(c1 + c2, d) == MoveCode(c1, d) + MoveCode(c2, d)
  {
  }

  lemma MoveOne(insn: Insn, d: nat)
    ensures MoveCode([insn], d) == [MoveInsn(insn, d)] && MoveCode([], d) == []
  {
  }

  function Moved(e: Emitted, d: nat): Emitted {
    Emitted(MoveCode(e.code, d), e.ok)
  }

  lemma {:induction false} AtomMoves(bytes: seq<Byte>, d: nat, sc: bool)
    ensures MoveCode(AtomCode(bytes, sc), d) == AtomCode(bytes, sc)
  {
  }

  /** The same code d addresses further on, with every target moved along. */
  lemma {:induction false} EmitMoves(t: Node, base: nat, d: nat, sc: bool)
    requires !Dangling(t)
    ensures Emit(t, base + d, sc) == Moved(Emit(t, base, sc), d)
    decreases t, 0
  {
    hide MoveCode;
    match t
    case RangeNode(min, max) => MoveOne(RangeInsn(min, max), d);
    case AtomNode(c) => AtomMoves(EncodeRune(c), d, sc);
    case ClassNode(neg, frontier, cc) => MoveOne(Class(neg, frontier, cc), d);
    case CaptureNode(n, child) =>
      var e := Emit(child, base + 1, sc);
      var close := if e.ok then [Capture(true, n)] else [];
      EmitMoves(child, base + 1, d, sc);
      MoveOne(Capture(false, n), d);
      MoveOne(Capture(true, n), d);
      MoveConcat(e.code, close, d);
      MoveConcat([Capture(false, n)], e.code + close, d);
    case RepeatNode(_, _, _, _) => RepeatMoves(t, base, d, sc);
    case BranchNode(children) => SeqMoves(children, base, d, sc);
    case AlternationNode(children) =>
      AlternationMoves(children, base, d, sc);
  }

  lemma NoCopies(t: Node, base: nat, sc: bool)
    ensures EmitCopies(t, base, 0, sc) == Emitted([], true)
  {
  }

  lemma {:induction false} RepeatMoves(t: Node, base: nat, d: nat, sc: bool)
    requires t.RepeatNode? && !Dangling(t)
    ensures Emit(t, base + d, sc) == Moved(Emit(t, base, sc), d)
    decreases t, 0, 0
  {
    hide MoveCode, EmitCopies, EmitOptional, EmitStar, Fails, EmptyCode;
    var RepeatNode(rmin, rmax, reluctant, child) := t;
    MoveOne(Fork(0), d);
    if rmin <= rmax {
      var copies := EmitCopies(child, base, rmin, sc);
      NoCopies(child, base, sc);
      NoCopies(child, base + d, sc);
      EmitCopiesStatus(child, base, rmin, sc);
      CopiesMove(child, base, d, rmin, sc);
      if copies.ok && !(rmin > 0 && copies.code == []) && !reluctant {
        if rmax != UINT_MAX {
          OptionalMoves(child, base, d, rmin, rmax - rmin, sc);
        } else if rmin > 0 {
          CopiesMove(child, base, d, rmin - 1, sc);
          var last := base + |EmitCopies(child, base, rmin - 1, sc).code|;
          MoveOne(Fork(last), d);
          MoveConcat(copies.code, [Fork(last)], d);
        } else {
          StarMoves(child, base, d, sc);
        }
      }
    }
  }

  lemma {:induction false} CopiesMove(t: Node, base: nat, d: nat, k: nat, sc: bool)
    requires k > 0 ==> !Dangling(t)
    ensures EmitCopies(t, base + d, k, sc) == Moved(EmitCopies(t, base, k, sc), d)
    decreases t, 1, k
  {
    hide MoveCode;
    if k == 0 {
      MoveOne(Jmp(0), d);
    } else {
      CopiesMove(t, base, d, k - 1, sc);
      var front := EmitCopies(t, base, k - 1, sc);
      if front.ok {
        EmitCopiesStep(t, base, k, sc);
        EmitCopiesStep(t, base + d, k, sc);
        hide Emit, EmitCopies;
        var here := base + |front.code|;
        EmitMoves(t, here, d, sc);
        MoveConcat(front.code, Emit(t, here, sc).code, d);
      }
    }
  }

  lemma MovedOption(front: seq<Insn>, here: nat, e: Emitted, d: nat)
    requires e.ok
    ensures Moved(WithOption(front, here, e), d) == WithOption(MoveCode(front, d), here + d, Moved(e, d))
  {
    hide MoveCode;
    var fork := Fork(here + 1 + |e.code|);
    MoveOne(fork, d);
    MoveConcat([fork], e.code, d);
    MoveConcat(front, [fork] + e.code, d);
  }

  lemma OptionMoves(t: Node, base: nat, d: nat, k: nat, r: nat, sc: bool, here: nat)
    requires r > 0 && EmitOptional(t, base, k, r - 1, sc).ok
    requires here == base + |EmitOptional(t, base, k, r - 1, sc).code|
    requires EmitOptional(t, base + d, k, r - 1, sc) == Moved(EmitOptional(t, base, k, r - 1, sc), d)
    requires Emit(t, here + 1, sc).ok && Emit(t, here + 1 + d, sc) == Moved(Emit(t, here + 1, sc), d)
    ensures EmitOptional(t, base + d, k, r, sc) == Moved(EmitOptional(t, base, k, r, sc), d)
  {
    hide MoveCode, EmitOptional, Emit, WithOption;
    var front := EmitOptional(t, base, k, r - 1, sc).code;
    EmitOptionalStep(t, base, k, r - 1, sc);
    EmitOptionalStep(t, base + d, k, r - 1, sc);
    assert base + d + |front| + 1 == here + 1 + d && base + d + |front| == here + d;
    MovedOption(front, here, Emit(t, here + 1, sc), d);
  }

  lemma {:induction false} OptionalMoves(t: Node, base: nat, d: nat, k: nat, r: nat, sc: bool)
    requires !OptionalDangling(t, k, r) && EmitCopies(t, base, k, sc).ok
    ensures EmitOptional(t, base + d, k, r, sc) == Moved(EmitOptional(t, base, k, r, sc), d)
    decreases t, 2, r
  {
    if r == 0 {
      CopiesMove(t, base, d, k, sc);
    } else {
      EmitCopiesStatus(t, base, k, sc);
      EmitOptionalStatus(t, base, k, r - 1, sc);
      OptionalMoves(t, base, d, k, r - 1, sc);
      var here := base + |EmitOptional(t, base, k, r - 1, sc).code|;
      EmitMoves(t, here + 1, d, sc);
      EmitStatus(t, here + 1, sc);
      hide *;
      OptionMoves(t, base, d, k, r, sc, here);
    }
  }

  lemma {:induction false} StarMoves(t: Node, base: nat, d: nat, sc: bool)
    requires !Fails(t) && !Dangling(t)
    ensures EmitStar(t, base + d, sc) == Moved(EmitStar(t, base, sc), d)
    decreases t, 1
  {
    hide MoveCode;
    EmitMoves(t, base + 1, d, sc);
    EmitStatus(t, base + 1, sc);
    var e := Emit(t, base + 1, sc).code;
    MoveOne(Fork(base + 2 + |e|), d);
    MoveOne(Jmp(base), d);
    MoveConcat(e, [Jmp(base)], d);
    MoveConcat([Fork(base + 2 + |e|)], e + [Jmp(base)], d);
  }

  lemma MovedIs(e: Emitted, d: nat)
    ensures Moved(e, d) == Emitted(MoveCode(e.code, d), e.ok)
  {
  }

  lemma SnocMoves(front: seq<Node>, last: Node, base: nat, d: nat, sc: bool)
    requires EmitSeq(front, base + d, sc) == Moved(EmitSeq(front, base, sc), d)
    requires var f := EmitSeq(front, base, sc);
             f.ok ==> Emit(last, base + |f.code| + d, sc) == Moved(Emit(last, base + |f.code|, sc), d)
    ensures EmitSeq(front + [last], base + d, sc) == Moved(EmitSeq(front + [last], base, sc), d)
  {
    hide *;
    EmitSeqStep(front, last, base, sc);
    EmitSeqStep(front, last, base + d, sc);
    var f := EmitSeq(front, base, sc);
    MovedIs(f, d);
    if f.ok {
      var here := base + |f.code|;
      assert here + d == base + d + |f.code|;
      MoveConcat(f.code, Emit(last, here, sc).code, d);
      MovedIs(Emit(last, here, sc), d);
      MovedIs(EmitSeq(front + [last], base, sc), d);
    }
  }

  lemma NothingMoves(base: nat, d: nat, sc: bool)
    ensures EmitSeq([], base + d, sc) == Moved(EmitSeq([], base, sc), d)
  {
  }

  lemma {:induction false} SeqMoves(ts: seq<Node>, base: nat, d: nat, sc: bool)
    requires !Dangling(BranchNode(ts))
    ensures EmitSeq(ts, base + d, sc) == Moved(EmitSeq(ts, base, sc), d)
    decreases ts, 0
  {
    hide *;
    if ts == [] {
      NothingMoves(base, d, sc);
    } else {
      var front, last := ts[..|ts| - 1], ts[|ts| - 1];
      assert ts == front + [last];
      BranchSnoc(front, last);
      SeqMoves(front, base, d, sc);
      EmitSeqStatus(front, base, sc);
      var f := EmitSeq(front, base, sc);
      if f.ok {
        EmitMoves(last, base + |f.code|, d, sc);
      }
      SnocMoves(front, last, base, d, sc);
    }
  }

  lemma {:induction false} JumpOverMoves(ts: seq<Node>, base: nat, d: nat, sc: bool)
    requires ts != [] && !Dangling(ts[0])
    ensures !Fails(ts[0]) ==> JumpOver(ts, base + d, sc) == JumpOver(ts, base, sc) + d
    decreases ts, 0
  {
    hide MoveCode;
    EmitMoves(ts[0], FirstChild(ts, base), d, sc);
    EmitStatus(ts[0], FirstChild(ts, base), sc);
  }

  lemma MovedAlternative(base: nat, e: Emitted, target: nat, rest: Emitted, d: nat)
    ensures Moved(WithAlternative(base, e, target, rest), d)
      == WithAlternative(base + d, Moved(e, d), target + d, Moved(rest, d))
  {
    hide MoveCode;
    var fork, jmp := Fork(base + 2 + |e.code|), Jmp(target);
    MoveOne(fork, d);
    MoveOne(jmp, d);
    MoveConcat([jmp], rest.code, d);
    MoveConcat(e.code, [jmp] + rest.code, d);
    MoveConcat([fork], e.code + ([jmp] + rest.code), d);
  }

  lemma AlternativeMoves(ts: seq<Node>, base: nat, d: nat, sc: bool, post: nat)
    requires |ts| > 1 && Emit(ts[0], base + 1, sc).ok && post == base + 2 + |Emit(ts[0], base + 1, sc).code|
    requires Emit(ts[0], base + 1 + d, sc) == Moved(Emit(ts[0], base + 1, sc), d)
    requires EmitAlternation(ts[1..], post + d, sc) == Moved(EmitAlternation(ts[1..], post, sc), d)
    requires JumpOver(ts[1..], post + d, sc) == JumpOver(ts[1..], post, sc) + d
    ensures EmitAlternation(ts, base + d, sc) == Moved(EmitAlternation(ts, base, sc), d)
  {
    hide MoveCode, EmitAlternation, JumpOver, Emit, WithAlternative;
    var e := Emit(ts[0], base + 1, sc);
    EmitAlternationStep(ts, base, sc);
    EmitAlternationStep(ts, base + d, sc);
    assert base + d + 1 == base + 1 + d && base + d + 2 + |e.code| == post + d;
    MovedAlternative(base, e, JumpOver(ts[1..], post, sc), EmitAlternation(ts[1..], post, sc), d);
  }

  lemma {:induction false} AlternationMoves(ts: seq<Node>, base: nat, d: nat, sc: bool)
    requires !Dangling(AlternationNode(ts))
    ensures EmitAlternation(ts, base + d, sc) == Moved(EmitAlternation(ts, base, sc), d)
    ensures ts != [] && !Fails(ts[0]) ==> JumpOver(ts, base + d, sc) == JumpOver(ts, base, sc) + d
    decreases ts, 1
  {
    hide MoveCode;
    if ts == [] {
      MoveOne(Jmp(0), d);
    } else if |ts| == 1 {
      EmitMoves(ts[0], base, d, sc);
      EmitStatus(ts[0], base, sc);
    } else {
      DanglingCons(ts);
      JumpOverMoves(ts, base, d, sc);
      EmitMoves(ts[0], base + 1, d, sc);
      EmitStatus(ts[0], base + 1, sc);
      var post := base + 2 + |Emit(ts[0], base + 1, sc).code|;
      AlternationMoves(ts[1..], post, d, sc);
      hide *;
      AlternativeMoves(ts, base, d, sc, post);
    }
  }
}
