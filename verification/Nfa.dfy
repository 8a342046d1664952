/** The NFA under construction: putting instructions, compiling trees, adding patterns. */
module NfaObject {
  import opened Bytes
  import opened NfaInsn
  import opened NfaSemantics
  import opened Ast
  import opened Codegen
  import opened Utf8
  import opened NfaProgram
  import opened Bitfield

  /** The argument of MATCH in allocated slots that no pattern has used yet: -1 in 29 bits. */
  const NO_MATCH: nat := 0x1FFF_FFFF

  /** What a pattern parser hands back: a tree or none, its capture count, its status, leftover input. */
  datatype Parsed = NoTree(rc: int) | Tree(root: Node, nCaptures: nat, rc: int, garbage: bool)

  /** What every pattern parser owes aem_nfa_add. */
  predicate ParserContract(parsed: Parsed) {
    parsed.Tree? ==> CapturesBelow(parsed.root, parsed.nCaptures)
  }

  function Max(x: int, y: int): int {
    if x < y then y else x
  }

  // ----- sequence algebra of patching -----

  lemma PatchMiddle(pre: Program, front: Program, x: Insn, y: Insn, post: Program)
    ensures pre + front + [x] + post == pre + (front + ([x] + post))
    ensures (pre + front + [x] + post)[|pre| + |front| := y] == pre + (front + ([y] + post))
  {
  }

  lemma PatchFork(pre: Program, fork: Insn, frag: Program, jmp: Insn)
    ensures (pre + ([Fork(0)] + frag) + [jmp])[|pre| := fork] == pre + ([fork] + frag) + [jmp]
  {
  }

  function Filled(jmpPrev: int, target: nat): Program {
    if jmpPrev == -1 then [] else [Jmp(target)]
  }

  function Pending(jmpPrev: int): Program {
    Filled(jmpPrev, 0)
  }

  /** The code still to come in an alternation, with the jump of the child before it patched. */
  function RestOfAlternation(ts: seq<Node>, jmpPrev: int, base: nat, sc: bool): Program {
    (if ts == [] then [] else Filled(jmpPrev, JumpOver(ts, base, sc))) + EmitAlternation(ts, base, sc).code
  }

  lemma AlternationFails(ts: seq<Node>, jmpPrev: int, pre: Program, base: nat, sc: bool)
    requires ts != [] && !Emit(ts[0], FirstChild(ts, base), sc).ok
    ensures !EmitAlternation(ts, base, sc).ok
    ensures var code := Emit(ts[0], FirstChild(ts, base), sc).code;
            var tail := if |ts| > 1 then [Fork(0)] + code else code;
            pre + RestOfAlternation(ts, jmpPrev, base, sc) == pre + Pending(jmpPrev) + tail
  {
  }

  lemma AlternationTurn(ts: seq<Node>, jmpPrev: int, pre: Program, base: nat, sc: bool, goal: Program)
    requires ts != [] && Emit(ts[0], FirstChild(ts, base), sc).ok
    requires goal == pre + RestOfAlternation(ts, jmpPrev, base, sc)
    ensures EmitAlternation(ts, base, sc).ok ==
      EmitAlternation(ts[1..], JumpOver(ts, base, sc) + if |ts| == 1 then 0 else 1, sc).ok
    ensures JumpOver(ts, base, sc) == FirstChild(ts, base) + |Emit(ts[0], FirstChild(ts, base), sc).code|
    ensures var code := Emit(ts[0], FirstChild(ts, base), sc).code; var here := JumpOver(ts, base, sc);
            var filled := pre + Filled(jmpPrev, here);
            if |ts| == 1 then goal == filled + code + RestOfAlternation(ts[1..], -1, here, sc)
            else goal == filled + ([Fork(here + 1)] + code) + RestOfAlternation(ts[1..], here, here + 1, sc)
  {
    var code := Emit(ts[0], FirstChild(ts, base), sc).code;
    var here := JumpOver(ts, base, sc);
    Concat(pre, Filled(jmpPrev, here), EmitAlternation(ts, base, sc).code);
    if |ts| > 1 {
      var rest := RestOfAlternation(ts[1..], here, here + 1, sc);
      Concat([Fork(here + 1)], code, rest);
      Concat(pre + Filled(jmpPrev, here), [Fork(here + 1)] + code, rest);
    }
  }

  /** One more copy behind the program `before` and the copies there are. */
  lemma CopiesTurn(before: Program, t: Node, entry: nat, i: nat, sc: bool)
    requires |before| == entry && EmitCopies(t, entry, i, sc).ok
    ensures var code := before + EmitCopies(t, entry, i, sc).code;
            var e := Emit(t, |code|, sc);
            && EmitCopies(t, entry, i + 1, sc).ok == e.ok
            && before + EmitCopies(t, entry, i + 1, sc).code == code + e.code
  {
    EmitCopiesStep(t, entry, i + 1, sc);
    hide Emit, EmitCopies;
    var front := EmitCopies(t, entry, i, sc).code;
    Concat(before, front, Emit(t, entry + |front|, sc).code);
  }

  /** One more optional copy behind the program `before` and the copies there are. */
  lemma OptionalTurn(before: Program, t: Node, entry: nat, k: nat, i: nat, sc: bool)
    requires |before| == entry && EmitOptional(t, entry, k, i, sc).ok
    ensures var code := before + EmitOptional(t, entry, k, i, sc).code;
            var e := Emit(t, |code| + 1, sc);
            && EmitOptional(t, entry, k, i + 1, sc).ok == e.ok
            && before + EmitOptional(t, entry, k, i + 1, sc).code
                == code + ([Fork(if e.ok then |code| + 1 + |e.code| else 0)] + e.code)
  {
    hide Emit, EmitOptional;
    EmitOptionalStep(t, entry, k, i, sc);
    var front := EmitOptional(t, entry, k, i, sc).code;
    var e := Emit(t, entry + |front| + 1, sc);
    Concat(before, front, [Fork(if e.ok then entry + |front| + 1 + |e.code| else 0)] + e.code);
  }

  // ----- a failed part fails the whole, with the code up to the failure -----

  lemma {:induction false} EmitSeqFails(ts: seq<Node>, i: nat, base: nat, sc: bool)
    requires i < |ts| && !EmitSeq(ts[..i + 1], base, sc).ok
    ensures EmitSeq(ts, base, sc) == EmitSeq(ts[..i + 1], base, sc)
    decreases |ts|
  {
    if i + 1 < |ts| {
      assert ts[..|ts| - 1][..i + 1] == ts[..i + 1];
      EmitSeqFails(ts[..|ts| - 1], i, base, sc);
    } else {
      assert ts[..i + 1] == ts;
    }
  }

  lemma {:induction false} EmitCopiesFails(t: Node, base: nat, i: nat, k: nat, sc: bool)
    requires i <= k && !EmitCopies(t, base, i, sc).ok
    ensures EmitCopies(t, base, k, sc) == EmitCopies(t, base, i, sc)
    decreases k
  {
    if i < k { EmitCopiesFails(t, base, i, k - 1, sc); }
  }

  lemma {:induction false} EmitOptionalFails(t: Node, base: nat, k: nat, i: nat, r: nat, sc: bool)
    requires i <= r && !EmitOptional(t, base, k, i, sc).ok
    ensures EmitOptional(t, base, k, r, sc) == EmitOptional(t, base, k, i, sc)
    decreases r
  {
    if i < r { EmitOptionalFails(t, base, k, i, r - 1, sc); }
  }

  class Nfa {
    var pgm: seq<Insn>       // allocated instructions
    var nInsns: nat          // how many of them are the program
    var nCaptures: nat
    var thrInit: seq<Word>   // bitmap of the initial pcs
    var nMatches: nat
    const signedChar: bool   // the platform's plain char
    ghost var code: Program  // the program: the first nInsns of pgm
    ghost var patterns: seq<Pattern>

    /** Enough is allocated for the program. */
    ghost predicate Allocated()
      reads this
    {
      nInsns <= |pgm| && nInsns <= 32 * |thrInit| && code == pgm[..nInsns]
    }

    ghost function Inits(): set<nat>
      reads this
    {
      Members(thrInit)
    }

    /**
     Between calls the program is well-formed and serves its patterns, whatever was added or failed
     to be added.
     */
    ghost predicate Valid()
      reads this
    {
      && Allocated()
      && WellFormed(code, Inits(), nCaptures)
      && Serves(code, Inits(), patterns, signedChar)
    }

    lemma CodeSize()
      requires Allocated()
      ensures |code| == nInsns
    {
    }

    constructor (signedChar: bool)
      ensures Valid() && code == [] && Inits() == {} && nCaptures == 0 && nMatches == 0 && patterns == []
      ensures this.signedChar == signedChar
    {
      pgm, nInsns, nCaptures, thrInit, nMatches, code := [], 0, 0, [], 0, [];
      this.signedChar := signedChar;
      patterns := [];
    }

    method PutInsn(i: nat, insn: Insn) returns (r: nat)
      requires Allocated()
      modifies this`pgm, this`nInsns, this`thrInit, this`code
      ensures Allocated() && r == i && nInsns == Max(old(nInsns), i + 1) && Inits() == old(Inits())
      ensures i < |code| && code[i] == insn
      ensures forall k :: 0 <= k < old(nInsns) && k != i ==> code[k] == old(code)[k]
    {
      if i + 1 >= nInsns {
        nInsns := i + 1;
        if |pgm| < nInsns {
          pgm := pgm + seq(nInsns - |pgm|, _ => Match(NO_MATCH));
        }
        var words := Words(nInsns);
        if words > |thrInit| {
          var alloc := 2 * |thrInit|;
          if alloc < words {
            alloc := words + 1;
          }
          thrInit := Grow(thrInit, alloc);
        }
      }
      pgm := pgm[i := insn];
      code := pgm[..nInsns];
      r := i;
    }

    method AppendInsn(insn: Insn) returns (r: nat)
      requires Allocated()
      modifies this`pgm, this`nInsns, this`thrInit, this`code
      ensures Allocated() && r == old(nInsns) && Inits() == old(Inits())
      ensures code == old(code) + [insn]
    {
      r := PutInsn(nInsns, insn);
    }

    /** Overwrite an instruction of the program: fill in the target of a fork or jump. */
    method Patch(i: nat, insn: Insn)
      requires Allocated() && i < nInsns
      modifies this`pgm, this`nInsns, this`thrInit, this`code
      ensures Allocated() && nInsns == old(nInsns) && Inits() == old(Inits())
      ensures code == old(code)[i := insn]
    {
      var _ := PutInsn(i, insn);
    }

    // ----- compiling a tree -----

    method CompileAtom(c: U32)
      requires Allocated()
      modifies this`pgm, this`nInsns, this`thrInit, this`code
      ensures Allocated() && Inits() == old(Inits())
      ensures code == old(code) + AtomCode(EncodeRune(c), signedChar)
    {
      var bytes := EncodeRune(c);
      for i := 0 to |bytes|
        invariant Allocated() && Inits() == old(Inits())
        invariant code == old(code) + AtomCode(bytes[..i], signedChar)
      {
        var _ := AppendInsn(CharInsn(bytes[i], signedChar));
        assert bytes[..i + 1][..i] == bytes[..i];
      }
      assert bytes[..|bytes|] == bytes;
    }

    /** aem_nfa_node_compile: append the code of t, or report failure with part of it appended. */
    method CompileNode(t: Node) returns (entry: nat, ok: bool)
      requires Allocated()
      modifies this`pgm, this`nInsns, this`thrInit, this`code
      ensures Allocated() && Inits() == old(Inits())
      ensures entry == old(nInsns)
      ensures ok == Emit(t, old(nInsns), signedChar).ok
      ensures code == old(code) + Emit(t, old(nInsns), signedChar).code
      decreases t, 2
    {
      hide EmitSeq, EmitAlternation, EmitCopies, EmitOptional, EmitStar;
      entry, ok := nInsns, true;
      match t
      case RangeNode(min, max) =>
        var _ := AppendInsn(RangeInsn(min, max));
      case AtomNode(c) =>
        CompileAtom(c);
      case ClassNode(neg, frontier, cc) =>
        var _ := AppendInsn(Class(neg, frontier, cc));
      case CaptureNode(_, _) =>
        ok := CompileCapture(t);
      case RepeatNode(_, _, _, _) =>
        ok := CompileRepeat(t);
      case BranchNode(children) =>
        ok := CompileBranch(t);
      case AlternationNode(children) =>
        var _ := GenAlternation(t);
    }

    method CompileCapture(t: Node) returns (ok: bool)
      requires t.CaptureNode? && Allocated()
      modifies this`pgm, this`nInsns, this`thrInit, this`code
      ensures Allocated() && Inits() == old(Inits())
      ensures ok == Emit(t, old(nInsns), signedChar).ok
      ensures code == old(code) + Emit(t, old(nInsns), signedChar).code
      decreases t, 0
    {
      var _ := AppendInsn(Capture(false, t.capture));
      var _, childOk := CompileNode(t.child);
      ok := childOk;
      if ok {
        var _ := AppendInsn(Capture(true, t.capture));
      }
    }

    method CompileBranch(t: Node) returns (ok: bool)
      requires t.BranchNode? && Allocated()
      modifies this`pgm, this`nInsns, this`thrInit, this`code
      ensures Allocated() && Inits() == old(Inits())
      ensures ok == EmitSeq(t.children, old(nInsns), signedChar).ok
      ensures code == old(code) + EmitSeq(t.children, old(nInsns), signedChar).code
      decreases t, 0
    {
      var ts, entry := t.children, nInsns;
      for i := 0 to |ts|
        invariant Allocated() && Inits() == old(Inits())
        invariant EmitSeq(ts[..i], entry, signedChar).ok
        invariant code == old(code) + EmitSeq(ts[..i], entry, signedChar).code
      {
        ghost var front := EmitSeq(ts[..i], entry, signedChar).code;
        var here, childOk := CompileNode(ts[i]);
        Concat(old(code), front, Emit(ts[i], here, signedChar).code);
        assert ts[..i + 1][..i] == ts[..i];
        if !childOk {
          EmitSeqFails(ts, i, entry, signedChar);
          return false;
        }
      }
      assert ts[..|ts|] == ts;
      ok := true;
    }

    method CompileRepeat(t: Node) returns (ok: bool)
      requires t.RepeatNode? && Allocated()
      modifies this`pgm, this`nInsns, this`thrInit, this`code
      ensures Allocated() && Inits() == old(Inits())
      ensures ok == Emit(t, old(nInsns), signedChar).ok
      ensures code == old(code) + Emit(t, old(nInsns), signedChar).code
      decreases t, 0
    {
      var RepeatNode(rmin, rmax, reluctant, child) := t;
      var entry := nInsns;
      if rmin > rmax {
        return false;
      }
      var lastRep;
      lastRep, ok := CompileCopies(child, rmin);
      if !ok {
        return;
      }
      if rmin > 0 && nInsns == entry {
        return true;
      }
      if reluctant {
        return false;
      }
      if rmax != UINT_MAX {
        ok := CompileOptional(child, entry, rmin, rmax - rmin, old(code));
      } else if rmin > 0 {
        var _ := AppendInsn(Fork(lastRep));
      } else {
        ok := CompileStar(child);
      }
    }

    /** The mandatory copies of a repetition, and where the last of them starts. */
    method CompileCopies(t: Node, k: nat) returns (lastRep: nat, ok: bool)
      requires Allocated()
      modifies this`pgm, this`nInsns, this`thrInit, this`code
      ensures Allocated() && Inits() == old(Inits())
      ensures ok == EmitCopies(t, old(nInsns), k, signedChar).ok
      ensures code == old(code) + EmitCopies(t, old(nInsns), k, signedChar).code
      ensures ok && k > 0 ==> lastRep == old(nInsns) + |EmitCopies(t, old(nInsns), k - 1, signedChar).code|
      decreases t, 3
    {
      var entry := nInsns;
      lastRep := entry;
      assert EmitCopies(t, entry, 0, signedChar) == Emitted([], true);
      CodeSize();
      hide *;
      for i := 0 to k
        invariant Allocated() && Inits() == old(Inits())
        invariant EmitCopies(t, entry, i, signedChar).ok
        invariant code == old(code) + EmitCopies(t, entry, i, signedChar).code
        invariant i > 0 ==> lastRep == entry + |EmitCopies(t, entry, i - 1, signedChar).code|
      {
        CodeSize();
        CopiesTurn(old(code), t, entry, i, signedChar);
        lastRep, ok := CompileNode(t);
        if !ok {
          EmitCopiesFails(t, entry, i + 1, k, signedChar);
          return;
        }
      }
      ok := true;
    }

    /** The optional copies of a bounded repetition, after its k mandatory ones. */
    method CompileOptional(t: Node, entry: nat, k: nat, r: nat, ghost before: Program) returns (ok: bool)
      requires Allocated() && |before| == entry && EmitCopies(t, entry, k, signedChar).ok
      requires code == before + EmitCopies(t, entry, k, signedChar).code
      modifies this`pgm, this`nInsns, this`thrInit, this`code
      ensures Allocated() && Inits() == old(Inits())
      ensures ok == EmitOptional(t, entry, k, r, signedChar).ok
      ensures code == before + EmitOptional(t, entry, k, r, signedChar).code
      decreases t, 4
    {
      assert EmitOptional(t, entry, k, 0, signedChar) == EmitCopies(t, entry, k, signedChar);
      hide *;
      for i := 0 to r
        invariant Allocated() && Inits() == old(Inits())
        invariant EmitOptional(t, entry, k, i, signedChar).ok
        invariant code == before + EmitOptional(t, entry, k, i, signedChar).code
      {
        ok := CompileOption(t, entry, k, i, before);
        if !ok {
          EmitOptionalFails(t, entry, k, i + 1, r, signedChar);
          return;
        }
      }
      ok := true;
    }

    /** One optional copy behind i others: a fork past the copy and the copy. */
    method CompileOption(t: Node, ghost entry: nat, ghost k: nat, ghost i: nat, ghost before: Program)
      returns (ok: bool)
      requires Allocated() && |before| == entry && EmitOptional(t, entry, k, i, signedChar).ok
      requires code == before + EmitOptional(t, entry, k, i, signedChar).code
      modifies this`pgm, this`nInsns, this`thrInit, this`code
      ensures Allocated() && Inits() == old(Inits())
      ensures ok == EmitOptional(t, entry, k, i + 1, signedChar).ok
      ensures code == before + EmitOptional(t, entry, k, i + 1, signedChar).code
      decreases t, 3
    {
      hide *;
      CodeSize();
      OptionalTurn(before, t, entry, k, i, signedChar);
      var fork := AppendInsn(Fork(0));
      CodeSize();
      ghost var frag := Emit(t, nInsns, signedChar).code;
      var _, childOk := CompileNode(t);
      CodeSize();
      PatchMiddle(old(code), [], Fork(0), Fork(nInsns), frag);
      if !childOk {
        return false;
      }
      Patch(fork, Fork(nInsns));
      ok := true;
    }

    /** A fork past the copy, the copy, a jump back to the fork. */
    method CompileStar(t: Node) returns (ok: bool)
      requires Allocated()
      modifies this`pgm, this`nInsns, this`thrInit, this`code
      ensures Allocated() && Inits() == old(Inits())
      ensures ok == EmitStar(t, old(nInsns), signedChar).ok
      ensures code == old(code) + EmitStar(t, old(nInsns), signedChar).code
      decreases t, 3
    {
      hide Emit, Members;
      var fork := AppendInsn(Fork(0));
      ghost var frag := Emit(t, nInsns, signedChar).code;
      var _, childOk := CompileNode(t);
      assert code == old(code) + ([Fork(0)] + frag);
      if !childOk {
        return false;
      }
      var _ := AppendInsn(Jmp(fork));
      PatchFork(old(code), Fork(nInsns), frag, Jmp(fork));
      Patch(fork, Fork(nInsns));
      Concat(old(code), [Fork(nInsns)] + frag, [Jmp(fork)]);
      Concat([Fork(nInsns)], frag, [Jmp(fork)]);
      ok := true;
    }

    /**
     Inside an alternation: `pre` is the program up to the jump behind the previous child,
     which is still to be patched, and the children ts are still to come.
     */
    ghost predicate InAlternation(ts: seq<Node>, jmpPrev: int, pre: Program, goal: Emitted)
      reads this
    {
      && (jmpPrev == -1 || (jmpPrev == |pre| && ts != []))
      && code == pre + Pending(jmpPrev)
      && goal.code == pre + RestOfAlternation(ts, jmpPrev, nInsns, signedChar)
      && goal.ok == EmitAlternation(ts, nInsns, signedChar).ok
    }

    /** aem_nfa_node_gen_alternation; the caller ignores whether it failed. */
    method GenAlternation(t: Node) returns (ok: bool)
      requires t.AlternationNode? && Allocated()
      modifies this`pgm, this`nInsns, this`thrInit, this`code
      ensures Allocated() && Inits() == old(Inits())
      ensures ok == EmitAlternation(t.children, old(nInsns), signedChar).ok
      ensures code == old(code) + EmitAlternation(t.children, old(nInsns), signedChar).code
      decreases t, 1
    {
      var ts := t.children;
      var jmpPrev: int := -1;
      ghost var pre := code;
      ghost var e := EmitAlternation(ts, nInsns, signedChar);
      ghost var goal := Emitted(code + e.code, e.ok);
      assert ts[0..] == ts;
      for i := 0 to |ts|
        invariant Allocated() && Inits() == old(Inits())
        invariant InAlternation(ts[i..], jmpPrev, pre, goal)
      {
        ok, jmpPrev, pre := GenChild(t, i, jmpPrev, pre, goal);
        if !ok {
          return;
        }
      }
      ok := true;
    }

    /**
     After a child: patch the jump behind the previous child, if there is one, to land here;
     unless it was the last child, put the jump behind it and patch its fork to skip both.
     */
    method CloseChild(notLast: bool, fork: nat, jmpPrev: int, ghost pre: Program, ghost frag: Program)
      returns (jmp: int, ghost pre': Program)
      requires Allocated() && (jmpPrev == -1 || jmpPrev == |pre|)
      requires code == pre + Pending(jmpPrev) + if notLast then [Fork(0)] + frag else frag
      requires notLast ==> fork == |pre + Pending(jmpPrev)|
      modifies this`pgm, this`nInsns, this`thrInit, this`code
      ensures Allocated() && Inits() == old(Inits())
      ensures if notLast then jmp == old(nInsns) == |pre'| && nInsns == jmp + 1 else jmp == -1 && nInsns == old(nInsns)
      ensures pre' == pre + Filled(jmpPrev, old(nInsns)) + if notLast then [Fork(nInsns)] + frag else frag
      ensures code == pre' + Pending(jmp)
    {
      ghost var filled := pre + Filled(jmpPrev, nInsns);
      if jmpPrev != -1 {
        Patch(jmpPrev, Jmp(nInsns));
      }
      jmp, pre' := -1, filled + frag;
      if notLast {
        assert code == filled + ([Fork(0)] + frag);
        jmp := AppendInsn(Jmp(0));
        PatchFork(filled, Fork(nInsns), frag, Jmp(0));
        Patch(fork, Fork(nInsns));
        pre' := filled + ([Fork(nInsns)] + frag);
      }
    }

    /** One turn of the loop over the children of an alternation. */
    method GenChild(t: Node, i: nat, jmpPrev: int, ghost pre: Program, ghost goal: Emitted)
      returns (ok: bool, jmp: int, ghost pre': Program)
      requires t.AlternationNode? && i < |t.children| && Allocated()
      requires InAlternation(t.children[i..], jmpPrev, pre, goal)
      modifies this`pgm, this`nInsns, this`thrInit, this`code
      ensures Allocated() && Inits() == old(Inits())
      ensures ok ==> InAlternation(t.children[i + 1..], jmp, pre', goal)
      ensures !ok ==> !goal.ok && code == goal.code
      decreases t, 0
    {
      hide Members, Emit, EmitAlternation, JumpOver, RestOfAlternation, Filled;
      ghost var base, rest := nInsns, t.children[i..];
      var notLast := i < |t.children| - 1;
      jmp, pre' := -1, pre;
      var fork := 0;
      if notLast {
        fork := AppendInsn(Fork(0));
      }
      ghost var frag := Emit(t.children[i], nInsns, signedChar).code;
      var _, childOk := CompileNode(t.children[i]);
      if !childOk {
        AlternationFails(rest, jmpPrev, pre, base, signedChar);
        Concat(pre + Pending(jmpPrev), [Fork(0)], frag);
        return false, jmp, pre';
      }
      ok := true;
      AlternationTurn(rest, jmpPrev, pre, base, signedChar, goal.code);
      assert rest[1..] == t.children[i + 1..];
      Concat(pre + Pending(jmpPrev), [Fork(0)], frag);
      jmp, pre' := CloseChild(notLast, fork, jmpPrev, pre, frag);
    }

    // ----- adding a pattern -----

    /** The pattern ends up in the program. */
    ghost predicate Added(parsed: Parsed, flagsGarbage: bool)
      reads this
    {
      && !flagsGarbage && parsed.Tree? && parsed.rc >= 0 && !parsed.garbage
      && Emit(parsed.root, nInsns, signedChar).ok
    }

    /** Restore the counters; the instructions above them become unused allocation. */
    method Rollback(n: nat, captures: nat)
      requires Allocated() && n <= nInsns
      modifies this`nInsns, this`nCaptures, this`code
      ensures Allocated() && nInsns == n && nCaptures == captures && code == old(code)[..n]
    {
      nInsns := n;
      nCaptures := captures;
      code := pgm[..n];
    }

    /**
     aem_nfa_add, from the point where the pattern has been parsed.  Either the pattern is
     added whole or the program is as it was.
     */
    method Add(parsed: Parsed, m: int, flagsGarbage: bool) returns (r: int)
      requires Valid() && ParserContract(parsed)
      modifies this
      ensures Valid()
      ensures old(Added(parsed, flagsGarbage)) ==>
        && r == (if m >= 0 then m else old(nMatches))
        && code == AddCode(old(code), parsed.root, r, signedChar)
        && Inits() == old(Inits()) + {old(nInsns)}
        && nCaptures == Max(old(nCaptures), parsed.nCaptures)
        && nMatches == Max(old(nMatches), r + 1)
        && patterns == old(patterns) + [Pattern(parsed.root, r)]
      ensures !old(Added(parsed, flagsGarbage)) ==>
        && r == (if flagsGarbage || (parsed.Tree? && parsed.rc >= 0 && !parsed.garbage) then -1 else parsed.rc)
        && code == old(code) && Inits() == old(Inits()) && nCaptures == old(nCaptures)
        && nMatches == old(nMatches) && patterns == old(patterns)
    {
      hide Emit, Members, WellFormed, Serves, CapturesBelow;
      var id := if m >= 0 then m else nMatches;
      if flagsGarbage {
        return -1;
      }
      var n, captures := nInsns, nCaptures;
      if parsed.NoTree? || parsed.rc < 0 || parsed.garbage {
        Rollback(n, captures);
        return parsed.rc;
      }
      var _, ok := CompileNode(parsed.root);
      if !ok {
        Rollback(n, captures);
        return -1;
      }
      if parsed.nCaptures > nCaptures {
        nCaptures := parsed.nCaptures;
      }
      var _ := AppendInsn(Match(id));
      nMatches := Max(nMatches, id + 1);
      thrInit := Set(thrInit, n);
      patterns := patterns + [Pattern(parsed.root, id)];
      r := id;

      assert code == AddCode(old(code), parsed.root, id, signedChar);
      CapturesBelowMonotone(parsed.root, parsed.nCaptures, nCaptures);
      AddWellFormed(old(code), old(Inits()), old(nCaptures), parsed.root, id, signedChar, nCaptures);
      AddServes(old(code), old(Inits()), old(nCaptures), parsed.root, id, signedChar, old(patterns));
    }
  }
}
