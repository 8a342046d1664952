/** Where the parts of a compiled fragment lie in the program. */
module FragmentLayout {
  import opened NfaInsn
  import opened NfaSemantics
  import opened Ast
  import opened Codegen
  import opened CompileFailure

  ghost predicate CodeAt(p: Program, base: nat, code: seq<Insn>) {
    base + |code| <= |p| && forall k :: 0 <= k < |code| ==> p[base + k] == code[k]
  }

  lemma CodeAtSplit(p: Program, base: nat, c1: seq<Insn>, c2: seq<Insn>)
    requires CodeAt(p, base, c1 + c2)
    ensures CodeAt(p, base, c1) && CodeAt(p, base + |c1|, c2)
  {
    forall k | 0 <= k < |c1|
      ensures p[base + k] == c1[k]
    {
      assert c1[k] == (c1 + c2)[k];
    }
    forall k | 0 <= k < |c2|
      ensures p[base + |c1| + k] == c2[k]
    {
      assert c2[k] == (c1 + c2)[|c1| + k];
    }
  }

  lemma CodeAtHead(p: Program, base: nat, insn: Insn, rest: seq<Insn>)
    requires CodeAt(p, base, [insn] + rest)
    ensures base < |p| && p[base] == insn && CodeAt(p, base + 1, rest)
  {
    CodeAtSplit(p, base, [insn], rest);
    assert p[base + 0] == [insn][0];
  }

  // ----- supported trees compile -----

  lemma EmitOk(t: Node, base: nat, sc: bool)
    requires Supported(t, sc)
    ensures Emit(t, base, sc).ok
  {
    SupportedIsSafe(t, sc);
    EmitStatus(t, base, sc);
  }

  lemma EmitOptionalOk(t: Node, base: nat, k: nat, r: nat, sc: bool)
    requires Supported(t, sc)
    ensures EmitCopies(t, base, k, sc).ok && EmitOptional(t, base, k, r, sc).ok
  {
    SupportedIsSafe(t, sc);
    EmitCopiesStatus(t, base, k, sc);
    EmitOptionalStatus(t, base, k, r, sc);
  }

  lemma EmitSeqOk(ts: seq<Node>, base: nat, sc: bool)
    requires forall k :: 0 <= k < |ts| ==> Supported(ts[k], sc)
    ensures EmitSeq(ts, base, sc).ok
  {
    forall k | 0 <= k < |ts| { SupportedIsSafe(ts[k], sc); }
    EmitSeqStatus(ts, base, sc);
  }

  // ----- layout of the compound fragments -----

  lemma OptionalLayout(t: Node, sc: bool, p: Program, base: nat, k: nat, r: nat)
    requires Supported(t, sc) && r > 0 && CodeAt(p, base, EmitOptional(t, base, k, r, sc).code)
    ensures var c1 := EmitOptional(t, base, k, r - 1, sc).code; var fork := base + |c1|;
            var c2 := Emit(t, fork + 1, sc).code; var end := fork + 1 + |c2|;
            && CodeAt(p, base, c1) && fork < |p| && p[fork] == Fork(end) && CodeAt(p, fork + 1, c2)
            && base + |EmitOptional(t, base, k, r, sc).code| == end
  {
    EmitOptionalOk(t, base, k, r - 1, sc);
    var c1 := EmitOptional(t, base, k, r - 1, sc).code;
    var fork := base + |c1|;
    EmitOk(t, fork + 1, sc);
    var c2 := Emit(t, fork + 1, sc).code;
    CodeAtSplit(p, base, c1, [Fork(fork + 1 + |c2|)] + c2);
    CodeAtHead(p, fork, Fork(fork + 1 + |c2|), c2);
  }

  lemma CopiesLayout(t: Node, sc: bool, p: Program, base: nat, k: nat)
    requires Supported(t, sc) && k > 0 && CodeAt(p, base, EmitCopies(t, base, k, sc).code)
    ensures var c1 := EmitCopies(t, base, k - 1, sc).code; var c2 := Emit(t, base + |c1|, sc).code;
            && CodeAt(p, base, c1) && CodeAt(p, base + |c1|, c2)
            && |EmitCopies(t, base, k, sc).code| == |c1| + |c2|
  {
    EmitOptionalOk(t, base, k - 1, 0, sc);
    var c1 := EmitCopies(t, base, k - 1, sc).code;
    CodeAtSplit(p, base, c1, Emit(t, base + |c1|, sc).code);
  }

  ghost predicate StarAt(t: Node, sc: bool, p: Program, base: nat) {
    var e := Emit(t, base + 1, sc).code;
    && base + 1 + |e| < |p| && p[base] == Fork(base + 2 + |e|)
    && p[base + 1 + |e|] == Jmp(base) && CodeAt(p, base + 1, e)
  }

  lemma StarLayout(t: Node, sc: bool, p: Program, base: nat)
    requires Supported(t, sc) && CodeAt(p, base, EmitStar(t, base, sc).code)
    ensures StarAt(t, sc, p, base)
    ensures |EmitStar(t, base, sc).code| == |Emit(t, base + 1, sc).code| + 2
  {
    EmitOk(t, base + 1, sc);
    var e := Emit(t, base + 1, sc).code;
    var fork := Fork(base + 2 + |e|);
    CodeAtHead(p, base, fork, e + [Jmp(base)]);
    CodeAtSplit(p, base + 1, e, [Jmp(base)]);
    CodeAtHead(p, base + 1 + |e|, Jmp(base), []);
  }

  lemma AlternationLayout(ts: seq<Node>, sc: bool, p: Program, base: nat)
    requires |ts| > 1 && Supported(ts[0], sc) && CodeAt(p, base, EmitAlternation(ts, base, sc).code)
    ensures var e := Emit(ts[0], base + 1, sc).code; var post := base + 2 + |e|;
            && JumpOver(ts, base, sc) == post - 1
            && post <= |p| && p[base] == Fork(post) && CodeAt(p, base + 1, e)
            && p[post - 1] == Jmp(JumpOver(ts[1..], post, sc))
            && CodeAt(p, post, EmitAlternation(ts[1..], post, sc).code)
            && base + |EmitAlternation(ts, base, sc).code| == post + |EmitAlternation(ts[1..], post, sc).code|
  {
    EmitOk(ts[0], base + 1, sc);
    var e := Emit(ts[0], base + 1, sc).code;
    var post := base + 2 + |e|;
    var jmp := Jmp(JumpOver(ts[1..], post, sc));
    var rest := EmitAlternation(ts[1..], post, sc).code;
    CodeAtHead(p, base, Fork(post), e + ([jmp] + rest));
    CodeAtSplit(p, base + 1, e, [jmp] + rest);
    CodeAtHead(p, base + 1 + |e|, jmp, rest);
  }

  lemma CaptureLayout(n: nat, t: Node, sc: bool, p: Program, base: nat)
    requires Supported(t, sc) && CodeAt(p, base, Emit(CaptureNode(n, t), base, sc).code)
    ensures var e := Emit(t, base + 1, sc).code;
            && base + 1 + |e| < |p| && p[base] == Capture(false, n) && CodeAt(p, base + 1, e)
            && p[base + 1 + |e|] == Capture(true, n)
            && |Emit(CaptureNode(n, t), base, sc).code| == |e| + 2
  {
    EmitOk(t, base + 1, sc);
    var e := Emit(t, base + 1, sc).code;
    CodeAtHead(p, base, Capture(false, n), e + [Capture(true, n)]);
    CodeAtSplit(p, base + 1, e, [Capture(true, n)]);
    CodeAtHead(p, base + 1 + |e|, Capture(true, n), []);
  }

  lemma EmptyCopy(t: Node, base: nat, k: nat, sc: bool)
    requires Supported(t, sc) && k > 0 && EmitCopies(t, base, k, sc).code == []
    ensures Emit(t, base, sc).code == [] && EmitCopies(t, base, k - 1, sc).code == []
  {
    EmitOptionalOk(t, base, k - 1, 0, sc);
  }
}
