/**
 The code that aem_nfa_node_compile leaves in the program for a tree compiled at address
 `base`, as a function.  It covers failing compilations too: the code emitted before the
 failure stays in the program, with the forks and jumps that were still to be patched
 pointing at address 0.
 */
module Codegen {
  import opened Bytes
  import opened NfaInsn
  import opened Ast
  import opened Utf8

  datatype Emitted = Emitted(code: seq<Insn>, ok: bool)

  /** aem_nfa_insn_range: bounds that do not fit a byte are clamped. */
  function RangeInsn(lo: U32, hi: U32): Insn {
    Range(if lo > 0xFF then 0xFF else lo, if hi > 0xFF then 0xFF else hi)
  }

  /**
   One byte of an atom read back through `const char *`.  Where plain char is signed, a
   byte above 0x7F becomes a negative int, hence a huge uint32_t, hence the clamp.
   */
  function CharInsn(b: Byte, signedChar: bool): Insn {
    var arg: U32 := if signedChar && b > 0x7F then b + 0xFFFF_FF00 else b;
    RangeInsn(arg, arg)
  }

  function AtomCode(bytes: seq<Byte>, signedChar: bool): (code: seq<Insn>)
    ensures |code| == |bytes|
    ensures forall k :: 0 <= k < |code| ==> code[k] == CharInsn(bytes[k], signedChar)
  {
    if bytes == [] then []
    else AtomCode(bytes[..|bytes| - 1], signedChar) + [CharInsn(bytes[|bytes| - 1], signedChar)]
  }

  function Emit(t: Node, base: nat, sc: bool): Emitted
    decreases t, 0
  {
    match t
    case RangeNode(min, max) => Emitted([RangeInsn(min, max)], true)
    case AtomNode(c) => Emitted(AtomCode(EncodeRune(c), sc), true)
    case ClassNode(neg, frontier, cc) => Emitted([Class(neg, frontier, cc)], true)
    case CaptureNode(n, child) =>
      var e := Emit(child, base + 1, sc);
      Emitted([Capture(false, n)] + (e.code + if e.ok then [Capture(true, n)] else []), e.ok)
    case RepeatNode(rmin, rmax, reluctant, child) =>
      if rmin > rmax then Emitted([], false)
      else
        var copies := EmitCopies(child, base, rmin, sc);
        if !copies.ok then copies
        else if rmin > 0 && copies.code == [] then Emitted([], true)
        else if reluctant then Emitted(copies.code, false)
        else if rmax != UINT_MAX then EmitOptional(child, base, rmin, rmax - rmin, sc)
        else if rmin > 0 then
          Emitted(copies.code + [Fork(base + |EmitCopies(child, base, rmin - 1, sc).code|)], true)
        else
          EmitStar(child, base, sc)
    case BranchNode(children) => EmitSeq(children, base, sc)
    case AlternationNode(children) => Emitted(EmitAlternation(children, base, sc).code, true)
  }

  /** k mandatory copies. */
  function EmitCopies(t: Node, base: nat, k: nat, sc: bool): Emitted
    decreases t, 1, k
  {
    if k == 0 then Emitted([], true)
    else
      var front := EmitCopies(t, base, k - 1, sc);
      if !front.ok then front
      else
        var e := Emit(t, base + |front.code|, sc);
        Emitted(front.code + e.code, e.ok)
  }

  /** k mandatory copies followed by r optional ones, each behind a fork that skips it. */
  function EmitOptional(t: Node, base: nat, k: nat, r: nat, sc: bool): Emitted
    decreases t, 2, r
  {
    if r == 0 then EmitCopies(t, base, k, sc)
    else
      var front := EmitOptional(t, base, k, r - 1, sc);
      if !front.ok then front
      else
        var here := base + |front.code|;
        var e := Emit(t, here + 1, sc);
        Emitted(front.code + ([Fork(if e.ok then here + 1 + |e.code| else 0)] + e.code), e.ok)
  }

  /** Any number of copies: fork past the end, the copy, jump back to the fork. */
  function EmitStar(t: Node, base: nat, sc: bool): Emitted
    decreases t, 1
  {
    var e := Emit(t, base + 1, sc);
    if e.ok then Emitted([Fork(base + 2 + |e.code|)] + (e.code + [Jmp(base)]), true)
    else Emitted([Fork(0)] + e.code, false)
  }

  function EmitSeq(ts: seq<Node>, base: nat, sc: bool): Emitted
    decreases ts, 0
  {
    if ts == [] then Emitted([], true)
    else
      var front := EmitSeq(ts[..|ts| - 1], base, sc);
      if !front.ok then front
      else
        var e := Emit(ts[|ts| - 1], base + |front.code|, sc);
        Emitted(front.code + e.code, e.ok)
  }

  /** Address of the first child of an alternation compiled at base: past its fork, if it has one. */
  function FirstChild(ts: seq<Node>, base: nat): nat {
    if |ts| > 1 then base + 1 else base
  }

  /**
   Where the jump in front of the rest of an alternation lands: just after the next child,
   that is on the next child's own jump, or at the end after the last child.
   */
  function JumpOver(ts: seq<Node>, base: nat, sc: bool): nat
    requires ts != []
    decreases ts, 0
  {
    var e := Emit(ts[0], FirstChild(ts, base), sc);
    if e.ok then FirstChild(ts, base) + |e.code| else 0
  }

  function EmitAlternation(ts: seq<Node>, base: nat, sc: bool): Emitted
    decreases ts, 1
  {
    if ts == [] then Emitted([], true)
    else if |ts| == 1 then Emit(ts[0], base, sc)
    else
      var e := Emit(ts[0], base + 1, sc);
      if !e.ok then Emitted([Fork(0)] + e.code, false)
      else
        var post := base + 2 + |e.code|;
        var rest := EmitAlternation(ts[1..], post, sc);
        Emitted([Fork(post)] + (e.code + ([Jmp(JumpOver(ts[1..], post, sc))] + rest.code)), rest.ok)
  }

  // ----- one step of the loops -----

  /** An optional copy at `here`, behind a fork past it. */
  function WithOption(front: seq<Insn>, here: nat, e: Emitted): Emitted {
    Emitted(front + ([Fork(if e.ok then here + 1 + |e.code| else 0)] + e.code), e.ok)
  }

  lemma EmitOptionalStep(t: Node, base: nat, k: nat, i: nat, sc: bool)
    requires EmitOptional(t, base, k, i, sc).ok
    ensures var front := EmitOptional(t, base, k, i, sc).code;
            var here := base + |front|;
            var e := Emit(t, here + 1, sc);
            EmitOptional(t, base, k, i + 1, sc) == WithOption(front, here, e)
  {
  }

  /** A loop at base: a fork, the code of its body and, unless that failed, a jump back. */
  function WithLoop(base: nat, e: Emitted): seq<Insn> {
    if e.ok then [Fork(base + 2 + |e.code|)] + (e.code + [Jmp(base)]) else [Fork(0)] + e.code
  }

  lemma EmitStarStep(t: Node, base: nat, sc: bool)
    ensures EmitStar(t, base, sc).code == WithLoop(base, Emit(t, base + 1, sc))
  {
    hide Emit;
  }

  lemma EmitCopiesStep(t: Node, base: nat, k: nat, sc: bool)
    requires k > 0 && EmitCopies(t, base, k - 1, sc).ok
    ensures var front := EmitCopies(t, base, k - 1, sc).code;
            var e := Emit(t, base + |front|, sc);
            EmitCopies(t, base, k, sc) == Emitted(front + e.code, e.ok)
  {
  }

  /** The code of a repetition that is not reluctant, from the code of its parts. */
  lemma EmitRepeatStep(t: Node, rmin: U32, rmax: U32, base: nat, sc: bool)
    ensures Emit(RepeatNode(rmin, rmax, false, t), base, sc) ==
      if rmin > rmax then Emitted([], false)
      else
        var copies := EmitCopies(t, base, rmin, sc);
        if !copies.ok then copies
        else if rmin > 0 && copies.code == [] then Emitted([], true)
        else if rmax != UINT_MAX then EmitOptional(t, base, rmin, rmax - rmin, sc)
        else if rmin > 0 then
          Emitted(copies.code + [Fork(base + |EmitCopies(t, base, rmin - 1, sc).code|)], true)
        else EmitStar(t, base, sc)
  {
    hide EmitCopies, EmitOptional, EmitStar;
  }

  lemma EmitSeqStep(front: seq<Node>, last: Node, base: nat, sc: bool)
    ensures var f := EmitSeq(front, base, sc);
            var e := Emit(last, base + |f.code|, sc);
            EmitSeq(front + [last], base, sc) == if f.ok then Emitted(f.code + e.code, e.ok) else f
  {
    hide Emit;
    assert (front + [last])[..|front|] == front && (front + [last])[|front|] == last;
  }

  /** An alternation with more to come: a fork over its first child, the child, a jump to the end. */
  function WithAlternative(base: nat, e: Emitted, target: nat, rest: Emitted): Emitted {
    Emitted([Fork(base + 2 + |e.code|)] + (e.code + ([Jmp(target)] + rest.code)), rest.ok)
  }

  lemma EmitAlternationStep(ts: seq<Node>, base: nat, sc: bool)
    requires |ts| > 1
    ensures var e := Emit(ts[0], base + 1, sc);
            var post := base + 2 + |e.code|;
            EmitAlternation(ts, base, sc) ==
              if e.ok then WithAlternative(base, e, JumpOver(ts[1..], post, sc), EmitAlternation(ts[1..], post, sc))
              else Emitted([Fork(0)] + e.code, false)
  {
  }
}
