/**
 Whole programs: well-formedness, what a program accepts, and what appending the code of one
 more pattern does to both.
 */
module NfaProgram {
  import opened Bytes
  import opened NfaInsn
  import opened NfaSemantics
  import opened Ast
  import opened Codegen
  import opened FragmentLayout
  import opened CompileFailure
  import opened CompiledTree
  import CompileComplete
  import CompileSound

  datatype Pattern = Pattern(tree: Node, id: nat)

  /** An instruction that sits below address `top` of a program with nc captures. */
  predicate InsnOk(insn: Insn, top: nat, nc: nat) {
    match insn
    case Jmp(t) => t < top
    case Fork(t) => t < top
    case Capture(_, n) => n < nc
    case _ => true
  }

  /** Control falls through to the next instruction. */
  predicate FallsThrough(insn: Insn) {
    !insn.Match? && !insn.Jmp?
  }

  /** Targets and captures in range, and control never runs off the end. */
  ghost predicate WellFormed(p: Program, inits: set<nat>, nc: nat) {
    && (forall k :: 0 <= k < |p| ==> InsnOk(p[k], |p|, nc) && (FallsThrough(p[k]) ==> k + 1 < |p|))
    && (forall i :: i in inits ==> i < |p|)
  }

  lemma InsnInRange(p: Program, inits: set<nat>, nc: nat, pc: nat)
    requires WellFormed(p, inits, nc) && pc < |p|
    ensures InsnOk(p[pc], |p|, nc) && (FallsThrough(p[pc]) ==> pc + 1 < |p|)
  {
  }

  lemma WellFormedParts(p: Program, inits: set<nat>, nc: nat)
    requires WellFormed(p, inits, nc)
    ensures WellFormed(p, {}, nc) && forall i :: i in inits ==> i < |p|
  {
  }

  ghost predicate AcceptsFrom(p: Program, i: nat, s: seq<Byte>, b: Config) {
    Reaches(p, s, Config(i, 0, []), b) && b.pc < |p| && p[b.pc].Match?
  }

  /** A thread started at some initial pc reaches a MATCH of `id` at position pos with events ev. */
  ghost predicate Accepts(p: Program, inits: set<nat>, s: seq<Byte>, pos: nat, id: nat, ev: seq<Event>) {
    exists i, b :: i in inits && AcceptsFrom(p, i, s, b) && b.pos == pos && b.ev == ev && p[b.pc] == Match(id)
  }

  // ----- emitted code is well-formed, also for trees the compiler fails on -----

  /** Fragment code: every target lies at or below its end, captures are below nc, no MATCH. */
  predicate CodeOk(code: seq<Insn>, top: nat, nc: nat) {
    forall k :: 0 <= k < |code| ==> InsnOk(code[k], top + 1, nc) && !code[k].Match?
  }

  lemma ForkOk(target: nat, top: nat, nc: nat)
    requires target <= top
    ensures CodeOk([Fork(target)], top, nc)
  {
  }

  lemma CodeOkConcat(c1: seq<Insn>, t1: nat, c2: seq<Insn>, t2: nat, nc: nat)
    requires CodeOk(c1, t1, nc) && CodeOk(c2, t2, nc) && t1 <= t2
    ensures CodeOk(c1 + c2, t2, nc)
  {
  }

  lemma EmitCopiesGrow(t: Node, base: nat, k: nat, sc: bool)
    ensures k > 0 ==> |EmitCopies(t, base, k - 1, sc).code| <= |EmitCopies(t, base, k, sc).code|
  {
  }

  lemma {:induction false} EmitCodeOk(t: Node, base: nat, sc: bool, nc: nat)
    requires CapturesBelow(t, nc)
    ensures CodeOk(Emit(t, base, sc).code, base + |Emit(t, base, sc).code|, nc)
    decreases t, 0
  {
    match t
    case RangeNode(_, _) =>
    case AtomNode(c) =>
    case ClassNode(_, _, _) =>
    case CaptureNode(n, child) =>
      EmitCodeOk(child, base + 1, sc, nc);
    case RepeatNode(_, _, _, _) => EmitRepeatCodeOk(t, base, sc, nc);
    case BranchNode(children) => EmitSeqCodeOk(children, base, sc, nc);
    case AlternationNode(children) => EmitAlternationCodeOk(children, base, sc, nc);
  }

  lemma {:induction false} EmitRepeatCodeOk(t: Node, base: nat, sc: bool, nc: nat)
    requires t.RepeatNode? && CapturesBelow(t, nc)
    ensures CodeOk(Emit(t, base, sc).code, base + |Emit(t, base, sc).code|, nc)
    decreases t, 0, 0
  {
    hide EmitCopies, EmitOptional;
    var RepeatNode(rmin, rmax, reluctant, child) := t;
    EmitCopiesCodeOk(child, base, rmin, sc, nc);
    if rmin <= rmax { EmitOptionalCodeOk(child, base, rmin, rmax - rmin, sc, nc); }
    EmitCodeOk(child, base + 1, sc, nc);
    EmitCopiesGrow(child, base, rmin, sc);
  }

  lemma {:induction false} EmitCopiesCodeOk(t: Node, base: nat, k: nat, sc: bool, nc: nat)
    requires CapturesBelow(t, nc)
    ensures CodeOk(EmitCopies(t, base, k, sc).code, base + |EmitCopies(t, base, k, sc).code|, nc)
    decreases t, 1, k
  {
    if k > 0 {
      EmitCopiesCodeOk(t, base, k - 1, sc, nc);
      var here := base + |EmitCopies(t, base, k - 1, sc).code|;
      EmitCodeOk(t, here, sc, nc);
      CodeOkConcat(EmitCopies(t, base, k - 1, sc).code, here,
                   Emit(t, here, sc).code, here + |Emit(t, here, sc).code|, nc);
    }
  }

  lemma {:induction false} EmitOptionalCodeOk(t: Node, base: nat, k: nat, r: nat, sc: bool, nc: nat)
    requires CapturesBelow(t, nc)
    ensures CodeOk(EmitOptional(t, base, k, r, sc).code, base + |EmitOptional(t, base, k, r, sc).code|, nc)
    decreases t, 2, r
  {
    hide Emit, EmitCopies;
    if r == 0 {
      EmitCopiesCodeOk(t, base, k, sc, nc);
    } else {
      EmitOptionalCodeOk(t, base, k, r - 1, sc, nc);
      var here := base + |EmitOptional(t, base, k, r - 1, sc).code|;
      EmitCodeOk(t, here + 1, sc, nc);
      var e := Emit(t, here + 1, sc);
      var end := here + 1 + |e.code|;
      var fork := Fork(if e.ok then end else 0);
      ForkOk(if e.ok then end else 0, end, nc);
      hide CodeOk;
      CodeOkConcat([fork], end, e.code, end, nc);
      CodeOkConcat(EmitOptional(t, base, k, r - 1, sc).code, here, [fork] + e.code, end, nc);
    }
  }

  lemma {:induction false} EmitSeqCodeOk(ts: seq<Node>, base: nat, sc: bool, nc: nat)
    requires forall k :: 0 <= k < |ts| ==> CapturesBelow(ts[k], nc)
    ensures CodeOk(EmitSeq(ts, base, sc).code, base + |EmitSeq(ts, base, sc).code|, nc)
    decreases ts, 0
  {
    if ts != [] {
      EmitSeqCodeOk(ts[..|ts| - 1], base, sc, nc);
      var here := base + |EmitSeq(ts[..|ts| - 1], base, sc).code|;
      var e := Emit(ts[|ts| - 1], here, sc).code;
      EmitCodeOk(ts[|ts| - 1], here, sc, nc);
      CodeOkConcat(EmitSeq(ts[..|ts| - 1], base, sc).code, here, e, here + |e|, nc);
    }
  }

  lemma {:induction false} EmitAlternationCodeOk(ts: seq<Node>, base: nat, sc: bool, nc: nat)
    requires forall k :: 0 <= k < |ts| ==> CapturesBelow(ts[k], nc)
    ensures CodeOk(EmitAlternation(ts, base, sc).code, base + |EmitAlternation(ts, base, sc).code|, nc)
    ensures ts != [] ==> JumpOver(ts, base, sc) <= base + |EmitAlternation(ts, base, sc).code|
    decreases ts, 1
  {
    hide Emit;
    if ts == [] {
    } else if |ts| == 1 {
      EmitCodeOk(ts[0], base, sc, nc);
    } else {
      var e := Emit(ts[0], base + 1, sc);
      var post := base + 2 + |e.code|;
      EmitCodeOk(ts[0], base + 1, sc, nc);
      EmitAlternationCodeOk(ts[1..], post, sc, nc);
      var rest := EmitAlternation(ts[1..], post, sc).code;
      var end := post + |rest|;
      if e.ok {
        CodeOkConcat([Jmp(JumpOver(ts[1..], post, sc))], end, rest, end, nc);
        CodeOkConcat(e.code, base + 1 + |e.code|, [Jmp(JumpOver(ts[1..], post, sc))] + rest, end, nc);
        CodeOkConcat([Fork(post)], end, e.code + ([Jmp(JumpOver(ts[1..], post, sc))] + rest), end, nc);
      }
    }
  }

  /** Every tree has a bound on its captures. */
  lemma {:induction false} SomeBound(t: Node) returns (nc: nat)
    ensures CapturesBelow(t, nc)
    decreases t, 0
  {
    match t
    case CaptureNode(n, child) =>
      nc := SomeBound(child);
      CapturesBelowMonotone(child, nc, nc + n + 1);
      nc := nc + n + 1;
    case RepeatNode(_, _, _, child) => nc := SomeBound(child);
    case BranchNode(children) => nc := SomeBoundOf(children);
    case AlternationNode(children) => nc := SomeBoundOf(children);
    case _ => nc := 0;
  }

  /** Emitted code holds no MATCH, whatever the captures of the tree. */
  lemma EmitNoMatch(t: Node, base: nat, sc: bool)
    ensures forall k :: 0 <= k < |Emit(t, base, sc).code| ==> !Emit(t, base, sc).code[k].Match?
  {
    var nc := SomeBound(t);
    EmitCodeOk(t, base, sc, nc);
  }

  lemma {:induction false} SomeBoundOf(ts: seq<Node>) returns (nc: nat)
    ensures forall k :: 0 <= k < |ts| ==> CapturesBelow(ts[k], nc)
    decreases ts, 0
  {
    nc := 0;
    if ts != [] {
      var a := SomeBoundOf(ts[..|ts| - 1]);
      var b := SomeBound(ts[|ts| - 1]);
      nc := a + b;
      CapturesBelowMonotone(ts[|ts| - 1], b, nc);
      forall k | 0 <= k < |ts| - 1
        ensures CapturesBelow(ts[k], nc)
      {
        assert ts[k] == ts[..|ts| - 1][k];
        CapturesBelowMonotone(ts[k], a, nc);
      }
    }
  }

  // ----- appending a pattern -----

  /** The program after one more pattern: its fragment and the MATCH that ends it. */
  function AddCode(p: Program, t: Node, id: nat, sc: bool): Program {
    p + Emit(t, |p|, sc).code + [Match(id)]
  }

  lemma AddWellFormed(p: Program, inits: set<nat>, nc: nat, t: Node, id: nat, sc: bool, nc': nat)
    requires WellFormed(p, inits, nc) && CapturesBelow(t, nc') && nc <= nc'
    ensures WellFormed(AddCode(p, t, id, sc), inits + {|p|}, nc')
  {
    EmitCodeOk(t, |p|, sc, nc');
    var code := Emit(t, |p|, sc).code;
    var q := AddCode(p, t, id, sc);
    assert |q| == |p| + |code| + 1;
    forall k | 0 <= k < |q|
      ensures InsnOk(q[k], |q|, nc') && (FallsThrough(q[k]) ==> k + 1 < |q|)
    {
      if k < |p| { assert q[k] == p[k]; }
      else if k < |p| + |code| { assert q[k] == code[k - |p|]; }
    }
  }

  /** Old code never leaves itself: longer programs run it in the same way. */
  lemma {:induction false} StepsExtend(p: Program, q: Program, nc: nat, s: seq<Byte>, a: Config, b: Config, n: nat)
    requires WellFormed(p, {}, nc) && |p| <= |q| && q[..|p|] == p && a.pc < |p|
    ensures Steps(p, s, a, b, n) <==> Steps(q, s, a, b, n)
    ensures Steps(p, s, a, b, n) ==> b.pc < |p|
    decreases n
  {
    assert q[a.pc] == p[a.pc];
    if n > 0 {
      assert forall m :: Step(p, s, a, m) <==> Step(q, s, a, m);
      forall m | Step(p, s, a, m)
        ensures Steps(p, s, m, b, n - 1) <==> Steps(q, s, m, b, n - 1)
        ensures Steps(p, s, m, b, n - 1) ==> b.pc < |p|
      {
        assert InsnOk(p[a.pc], |p|, nc);
        StepsExtend(p, q, nc, s, m, b, n - 1);
      }
    }
  }

  lemma {:induction false} AcceptsExtend(p: Program, q: Program, nc: nat, s: seq<Byte>, i: nat, b: Config)
    requires WellFormed(p, {}, nc) && |p| <= |q| && q[..|p|] == p && i < |p|
    ensures AcceptsFrom(p, i, s, b) <==> AcceptsFrom(q, i, s, b)
    ensures AcceptsFrom(p, i, s, b) ==> p[b.pc] == q[b.pc]
  {
    var a := Config(i, 0, []);
    if Reaches(p, s, a, b) {
      var n: nat :| Steps(p, s, a, b, n);
      StepsExtend(p, q, nc, s, a, b, n);
      assert q[b.pc] == p[b.pc];
    }
    if Reaches(q, s, a, b) {
      var n: nat :| Steps(q, s, a, b, n);
      StepsExtend(p, q, nc, s, a, b, n);
      assert q[b.pc] == p[b.pc];
    }
  }

  /**
   Compiler correctness for one pattern: from its entry the program reaches a MATCH exactly
   along the matches of the tree.
   */
  lemma {:induction false} FragmentCorrect(
      t: Node, sc: bool, q: Program, base: nat, id: nat, s: seq<Byte>, a: Config, b: Config)
    requires Supported(t, sc) && CodeAt(q, base, Emit(t, base, sc).code + [Match(id)]) && a.pc == base
    ensures Reaches(q, s, a, b) && b.pc < |q| && q[b.pc].Match? <==>
      b.pc == base + |Emit(t, base, sc).code|
      && exists ev :: b.ev == a.ev + ev && Matches(t, s, a.pos, b.pos, ev)
    ensures base + |Emit(t, base, sc).code| < |q| && q[base + |Emit(t, base, sc).code|] == Match(id)
  {
    var code := Emit(t, base, sc).code;
    CodeAtSplit(q, base, code, [Match(id)]);
    CodeAtHead(q, base + |code|, Match(id), []);
    if Reaches(q, s, a, b) && b.pc < |q| && q[b.pc].Match? {
      var n: nat :| Steps(q, s, a, b, n);
      var m, ev, k := CompileSound.Sound(t, sc, q, base, s, a, b, n);
      assert k == 0;
    }
    if b.pc == base + |code| && exists ev :: b.ev == a.ev + ev && Matches(t, s, a.pos, b.pos, ev) {
      var ev :| b.ev == a.ev + ev && Matches(t, s, a.pos, b.pos, ev);
      CompileComplete.Complete(t, sc, q, base, s, a, b.pos, ev);
    }
  }

  // ----- patterns that are not supported -----

  /** What the code of t accepts as a program of its own. */
  ghost predicate OwnAccepts(t: Node, sc: bool, s: seq<Byte>, pos: nat, ev: seq<Event>) {
    Accepts(AddCode([], t, 0, sc), {0}, s, pos, 0, ev)
  }

  /** p is a program that ends with its only MATCH, and q holds the same code at base. */
  ghost predicate MovedInto(p: Program, q: Program, base: nat) {
    && p != [] && base + |p| <= |q|
    && (forall k: nat :: k + 1 < |p| ==>
          && !p[k].Match? && q[base + k] == MoveInsn(p[k], base)
          && (HasTarget(p[k]) ==> p[k].target < |p|))
    && p[|p| - 1].Match? && q[base + |p| - 1].Match?
  }

  function Up(c: Config, base: nat): Config {
    c.(pc := c.pc + base)
  }

  lemma MovedInsn(p: Program, q: Program, base: nat, k: nat)
    requires MovedInto(p, q, base) && k < |p|
    ensures if k == |p| - 1 then p[k].Match? && q[base + k].Match?
            else !p[k].Match? && q[base + k] == MoveInsn(p[k], base) && (HasTarget(p[k]) ==> p[k].target < |p|)
  {
    assert base + |p| - 1 == base + (|p| - 1);
  }

  /** The moved code does what the code did. */
  lemma MovedStep(p: Program, q: Program, base: nat, s: seq<Byte>, a: Config, b: Config)
    requires MovedInto(p, q, base) && a.pc < |p|
    ensures Step(p, s, a, b) <==> Step(q, s, Up(a, base), Up(b, base))
    ensures Step(p, s, a, b) ==> b.pc < |p|
  {
    MovedInsn(p, q, base, a.pc);
    hide MovedInto;
  }

  lemma MovedStepBack(p: Program, q: Program, base: nat, s: seq<Byte>, a: Config, b: Config)
    requires MovedInto(p, q, base) && a.pc < |p| && Step(q, s, Up(a, base), b)
    ensures b.pc >= base
  {
    MovedInsn(p, q, base, a.pc);
    hide MovedInto;
  }

  lemma {:induction false} MovedSteps(
      p: Program, q: Program, base: nat, s: seq<Byte>, a: Config, b: Config, n: nat)
    requires MovedInto(p, q, base) && a.pc < |p| && Steps(p, s, a, b, n)
    ensures b.pc < |p| && Steps(q, s, Up(a, base), Up(b, base), n)
    decreases n
  {
    hide MovedInto, Step;
    if n > 0 {
      var m :| Step(p, s, a, m) && Steps(p, s, m, b, n - 1);
      MovedStep(p, q, base, s, a, m);
      MovedSteps(p, q, base, s, m, b, n - 1);
    }
  }

  lemma {:induction false} MovedStepsBack(
      p: Program, q: Program, base: nat, s: seq<Byte>, a: Config, b: Config, n: nat)
    requires MovedInto(p, q, base) && a.pc < |p| && Steps(q, s, Up(a, base), b, n)
    ensures base <= b.pc < base + |p| && Steps(p, s, a, b.(pc := b.pc - base), n)
    decreases n
  {
    hide MovedInto, Step;
    if n > 0 {
      var m :| Step(q, s, Up(a, base), m) && Steps(q, s, m, b, n - 1);
      MovedStepBack(p, q, base, s, a, m);
      var m' := m.(pc := m.pc - base);
      assert Up(m', base) == m;
      MovedStep(p, q, base, s, a, m');
      MovedStepsBack(p, q, base, s, m', b, n - 1);
    }
  }

  lemma CodeMoves(p: Program, code: seq<Insn>, id: nat)
    requires Confined(code, 0, |code|, false) && forall k :: 0 <= k < |code| ==> !code[k].Match?
    ensures MovedInto(code + [Match(0)], p + MoveCode(code, |p|) + [Match(id)], |p|)
  {
    var own, moved := code + [Match(0)], MoveCode(code, |p|);
    var q := p + moved + [Match(id)];
    forall k: nat | k + 1 < |own|
      ensures !own[k].Match? && q[|p| + k] == MoveInsn(own[k], |p|)
      ensures HasTarget(own[k]) ==> own[k].target < |own|
    {
      assert own[k] == code[k] && q[|p| + k] == moved[k];
    }
  }

  /** The code of a pattern is the code it would have alone, moved to the end of the program. */
  lemma AddMoves(p: Program, t: Node, id: nat, sc: bool)
    requires !Dangling(t)
    ensures MovedInto(AddCode([], t, 0, sc), AddCode(p, t, id, sc), |p|)
    ensures |AddCode(p, t, id, sc)| == |p| + |AddCode([], t, 0, sc)|
  {
    var own, q, code := AddCode([], t, 0, sc), AddCode(p, t, id, sc), Emit(t, 0, sc).code;
    hide Emit, Dangling;
    EmitMoves(t, 0, |p|, sc);
    EmitConfined(t, 0, sc);
    EmitNoMatch(t, 0, sc);
    assert own == code + [Match(0)] && q == p + MoveCode(code, |p|) + [Match(id)];
    hide AddCode;
    CodeMoves(p, code, id);
  }

  /** From its entry, the added pattern accepts what its own code accepts. */
  lemma AddedFrom(p: Program, t: Node, id: nat, sc: bool, s: seq<Byte>, b: Config)
    requires !Dangling(t)
    ensures var q := AddCode(p, t, id, sc);
      AcceptsFrom(q, |p|, s, b) <==>
        |p| <= b.pc && AcceptsFrom(AddCode([], t, 0, sc), 0, s, b.(pc := b.pc - |p|))
    ensures var q := AddCode(p, t, id, sc); AcceptsFrom(q, |p|, s, b) ==> q[b.pc] == Match(id)
  {
    var own, q, base := AddCode([], t, 0, sc), AddCode(p, t, id, sc), |p|;
    AddMoves(p, t, id, sc);
    var a := Config(0, 0, []);
    if AcceptsFrom(q, base, s, b) {
      var n: nat :| Steps(q, s, Up(a, base), b, n);
      MovedStepsBack(own, q, base, s, a, b, n);
      MovedInsn(own, q, base, b.pc - base);
      assert base + (b.pc - base) == b.pc;
    }
    if base <= b.pc && AcceptsFrom(own, 0, s, b.(pc := b.pc - base)) {
      var b' := b.(pc := b.pc - base);
      var n: nat :| Steps(own, s, a, b', n);
      MovedSteps(own, q, base, s, a, b', n);
      assert Up(b', base) == b;
      MovedInsn(own, q, base, b'.pc);
    }
  }

  lemma AddPrefix(p: Program, t: Node, id: nat, sc: bool)
    ensures |p| <= |AddCode(p, t, id, sc)| && AddCode(p, t, id, sc)[..|p|] == p
  {
  }

  /** Whatever is added, nothing that was accepted is lost. */
  lemma AddKeeps(p: Program, inits: set<nat>, nc: nat, t: Node, id: nat, sc: bool,
                 s: seq<Byte>, pos: nat, id': nat, ev: seq<Event>)
    requires WellFormed(p, inits, nc) && Accepts(p, inits, s, pos, id', ev)
    ensures Accepts(AddCode(p, t, id, sc), inits + {|p|}, s, pos, id', ev)
  {
    var q := AddCode(p, t, id, sc);
    AddPrefix(p, t, id, sc);
    WellFormedParts(p, inits, nc);
    hide Reaches, WellFormed, AddCode;
    var i, b :| i in inits && AcceptsFrom(p, i, s, b) && b.pos == pos && b.ev == ev && p[b.pc] == Match(id');
    AcceptsExtend(p, q, nc, s, i, b);
    assert i in inits + {|p|};
  }

  /**
   Patterns do not interfere, supported or not, as long as their code is not dangling: appending a
   pattern adds exactly what its code accepts alone to what the program accepts.
   */
  lemma AddAcceptsOwn(p: Program, inits: set<nat>, nc: nat, t: Node, id: nat, sc: bool,
                      s: seq<Byte>, pos: nat, id': nat, ev: seq<Event>)
    requires WellFormed(p, inits, nc) && !Dangling(t)
    ensures Accepts(AddCode(p, t, id, sc), inits + {|p|}, s, pos, id', ev) <==>
      Accepts(p, inits, s, pos, id', ev) || (id' == id && OwnAccepts(t, sc, s, pos, ev))
  {
    var own, q := AddCode([], t, 0, sc), AddCode(p, t, id, sc);
    hide Emit, Reaches, WellFormed, AddCode, Dangling;
    AddPrefix(p, t, id, sc);
    WellFormedParts(p, inits, nc);
    if Accepts(q, inits + {|p|}, s, pos, id', ev) {
      var i, b :| i in inits + {|p|} && AcceptsFrom(q, i, s, b) && b.pos == pos && b.ev == ev && q[b.pc] == Match(id');
      if i == |p| {
        AddedFrom(p, t, id, sc, s, b);
        var b' := b.(pc := b.pc - |p|);
        AddedFrom([], t, 0, sc, s, b');
        assert 0 in {0} && AcceptsFrom(own, 0, s, b') && own[b'.pc] == Match(0);
      } else {
        AcceptsExtend(p, q, nc, s, i, b);
      }
    }
    if Accepts(p, inits, s, pos, id', ev) {
      AddKeeps(p, inits, nc, t, id, sc, s, pos, id', ev);
    }
    if id' == id && OwnAccepts(t, sc, s, pos, ev) {
      var i, b' :| i in {0} && AcceptsFrom(own, i, s, b') && b'.pos == pos && b'.ev == ev && own[b'.pc] == Match(0);
      var b := b'.(pc := b'.pc + |p|);
      assert b.(pc := b.pc - |p|) == b';
      AddedFrom(p, t, id, sc, s, b);
      assert AcceptsFrom(q, |p|, s, b) && q[b.pc] == Match(id);
    }
  }

  lemma AddCodeAt(p: Program, t: Node, id: nat, sc: bool)
    ensures CodeAt(AddCode(p, t, id, sc), |p|, Emit(t, |p|, sc).code + [Match(id)])
  {
    var code := Emit(t, |p|, sc).code + [Match(id)];
    assert AddCode(p, t, id, sc) == p + code;
  }

  /** Appending a supported pattern adds exactly that pattern's matches to what the program accepts. */
  lemma AddSupported(p: Program, inits: set<nat>, nc: nat, t: Node, id: nat, sc: bool,
                   s: seq<Byte>, pos: nat, id': nat, ev: seq<Event>)
    requires WellFormed(p, inits, nc) && Supported(t, sc)
    ensures Accepts(AddCode(p, t, id, sc), inits + {|p|}, s, pos, id', ev) <==>
      Accepts(p, inits, s, pos, id', ev) || (id' == id && Matches(t, s, 0, pos, ev))
  {
    hide Emit, Matches, Reaches, WellFormed;
    var q := AddCode(p, t, id, sc);
    var code := Emit(t, |p|, sc).code;
    assert q[..|p|] == p;
    WellFormedParts(p, inits, nc);
    AddCodeAt(p, t, id, sc);
    var end := Config(|p| + |code|, pos, ev);
    FragmentCorrect(t, sc, q, |p|, id, s, Config(|p|, 0, []), end);
    if Accepts(q, inits + {|p|}, s, pos, id', ev) {
      var i, b :| i in inits + {|p|} && AcceptsFrom(q, i, s, b) && b.pos == pos && b.ev == ev && q[b.pc] == Match(id');
      if i == |p| {
        FragmentCorrect(t, sc, q, |p|, id, s, Config(|p|, 0, []), b);
        var ev' :| b.ev == [] + ev' && Matches(t, s, 0, b.pos, ev');
        assert ev' == ev;
      } else {
        AcceptsExtend(p, q, nc, s, i, b);
      }
    }
    if Accepts(p, inits, s, pos, id', ev) {
      var i, b :| i in inits && AcceptsFrom(p, i, s, b) && b.pos == pos && b.ev == ev && p[b.pc] == Match(id');
      AcceptsExtend(p, q, nc, s, i, b);
      assert i in inits + {|p|};
    }
    if id' == id && Matches(t, s, 0, pos, ev) {
      assert [] + ev == ev;
      assert AcceptsFrom(q, |p|, s, end);
    }
  }

  // ----- what the patterns of a program mean -----

  /**
   What a pattern matches: what the tree matches that its code stands for, which is its own tree if that is
   supported. Only if a part of it fails to compile, inside an alternation, is it whatever its code accepts.
   */
  ghost predicate Meaning(t: Node, sc: bool, s: seq<Byte>, pos: nat, ev: seq<Event>) {
    if Whole(t) then Matches(Effective(t, sc), s, 0, pos, ev) else OwnAccepts(t, sc, s, pos, ev)
  }

  lemma NothingAccepted(s: seq<Byte>, pos: nat, id: nat, ev: seq<Event>)
    ensures !Accepts([], {}, s, pos, id, ev)
  {
  }

  /** In every case it is what the code accepts on its own. */
  lemma MeaningIsOwn(t: Node, sc: bool, s: seq<Byte>, pos: nat, ev: seq<Event>)
    ensures Meaning(t, sc, s, pos, ev) <==> OwnAccepts(t, sc, s, pos, ev)
  {
    if Whole(t) {
      var u := Effective(t, sc);
      EffectiveSupported(t, sc);
      EffectiveCode(t, sc);
      SameAt(t, u, 0, sc);
      hide Emit, Effective, Whole, SameCode, Matches, Accepts, Supported;
      AddSupported([], {}, 0, u, 0, sc, s, pos, 0, ev);
      assert {} + {0} == {0};
      assert AddCode([], u, 0, sc) == AddCode([], t, 0, sc);
      NothingAccepted(s, pos, 0, ev);
    }
  }

  lemma MeaningOfSupported(t: Node, sc: bool, s: seq<Byte>, pos: nat, ev: seq<Event>)
    requires Supported(t, sc)
    ensures Meaning(t, sc, s, pos, ev) <==> Matches(t, s, 0, pos, ev)
  {
    SupportedExactly(t, sc);
  }

  /** Some pattern with this id matches the first pos bytes. */
  ghost predicate Denotes(ps: seq<Pattern>, sc: bool, s: seq<Byte>, pos: nat, id: nat, ev: seq<Event>) {
    exists k :: 0 <= k < |ps| && ps[k].id == id && Meaning(ps[k].tree, sc, s, pos, ev)
  }

  predicate NoneDangling(ps: seq<Pattern>) {
    forall k :: 0 <= k < |ps| ==> !Dangling(ps[k].tree)
  }

  /** The program accepts exactly what its patterns mean. */
  ghost predicate Implements(p: Program, inits: set<nat>, ps: seq<Pattern>, sc: bool) {
    forall s, pos, id, ev :: Accepts(p, inits, s, pos, id, ev) <==> Denotes(ps, sc, s, pos, id, ev)
  }

  /** Each pattern that is not dangling is found. */
  ghost predicate Finds(p: Program, inits: set<nat>, ps: seq<Pattern>, sc: bool) {
    forall k, s, pos, ev :: 0 <= k < |ps| && !Dangling(ps[k].tree) && Meaning(ps[k].tree, sc, s, pos, ev)
      ==> Accepts(p, inits, s, pos, ps[k].id, ev)
  }

  /**
   What a program owes its patterns. Nothing a pattern matches is ever missed, whatever other patterns
   there are; and while no pattern is dangling, nothing else is accepted.
   */
  ghost predicate Serves(p: Program, inits: set<nat>, ps: seq<Pattern>, sc: bool) {
    Finds(p, inits, ps, sc) && (NoneDangling(ps) ==> Implements(p, inits, ps, sc))
  }

  /**
   Patterns do not interfere: appending one whose code is not dangling adds exactly what it means to
   what the program accepts.
   */
  lemma AddAccepts(p: Program, inits: set<nat>, nc: nat, t: Node, id: nat, sc: bool,
                   s: seq<Byte>, pos: nat, id': nat, ev: seq<Event>)
    requires WellFormed(p, inits, nc) && !Dangling(t)
    ensures Accepts(AddCode(p, t, id, sc), inits + {|p|}, s, pos, id', ev) <==>
      Accepts(p, inits, s, pos, id', ev) || (id' == id && Meaning(t, sc, s, pos, ev))
  {
    hide WellFormed, Dangling, Meaning, OwnAccepts, Accepts, AddCode;
    AddAcceptsOwn(p, inits, nc, t, id, sc, s, pos, id', ev);
    MeaningIsOwn(t, sc, s, pos, ev);
  }

  lemma DenotesSnoc(ps: seq<Pattern>, p: Pattern, sc: bool, s: seq<Byte>, pos: nat, id: nat, ev: seq<Event>)
    ensures Denotes(ps + [p], sc, s, pos, id, ev) <==>
      Denotes(ps, sc, s, pos, id, ev) || (p.id == id && Meaning(p.tree, sc, s, pos, ev))
  {
    hide Meaning;
    var ps' := ps + [p];
    if Denotes(ps, sc, s, pos, id, ev) {
      var k :| 0 <= k < |ps| && ps[k].id == id && Meaning(ps[k].tree, sc, s, pos, ev);
      assert ps'[k] == ps[k];
    }
    assert ps'[|ps|] == p;
  }

  lemma AddImplements(p: Program, inits: set<nat>, nc: nat, t: Node, id: nat, sc: bool, ps: seq<Pattern>)
    requires WellFormed(p, inits, nc) && !Dangling(t) && Implements(p, inits, ps, sc)
    ensures Implements(AddCode(p, t, id, sc), inits + {|p|}, ps + [Pattern(t, id)], sc)
  {
    hide WellFormed, Dangling, Meaning, Accepts, AddCode, Denotes;
    var q := AddCode(p, t, id, sc);
    var ps' := ps + [Pattern(t, id)];
    forall s, pos, id', ev
      ensures Accepts(q, inits + {|p|}, s, pos, id', ev) <==> Denotes(ps', sc, s, pos, id', ev)
    {
      AddAccepts(p, inits, nc, t, id, sc, s, pos, id', ev);
      DenotesSnoc(ps, Pattern(t, id), sc, s, pos, id', ev);
    }
  }

  lemma AddFinds(p: Program, inits: set<nat>, nc: nat, t: Node, id: nat, sc: bool, ps: seq<Pattern>)
    requires WellFormed(p, inits, nc) && Finds(p, inits, ps, sc)
    ensures Finds(AddCode(p, t, id, sc), inits + {|p|}, ps + [Pattern(t, id)], sc)
  {
    hide WellFormed, Dangling, Meaning, Accepts, AddCode;
    var ps' := ps + [Pattern(t, id)];
    forall k, s, pos, ev | 0 <= k < |ps'| && !Dangling(ps'[k].tree) && Meaning(ps'[k].tree, sc, s, pos, ev)
      ensures Accepts(AddCode(p, t, id, sc), inits + {|p|}, s, pos, ps'[k].id, ev)
    {
      if k < |ps| {
        assert ps'[k] == ps[k];
        AddKeeps(p, inits, nc, t, id, sc, s, pos, ps[k].id, ev);
      } else {
        assert ps'[k] == Pattern(t, id);
        AddAccepts(p, inits, nc, t, id, sc, s, pos, id, ev);
      }
    }
  }

  lemma AddServes(p: Program, inits: set<nat>, nc: nat, t: Node, id: nat, sc: bool, ps: seq<Pattern>)
    requires WellFormed(p, inits, nc) && Serves(p, inits, ps, sc)
    ensures Serves(AddCode(p, t, id, sc), inits + {|p|}, ps + [Pattern(t, id)], sc)
  {
    hide WellFormed, Dangling, Finds, Implements, AddCode;
    AddFinds(p, inits, nc, t, id, sc, ps);
    var ps' := ps + [Pattern(t, id)];
    if NoneDangling(ps') {
      assert ps'[|ps|].tree == t && forall k :: 0 <= k < |ps| ==> ps'[k] == ps[k];
      AddImplements(p, inits, nc, t, id, sc, ps);
    }
  }
}
