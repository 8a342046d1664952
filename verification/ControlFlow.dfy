/** Static control flow: the walk over a program that finds its unreachable instructions. */
module ControlFlow {
  import opened NfaInsn
  import opened NfaSemantics
  import opened NfaProgram
  import opened VmTheory
  import opened Bitfield
  import opened FiniteSets

  /** Where control can go from pc, whatever the input. */
  function Succs(p: Program, pc: nat): set<nat> {
    if pc >= |p| then {}
    else
      match p[pc]
      case Jmp(t) => {t}
      case Fork(t) => {t, pc + 1}
      case Match(_) => {}
      case _ => {pc + 1}
  }

  ghost predicate FlowPath(p: Program, a: nat, b: nat, n: nat)
    decreases n
  {
    if n == 0 then a == b else exists m :: FlowPath(p, a, m, n - 1) && b in Succs(p, m)
  }

  /** The control-flow closure of a set of pcs. */
  ghost predicate FlowReach(p: Program, from: set<nat>, b: nat) {
    exists a, n: nat :: a in from && FlowPath(p, a, b, n)
  }

  lemma FlowRefl(p: Program, from: set<nat>, a: nat)
    requires a in from
    ensures FlowReach(p, from, a)
  {
    assert FlowPath(p, a, a, 0);
  }

  lemma FlowStep(p: Program, from: set<nat>, a: nat, b: nat)
    requires FlowReach(p, from, a) && b in Succs(p, a)
    ensures FlowReach(p, from, b)
  {
    var o, n: nat :| o in from && FlowPath(p, o, a, n);
    assert FlowPath(p, o, b, n + 1);
  }

  /** Everything in r has its successors in r, or among those still to be walked. */
  ghost predicate FlowClosed(p: Program, r: set<nat>, pending: set<nat>) {
    forall a, b :: a in r && b in Succs(p, a) ==> b in r || b in pending
  }

  lemma {:induction false} FlowStaysIn(p: Program, r: set<nat>, a: nat, b: nat, n: nat)
    requires FlowClosed(p, r, {}) && a in r && FlowPath(p, a, b, n)
    ensures b in r
    decreases n
  {
    if n > 0 {
      var m :| FlowPath(p, a, m, n - 1) && b in Succs(p, m);
      FlowStaysIn(p, r, a, m, n - 1);
    }
  }

  lemma NothingMarked(p: Program, r: set<nat>, pending: set<nat>)
    ensures FlowClosed(p, r - r, pending)
  {
  }

  /** Marking one more pc: its successors are to be walked too. */
  lemma FlowMarks(p: Program, r0: set<nat>, r: set<nat>, pc: nat, pending: set<nat>)
    requires FlowClosed(p, r - r0, r + {pc}) && r + {pc} <= pending && Succs(p, pc) <= pending
    ensures FlowClosed(p, r + {pc} - r0, pending)
  {
  }

  lemma FlowJoins(p: Program, r0: set<nat>, r1: set<nat>, r2: set<nat>, pending: set<nat>, rest: set<nat>)
    requires FlowClosed(p, r1 - r0, pending) && FlowClosed(p, r2 - r1, r2)
    requires r1 <= r2 <= rest && pending <= rest
    ensures FlowClosed(p, r2 - r0, rest)
  {
  }

  /** aem_nfa_mark_reachable: mark pc and everything control can reach from it. */
  method MarkReachable(
      p: Program, ghost inits: set<nat>, ghost nc: nat, ghost from: set<nat>, reachable: seq<Word>, pc0: nat)
    returns (r: seq<Word>)
    requires WellFormed(p, inits, nc) && |p| <= 32 * |reachable| && pc0 < |p|
    requires forall a: nat :: a in Members(reachable) ==> a < |p|
    requires FlowReach(p, from, pc0)
    ensures |r| == |reachable| && Members(reachable) <= Members(r) && pc0 in Members(r)
    ensures forall a: nat :: a in Members(r) ==> a < |p|
    ensures forall a: nat :: a in Members(r) - Members(reachable) ==> FlowReach(p, from, a)
    ensures FlowClosed(p, Members(r) - Members(reachable), Members(r))
    decreases |p| - |Members(reachable)|
  {
    hide FlowReach, FlowClosed, Members, WellFormed;
    r := reachable;
    NothingMarked(p, Members(r), Members(r) + {pc0});
    var pc: nat := pc0;
    Bounded(Members(r), |p|);
    while pc < |p| && !Test(r, pc)
      invariant pc < |p| && |r| == |reachable| && Members(reachable) <= Members(r)
      invariant FlowReach(p, from, pc) && (pc0 == pc || pc0 in Members(r))
      invariant forall a: nat :: a in Members(r) ==> a < |p|
      invariant forall a: nat :: a in Members(r) - Members(reachable) ==> FlowReach(p, from, a)
      invariant FlowClosed(p, Members(r) - Members(reachable), Members(r) + {pc})
      decreases |p| - |Members(r)|
    {
      ghost var here, marked := pc, Members(r);
      Bounded(Members(r) + {pc}, |p|);
      InsnInRange(p, inits, nc, pc);
      r := Set(r, pc);
      CardinalityGrows(Members(reachable) + {here}, Members(r));
      var insn := p[pc];
      pc := pc + 1;
      match insn
      case Jmp(t) =>
        pc := t;
        FlowStep(p, from, here, pc);
        FlowMarks(p, Members(reachable), marked, here, Members(r) + {pc});
      case Fork(t) =>
        FlowStep(p, from, here, t);
        FlowStep(p, from, here, pc);
        ghost var before := Members(r);
        FlowMarks(p, Members(reachable), marked, here, before + {t, pc});
        r := MarkReachable(p, inits, nc, from, r, t);
        FlowJoins(p, Members(reachable), before, Members(r), before + {t, pc}, Members(r) + {pc});
        CardinalityGrows(before, Members(r));
      case Match(_) =>
        FlowMarks(p, Members(reachable), marked, here, Members(r));
        return;
      case _ =>
        FlowStep(p, from, here, pc);
        FlowMarks(p, Members(reachable), marked, here, Members(r) + {pc});
    }
    assert Members(r) + {pc} == Members(r);
  }

  lemma FlowContained(p: Program, inits: set<nat>, nc: nat, r: set<nat>, pc: nat)
    requires WellFormed(p, inits, nc) && FlowClosed(p, r, {}) && inits <= r
    ensures FlowReach(p, inits, pc) ==> pc in r
  {
    if FlowReach(p, inits, pc) {
      var a, n: nat :| a in inits && FlowPath(p, a, pc, n);
      FlowStaysIn(p, r, a, pc, n);
    }
  }

  /** The pass of aem_nfa_optimize that looks for unreachable instructions. */
  method FindReachable(p: Program, ghost inits: set<nat>, ghost nc: nat, thrInit: seq<Word>) returns (r: seq<Word>)
    requires WellFormed(p, inits, nc) && |p| <= 32 * |thrInit| && inits == Members(thrInit)
    ensures |r| == Words(|p|)
    ensures forall pc: nat :: pc in Members(r) <==> FlowReach(p, inits, pc)
  {
    hide FlowReach, Members;
    r := Zeros(Words(|p|));
    for pc := 0 to |p|
      invariant |r| == Words(|p|) && forall a: nat :: a in Members(r) ==> a < |p| && FlowReach(p, inits, a)
      invariant FlowClosed(p, Members(r), {})
      invariant forall a: nat :: a in inits && a < pc ==> a in Members(r)
    {
      if Test(thrInit, pc) {
        FlowRefl(p, inits, pc);
        r := MarkReachable(p, inits, nc, inits, r, pc);
      }
    }
    forall pc: nat
      ensures pc in Members(r) <==> FlowReach(p, inits, pc)
    {
      FlowContained(p, inits, nc, Members(r), pc);
    }
  }

  lemma {:induction false} StepsFlow(x: Setup, o: Config, b: Config, n: nat)
    requires Start(x, o) && Steps(x.p, x.s, o, b, n)
    ensures FlowReach(x.p, x.inits, b.pc)
    decreases n
  {
    if n == 0 {
      FlowRefl(x.p, x.inits, b.pc);
    } else {
      var m := LastStep(x.p, x.s, o, b, n);
      StepsFlow(x, o, m, n - 1);
      FlowStep(x.p, x.inits, m.pc, b.pc);
    }
  }

  /** No run on any input executes an instruction outside the control-flow closure. */
  lemma RunStaysReachable(x: Setup, pc: nat, pos: nat)
    requires PcAt(x, pc, pos)
    ensures FlowReach(x.p, x.inits, pc)
  {
    var ev :| Reachable(x, Config(pc, pos, ev));
    var o :| Start(x, o) && Reaches(x.p, x.s, o, Config(pc, pos, ev));
    var n: nat :| Steps(x.p, x.s, o, Config(pc, pos, ev), n);
    StepsFlow(x, o, Config(pc, pos, ev), n);
  }
}
