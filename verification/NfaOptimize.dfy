/** aem_nfa_optimize: jump threading, splitting of initial forks, unreachable instructions. */
module NfaOptimize {
  import opened NfaInsn
  import opened NfaSemantics
  import opened NfaProgram
  import opened NfaObject
  import opened Bitfield
  import opened JumpThreading
  import opened ControlFlow

  /**
   The search along the jumps from dst0: at most n_insns hops, and a chain that is still
   jumping then is given up.  It is given up exactly when the jumps go round for ever.
   */
  method FollowJumps(p: Program, ghost inits: set<nat>, ghost nc: nat, dst0: nat) returns (dst: nat, loop: bool)
    requires WellFormed(p, inits, nc) && dst0 < |p|
    ensures loop <==> Endless(p, dst0)
    ensures !loop ==> dst < |p| && Ends(p, dst0, dst)
  {
    dst, loop := dst0, false;
    var i := 0;
    while i < |p|
      invariant i <= |p| && dst < |p| && Chain(p, dst0, dst, i)
    {
      if !p[dst].Jmp? {
        assert Ends(p, dst0, dst);
        return;
      }
      InsnInRange(p, inits, nc, dst);
      ChainSnoc(p, dst0, dst, i);
      dst := p[dst].target;
      i := i + 1;
    }
    loop := true;
    LongChainIsEndless(p, inits, nc, dst0, dst);
  }

  /**
   Where instruction k stands after threading: a jump or fork goes to the end of its chain of
   jumps, or is as it was if that chain is endless; everything else is as it was.
   */
  ghost predicate ThreadedAt(p: Program, q: Program, k: nat)
    requires k < |p| == |q|
  {
    if HasTarget(p[k]) && !Endless(p, p[k].target)
    then HasTarget(q[k]) && q[k] == Retarget(p[k], q[k].target) && Ends(p, p[k].target, q[k].target)
    else q[k] == p[k]
  }

  /** After instructions below `done` have been threaded. */
  ghost predicate Threading(p: Program, q: Program, inits: set<nat>, nc: nat, done: nat) {
    && |p| == |q| && WellFormed(q, inits, nc) && SameAccepts(p, inits, q, inits)
    && (forall k: nat :: k < |p| ==> if k < done then ThreadedAt(p, q, k) else q[k] == p[k])
    && (forall a: nat, b: nat :: Ends(p, a, b) <==> Ends(q, a, b))
  }

  lemma ThreadingStart(p: Program, inits: set<nat>, nc: nat)
    requires WellFormed(p, inits, nc)
    ensures Threading(p, p, inits, nc, 0)
  {
  }

  /** An instruction without a target, or with an endless chain, stays. */
  lemma ThreadingSkip(p: Program, q: Program, inits: set<nat>, nc: nat, pc: nat)
    requires Threading(p, q, inits, nc, pc) && pc < |p|
    requires HasTarget(q[pc]) ==> Endless(q, q[pc].target)
    ensures Threading(p, q, inits, nc, pc + 1)
  {
    assert q[pc] == p[pc];
    if HasTarget(p[pc]) {
      forall b: nat
        ensures !Ends(p, p[pc].target, b)
      {
        assert !Ends(q, q[pc].target, b);
      }
    }
    assert ThreadedAt(p, q, pc);
  }

  lemma ThreadingTurn(p: Program, q: Program, r: Program, inits: set<nat>, nc: nat, pc: nat, dst: nat)
    requires Threading(p, q, inits, nc, pc) && Threaded(q, r, pc, dst) && dst < |q|
    ensures Threading(p, r, inits, nc, pc + 1)
  {
    assert q[pc] == p[pc];
    assert Ends(p, p[pc].target, dst);
    ThreadedSameAccepts(q, r, pc, dst, inits);
    forall s, pos: nat, id: nat, ev
      ensures Accepts(p, inits, s, pos, id, ev) <==> Accepts(r, inits, s, pos, id, ev)
    {
      assert Accepts(p, inits, s, pos, id, ev) <==> Accepts(q, inits, s, pos, id, ev);
    }
    forall k: nat | k < |p|
      ensures if k < pc + 1 then ThreadedAt(p, r, k) else r[k] == p[k]
    {
      if k < pc { assert ThreadedAt(p, q, k); }
    }
    forall a: nat, b: nat
      ensures Ends(p, a, b) <==> Ends(r, a, b)
    {
      ThreadedEnds(q, r, pc, dst, a, b);
      assert Ends(p, a, b) <==> Ends(q, a, b);
    }
    forall k: nat | k < |r|
      ensures InsnOk(r[k], |r|, nc) && (FallsThrough(r[k]) ==> k + 1 < |r|)
    {
      InsnInRange(q, inits, nc, k);
    }
  }

  lemma ThreadingFacts(p: Program, q: Program, inits: set<nat>, nc: nat, pc: nat)
    requires Threading(p, q, inits, nc, pc) && pc < |q|
    ensures WellFormed(q, inits, nc) && (HasTarget(q[pc]) ==> q[pc].target < |q|)
  {
    InsnInRange(q, inits, nc, pc);
  }

  /** The first pass. */
  method ThreadJumps(nfa: Nfa)
    requires nfa.Allocated() && WellFormed(nfa.code, nfa.Inits(), nfa.nCaptures)
    modifies nfa`pgm, nfa`nInsns, nfa`thrInit, nfa`code
    ensures nfa.Allocated() && nfa.Inits() == old(nfa.Inits())
    ensures Threading(old(nfa.code), nfa.code, nfa.Inits(), nfa.nCaptures, |nfa.code|)
  {
    hide Threading, Members, Endless, Ends, WellFormed;
    ghost var p, inits, nc := nfa.code, nfa.Inits(), nfa.nCaptures;
    ThreadingStart(p, inits, nc);
    for pc := 0 to nfa.nInsns
      invariant nfa.Allocated() && nfa.Inits() == inits && |nfa.code| == |p|
      invariant Threading(p, nfa.code, inits, nc, pc)
    {
      var insn := nfa.pgm[pc];
      ghost var q := nfa.code;
      ThreadingFacts(p, q, inits, nc, pc);
      if HasTarget(insn) {
        var dst, loop := FollowJumps(nfa.pgm[..nfa.nInsns], inits, nc, insn.target);
        if loop {
          ThreadingSkip(p, q, inits, nc, pc);
        } else {
          ThreadingTurn(p, q, q[pc := Retarget(insn, dst)], inits, nc, pc, dst);
          if dst != insn.target {
            nfa.Patch(pc, Retarget(insn, dst));
          } else {
            assert q[pc := Retarget(insn, dst)] == q;
          }
        }
      } else {
        ThreadingSkip(p, q, inits, nc, pc);
      }
    }
  }

  /** Threading leaves no jump or fork to a jump, except into an endless chain. */
  lemma NoJumpsLeft(p: Program, q: Program, inits: set<nat>, nc: nat)
    requires Threading(p, q, inits, nc, |q|)
    ensures forall k: nat :: k < |q| && HasTarget(q[k]) ==> !IsJmp(q, q[k].target) || Endless(q, q[k].target)
  {
    forall k: nat | k < |q| && HasTarget(q[k])
      ensures !IsJmp(q, q[k].target) || Endless(q, q[k].target)
    {
      assert ThreadedAt(p, q, k);
      if Ends(p, p[k].target, q[k].target) {
        assert Ends(q, p[k].target, q[k].target);
      } else {
        forall b: nat
          ensures !Ends(q, q[k].target, b)
        {
          assert !Ends(p, p[k].target, b);
        }
      }
    }
  }

  /** An initial fork gives way to its two successors. */
  function SplitAt(p: Program, inits: set<nat>, pc: nat): set<nat>
    requires pc < |p|
  {
    if pc in inits && p[pc].Fork? then inits - {pc} + {pc + 1, p[pc].target} else inits
  }

  /** The initial set after the forks from pc on have been split, one after the other. */
  function SplitFrom(p: Program, inits: set<nat>, pc: nat): set<nat>
    requires pc <= |p|
    decreases |p| - pc
  {
    if pc == |p| then inits else SplitFrom(p, SplitAt(p, inits, pc), pc + 1)
  }

  /** An initial fork is left over only where a fork at or behind it leads back to it. */
  lemma {:induction false} LeftoverFork(p: Program, inits: set<nat>, pc: nat, k: nat) returns (j: nat)
    requires pc <= |p| && k in SplitFrom(p, inits, pc) && k < |p| && p[k].Fork?
    requires k >= pc || k !in inits
    ensures k <= j && pc <= j < |p| && p[j].Fork? && p[j].target == k
    decreases |p| - pc
  {
    if pc < |p| {
      if p[pc].Fork? && p[pc].target == k <= pc {
        j := pc;
      } else {
        j := LeftoverFork(p, SplitAt(p, inits, pc), pc + 1, k);
      }
    }
  }

  /** So none is left over if no fork leads back. */
  lemma NoForkLeft(p: Program, inits: set<nat>)
    requires forall j: nat :: j < |p| && p[j].Fork? ==> p[j].target > j
    ensures forall k: nat :: k in SplitFrom(p, inits, 0) && k < |p| ==> !p[k].Fork?
  {
    forall k: nat | k in SplitFrom(p, inits, 0) && k < |p|
      ensures !p[k].Fork?
    {
      if p[k].Fork? {
        var _ := LeftoverFork(p, inits, 0, k);
      }
    }
  }

  lemma SameAcceptsTrans(p: Program, i: set<nat>, q: Program, j: set<nat>, r: Program, k: set<nat>)
    requires SameAccepts(p, i, q, j) && SameAccepts(q, j, r, k)
    ensures SameAccepts(p, i, r, k)
  {
    forall s, pos: nat, id: nat, ev
      ensures Accepts(p, i, s, pos, id, ev) <==> Accepts(r, k, s, pos, id, ev)
    {
      assert Accepts(p, i, s, pos, id, ev) <==> Accepts(q, j, s, pos, id, ev);
    }
  }

  /** The second pass: an initial fork is replaced by its two successors. */
  method SplitInitialForks(nfa: Nfa)
    requires nfa.Allocated() && WellFormed(nfa.code, nfa.Inits(), nfa.nCaptures)
    modifies nfa`thrInit
    ensures nfa.Allocated() && WellFormed(nfa.code, nfa.Inits(), nfa.nCaptures)
    ensures nfa.Inits() == SplitFrom(nfa.code, old(nfa.Inits()), 0)
    ensures SameAccepts(nfa.code, old(nfa.Inits()), nfa.code, nfa.Inits())
  {
    hide Members, Accepts;
    ghost var inits0 := nfa.Inits();
    for pc := 0 to nfa.nInsns
      invariant nfa.Allocated() && WellFormed(nfa.code, nfa.Inits(), nfa.nCaptures)
      invariant SplitFrom(nfa.code, nfa.Inits(), pc) == SplitFrom(nfa.code, inits0, 0)
      invariant SameAccepts(nfa.code, inits0, nfa.code, nfa.Inits())
    {
      if Test(nfa.thrInit, pc) && nfa.pgm[pc].Fork? {
        ghost var inits := nfa.Inits();
        var t := nfa.pgm[pc].target;
        InsnInRange(nfa.code, inits, nfa.nCaptures, pc);
        SplitSameAccepts(nfa.code, inits, pc);
        nfa.thrInit := Clear(nfa.thrInit, pc);
        nfa.thrInit := Set(nfa.thrInit, pc + 1);
        nfa.thrInit := Set(nfa.thrInit, t);
        assert nfa.Inits() == SplitAt(nfa.code, inits, pc);
        SameAcceptsTrans(nfa.code, inits0, nfa.code, inits, nfa.code, nfa.Inits());
      }
    }
  }

  lemma SameAcceptsServes(p: Program, i: set<nat>, q: Program, j: set<nat>, ps: seq<Pattern>, sc: bool)
    requires SameAccepts(p, i, q, j) && Serves(p, i, ps, sc)
    ensures Serves(q, j, ps, sc)
  {
    hide Accepts, Denotes, Meaning, NoneDangling;
    forall s, pos: nat, id: nat, ev
      ensures Accepts(p, i, s, pos, id, ev) <==> Accepts(q, j, s, pos, id, ev)
    {
    }
  }

  /**
   aem_nfa_optimize.  The program accepts what it accepted before, on every input; the bitmap
   of the last pass (which the original only logs) is exactly the control-flow closure.
   */
  method Optimize(nfa: Nfa) returns (reachable: seq<Word>)
    requires nfa.Valid()
    modifies nfa`pgm, nfa`nInsns, nfa`thrInit, nfa`code
    ensures nfa.Valid()
    ensures SameAccepts(old(nfa.code), old(nfa.Inits()), nfa.code, nfa.Inits())
    ensures |nfa.code| == |old(nfa.code)|
    ensures forall k: nat :: k < |nfa.code| ==> ThreadedAt(old(nfa.code), nfa.code, k)
    ensures nfa.Inits() == SplitFrom(nfa.code, old(nfa.Inits()), 0)
    ensures forall k: nat :: k < |nfa.code| && HasTarget(nfa.code[k]) ==>
              !IsJmp(nfa.code, nfa.code[k].target) || Endless(nfa.code, nfa.code[k].target)
    ensures forall pc: nat :: pc in Members(reachable) <==> FlowReach(nfa.code, nfa.Inits(), pc)
  {
    hide Members, Accepts, WellFormed, Serves, FlowReach, Ends, Endless, SplitFrom;
    ghost var p, inits := nfa.code, nfa.Inits();
    ThreadJumps(nfa);
    NoJumpsLeft(p, nfa.code, inits, nfa.nCaptures);
    SplitInitialForks(nfa);
    SameAcceptsTrans(p, inits, nfa.code, inits, nfa.code, nfa.Inits());
    SameAcceptsServes(p, inits, nfa.code, nfa.Inits(), nfa.patterns, nfa.signedChar);
    reachable := FindReachable(nfa.pgm[..nfa.nInsns], nfa.Inits(), nfa.nCaptures, nfa.thrInit);
  }
}
