/** Chains of jumps, and why sending a jump or fork straight to the end of one is sound. */
module JumpThreading {
  import opened Bytes
  import opened NfaInsn
  import opened NfaSemantics
  import opened NfaProgram
  import opened FiniteSets

  predicate IsJmp(p: Program, pc: nat) {
    pc < |p| && p[pc].Jmp?
  }

  function Retarget(insn: Insn, t: nat): Insn
    requires HasTarget(insn)
  {
    if insn.Jmp? then Jmp(t) else Fork(t)
  }

  /** h jumps in a row lead from a to b. */
  predicate Chain(p: Program, a: nat, b: nat, h: nat)
    decreases h
  {
    if h == 0 then a == b else IsJmp(p, a) && Chain(p, p[a].target, b, h - 1)
  }

  /** The jumps from a end at b, which is not a jump. */
  ghost predicate Ends(p: Program, a: nat, b: nat) {
    !IsJmp(p, b) && exists h: nat :: Chain(p, a, b, h)
  }

  /** The jumps from a go round for ever. */
  ghost predicate Endless(p: Program, a: nat) {
    forall b :: !Ends(p, a, b)
  }

  lemma {:induction false} ChainSnoc(p: Program, a: nat, b: nat, h: nat)
    requires Chain(p, a, b, h) && IsJmp(p, b)
    ensures Chain(p, a, p[b].target, h + 1)
    decreases h
  {
    if h > 0 { ChainSnoc(p, p[a].target, b, h - 1); }
  }

  /** Following jumps is deterministic: no chain is longer than the one that ends. */
  lemma {:induction false} EndUnique(p: Program, a: nat, b: nat, h: nat, c: nat, k: nat)
    requires Chain(p, a, b, h) && !IsJmp(p, b) && Chain(p, a, c, k)
    ensures k <= h && (!IsJmp(p, c) ==> k == h && c == b)
    decreases h
  {
    if h > 0 && k > 0 { EndUnique(p, p[a].target, b, h - 1, c, k - 1); }
  }

  ghost predicate Within(p: Program, a: nat, b: nat, h: nat) {
    exists k: nat :: k <= h && Chain(p, a, b, k)
  }

  /** The pcs on a chain that ends are pairwise distinct, because their distances to the end are. */
  lemma {:induction false} ChainNodes(
      p: Program, inits: set<nat>, nc: nat, a: nat, b: nat, h: nat)
    returns (nodes: set<nat>)
    requires WellFormed(p, inits, nc) && a < |p| && Chain(p, a, b, h) && !IsJmp(p, b)
    ensures |nodes| == h + 1 && forall v: nat :: v in nodes ==> v < |p|
    ensures forall v: nat :: v in nodes ==> Within(p, v, b, h)
    decreases h
  {
    nodes := {a};
    if h > 0 {
      assert InsnOk(p[a], |p|, nc);
      var rest := ChainNodes(p, inits, nc, p[a].target, b, h - 1);
      if a in rest {
        var k: nat :| k <= h - 1 && Chain(p, a, b, k);
        EndUnique(p, a, b, h, b, k);
        assert false;
      }
      nodes := rest + {a};
    }
    forall v: nat | v in nodes
      ensures Within(p, v, b, h)
    {
      if v == a { assert h <= h && Chain(p, v, b, h); }
    }
  }

  /** Pigeonhole: after as many jumps as there are instructions, the chain is endless. */
  lemma LongChainIsEndless(p: Program, inits: set<nat>, nc: nat, a: nat, c: nat)
    requires WellFormed(p, inits, nc) && a < |p| && Chain(p, a, c, |p|)
    ensures Endless(p, a)
  {
    forall b
      ensures !Ends(p, a, b)
    {
      if Ends(p, a, b) {
        var h: nat :| Chain(p, a, b, h);
        EndUnique(p, a, b, h, c, |p|);
        var nodes := ChainNodes(p, inits, nc, a, b, h);
        Bounded(nodes, |p|);
        assert false;
      }
    }
  }

  // ----- one instruction sent to the end of its chain -----

  /** q is p with the target at pc moved to the end of the chain that starts at it. */
  ghost predicate Threaded(p: Program, q: Program, pc: nat, dst: nat) {
    pc < |p| && HasTarget(p[pc]) && Ends(p, p[pc].target, dst) && q == p[pc := Retarget(p[pc], dst)]
  }

  /** On the way to a MATCH a thread must follow the whole chain. */
  lemma {:induction false} ChainSteps(p: Program, s: seq<Byte>, m: Config, b: Config, k: nat, dst: nat, h: nat)
    requires Chain(p, m.pc, dst, h) && !IsJmp(p, dst)
    requires Steps(p, s, m, b, k) && b.pc < |p| && p[b.pc].Match?
    ensures h <= k && Steps(p, s, m.(pc := dst), b, k - h)
    decreases h
  {
    if h > 0 {
      var n := FirstStep(p, s, m, b, k);
      ChainSteps(p, s, n, b, k - 1, dst, h - 1);
    }
  }

  lemma {:induction false} ChainReaches(p: Program, s: seq<Byte>, m: Config, dst: nat, h: nat)
    requires Chain(p, m.pc, dst, h)
    ensures Reaches(p, s, m, m.(pc := dst))
    decreases h
  {
    if h == 0 {
      ReachesRefl(p, s, m);
    } else {
      var n := m.(pc := p[m.pc].target);
      ReachesStep(p, s, m, n);
      ChainReaches(p, s, n, dst, h - 1);
      ReachesTrans(p, s, m, n, m.(pc := dst));
    }
  }

  lemma {:induction false} ThreadedForward(
      p: Program, q: Program, pc: nat, dst: nat, s: seq<Byte>, a: Config, b: Config, k: nat)
    requires Threaded(p, q, pc, dst)
    requires Steps(p, s, a, b, k) && b.pc < |p| && p[b.pc].Match?
    ensures Reaches(q, s, a, b)
    decreases k
  {
    if k == 0 {
      ReachesRefl(q, s, a);
    } else {
      var m :| Step(p, s, a, m) && Steps(p, s, m, b, k - 1);
      if Step(q, s, a, m) {
        ThreadedForward(p, q, pc, dst, s, m, b, k - 1);
        ReachesStep(q, s, a, m);
        ReachesTrans(q, s, a, m, b);
      } else {
        var h: nat :| Chain(p, p[pc].target, dst, h);
        ChainSteps(p, s, m, b, k - 1, dst, h);
        var m' := m.(pc := dst);
        ThreadedForward(p, q, pc, dst, s, m', b, k - 1 - h);
        ReachesStep(q, s, a, m');
        ReachesTrans(q, s, a, m', b);
      }
    }
  }

  lemma {:induction false} ThreadedBackward(
      p: Program, q: Program, pc: nat, dst: nat, s: seq<Byte>, a: Config, b: Config, k: nat)
    requires Threaded(p, q, pc, dst) && Steps(q, s, a, b, k)
    ensures Reaches(p, s, a, b)
    decreases k
  {
    if k == 0 {
      ReachesRefl(p, s, a);
    } else {
      var m :| Step(q, s, a, m) && Steps(q, s, m, b, k - 1);
      ThreadedBackward(p, q, pc, dst, s, m, b, k - 1);
      if Step(p, s, a, m) {
        ReachesStep(p, s, a, m);
      } else {
        var h: nat :| Chain(p, p[pc].target, dst, h);
        var n := a.(pc := p[pc].target);
        ReachesStep(p, s, a, n);
        ChainReaches(p, s, n, dst, h);
        ReachesTrans(p, s, a, n, m);
      }
      ReachesTrans(p, s, a, m, b);
    }
  }

  /** Both programs accept the same: position, id and events, on every input. */
  ghost predicate SameAccepts(p: Program, inits: set<nat>, q: Program, inits': set<nat>) {
    forall s, pos: nat, id: nat, ev :: Accepts(p, inits, s, pos, id, ev) <==> Accepts(q, inits', s, pos, id, ev)
  }

  lemma ThreadedSameAccepts(p: Program, q: Program, pc: nat, dst: nat, inits: set<nat>)
    requires Threaded(p, q, pc, dst)
    ensures SameAccepts(p, inits, q, inits)
  {
    forall s, i: nat, b
      ensures AcceptsFrom(p, i, s, b) <==> AcceptsFrom(q, i, s, b)
      ensures AcceptsFrom(p, i, s, b) ==> p[b.pc] == q[b.pc]
    {
      var a := Config(i, 0, []);
      if AcceptsFrom(p, i, s, b) {
        var k: nat :| Steps(p, s, a, b, k);
        ThreadedForward(p, q, pc, dst, s, a, b, k);
      }
      if AcceptsFrom(q, i, s, b) {
        var k: nat :| Steps(q, s, a, b, k);
        ThreadedBackward(p, q, pc, dst, s, a, b, k);
      }
    }
  }

  lemma {:induction false} ThreadedChain(p: Program, q: Program, pc: nat, dst: nat, a: nat, b: nat, h: nat)
    requires Threaded(p, q, pc, dst) && !IsJmp(p, b)
    ensures Chain(p, a, b, h) ==> exists k: nat :: Chain(q, a, b, k)
    decreases h
  {
    if Chain(p, a, b, h) {
      if h == 0 {
        assert Chain(q, a, b, 0);
      } else if a == pc {
        var g: nat :| Chain(p, p[pc].target, dst, g);
        EndUnique(p, p[pc].target, dst, g, b, h - 1);
        assert Chain(q, dst, b, 0);
        assert Chain(q, a, b, 1);
      } else {
        ThreadedChain(p, q, pc, dst, p[a].target, b, h - 1);
        var k: nat :| Chain(q, p[a].target, b, k);
        assert Chain(q, a, b, k + 1);
      }
    }
  }

  lemma {:induction false} ThreadedChainBack(p: Program, q: Program, pc: nat, dst: nat, a: nat, b: nat, h: nat)
    requires Threaded(p, q, pc, dst) && !IsJmp(p, b) && Chain(q, a, b, h)
    ensures exists k: nat :: Chain(p, a, b, k)
    decreases h
  {
    if h == 0 {
      assert Chain(p, a, b, 0);
    } else if a == pc {
      var g: nat :| Chain(p, p[pc].target, dst, g);
      assert !IsJmp(q, dst);
      assert h - 1 == 0;
      assert Chain(p, a, b, g + 1);
    } else {
      ThreadedChainBack(p, q, pc, dst, q[a].target, b, h - 1);
      var k: nat :| Chain(p, p[a].target, b, k);
      assert Chain(p, a, b, k + 1);
    }
  }

  /** Threading moves no chain's end. */
  lemma ThreadedEnds(p: Program, q: Program, pc: nat, dst: nat, a: nat, b: nat)
    requires Threaded(p, q, pc, dst)
    ensures Ends(p, a, b) <==> Ends(q, a, b)
  {
    if Ends(p, a, b) {
      var h: nat :| Chain(p, a, b, h);
      ThreadedChain(p, q, pc, dst, a, b, h);
    }
    if Ends(q, a, b) {
      var h: nat :| Chain(q, a, b, h);
      ThreadedChainBack(p, q, pc, dst, a, b, h);
    }
  }

  // ----- splitting an initial fork -----

  lemma SplitSameAccepts(p: Program, inits: set<nat>, pc: nat)
    requires pc in inits && pc < |p| && p[pc].Fork?
    ensures SameAccepts(p, inits, p, inits - {pc} + {pc + 1} + {p[pc].target})
  {
    var inits' := inits - {pc} + {pc + 1} + {p[pc].target};
    forall s, pos: nat, id: nat, ev
      ensures Accepts(p, inits, s, pos, id, ev) <==> Accepts(p, inits', s, pos, id, ev)
    {
      if Accepts(p, inits, s, pos, id, ev) {
        var i, b :| i in inits && AcceptsFrom(p, i, s, b) && b.pos == pos && b.ev == ev && p[b.pc] == Match(id);
        if i == pc {
          var n: nat :| Steps(p, s, Config(i, 0, []), b, n);
          var m := FirstStep(p, s, Config(i, 0, []), b, n);
          assert AcceptsFrom(p, m.pc, s, b) && m.pc in inits';
        } else {
          assert i in inits';
        }
      }
      if Accepts(p, inits', s, pos, id, ev) {
        var i, b :| i in inits' && AcceptsFrom(p, i, s, b) && b.pos == pos && b.ev == ev && p[b.pc] == Match(id);
        if i !in inits {
          ReachesStep(p, s, Config(pc, 0, []), Config(i, 0, []));
          ReachesTrans(p, s, Config(pc, 0, []), Config(i, 0, []), b);
          assert AcceptsFrom(p, pc, s, b);
        }
      }
    }
  }
}
