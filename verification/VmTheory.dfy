/**
 What the thread VM has to compute: for each input position the program counters that some
 thread can stand at, as the non-consuming closure of the counters entered by a byte.
 */
module VmTheory {
  import opened Bytes
  import opened NfaInsn
  import opened NfaSemantics

  /** One run: the program, its initial pcs and the input. */
  datatype Setup = Setup(p: Program, inits: set<nat>, s: seq<Byte>)

  ghost predicate Start(x: Setup, a: Config) {
    a.pc in x.inits && a == Config(a.pc, 0, [])
  }

  ghost predicate Reachable(x: Setup, b: Config) {
    exists a :: Start(x, a) && Reaches(x.p, x.s, a, b)
  }

  /** Some thread can be at pc when the run is at position pos. */
  ghost predicate PcAt(x: Setup, pc: nat, pos: nat) {
    exists ev :: Reachable(x, Config(pc, pos, ev))
  }

  /** The pcs one step from pc a at position pos without consuming a byte. */
  function EpsSuccs(x: Setup, pos: nat, a: nat): set<nat> {
    if a >= |x.p| then {}
    else
      match x.p[a]
      case Jmp(t) => {t}
      case Fork(t) => {a + 1, t}
      case Capture(_, _) => {a + 1}
      case Class(neg, frontier, cc) => if frontier && FrontierMatch(neg, cc, x.s, pos) then {a + 1} else {}
      case _ => {}
  }

  predicate EpsEdge(x: Setup, pos: nat, a: nat, b: nat) {
    b in EpsSuccs(x, pos, a)
  }

  ghost predicate EpsPath(x: Setup, pos: nat, a: nat, b: nat, n: nat)
    decreases n
  {
    if n == 0 then a == b else exists m :: EpsPath(x, pos, a, m, n - 1) && EpsEdge(x, pos, m, b)
  }

  /** The non-consuming closure of a set of pcs. */
  ghost predicate InClosure(x: Setup, pos: nat, from: set<nat>, b: nat) {
    exists a, n: nat :: a in from && EpsPath(x, pos, a, b, n)
  }

  /** The instruction at a lets the byte c (or -1 at the end of input) pass to a + 1. */
  predicate PassesByte(x: Setup, a: nat, c: int) {
    a < |x.p| && Consumes(x.p[a], c)
  }

  ghost predicate ClosedUnder(x: Setup, pos: nat, d: set<nat>, pending: set<nat>) {
    forall a, b :: a in d && EpsEdge(x, pos, a, b) ==> b in d || b in pending
  }

  lemma ClosureRefl(x: Setup, pos: nat, from: set<nat>, a: nat)
    requires a in from
    ensures InClosure(x, pos, from, a)
  {
    assert EpsPath(x, pos, a, a, 0);
  }

  lemma ClosureStep(x: Setup, pos: nat, from: set<nat>, a: nat, b: nat)
    requires InClosure(x, pos, from, a) && EpsEdge(x, pos, a, b)
    ensures InClosure(x, pos, from, b)
  {
    var o, n: nat :| o in from && EpsPath(x, pos, o, a, n);
    assert EpsPath(x, pos, o, b, n + 1);
  }

  lemma {:induction false} PathStaysIn(x: Setup, pos: nat, d: set<nat>, a: nat, b: nat, n: nat)
    requires ClosedUnder(x, pos, d, {}) && a in d && EpsPath(x, pos, a, b, n)
    ensures b in d
    decreases n
  {
    if n > 0 {
      var m :| EpsPath(x, pos, a, m, n - 1) && EpsEdge(x, pos, m, b);
      PathStaysIn(x, pos, d, a, m, n - 1);
    }
  }

  /** A closed set around `from` contains the closure of `from`. */
  lemma {:induction false} ClosedContains(x: Setup, pos: nat, from: set<nat>, d: set<nat>, b: nat)
    requires from <= d && ClosedUnder(x, pos, d, {}) && InClosure(x, pos, from, b)
    ensures b in d
  {
    var a, n: nat :| a in from && EpsPath(x, pos, a, b, n);
    PathStaysIn(x, pos, d, a, b, n);
  }

  // ----- steps of configurations and edges of pcs -----

  lemma {:induction false} LastStep(p: Program, s: seq<Byte>, a: Config, b: Config, n: nat) returns (m: Config)
    requires n > 0 && Steps(p, s, a, b, n)
    ensures Steps(p, s, a, m, n - 1) && Step(p, s, m, b)
    decreases n
  {
    var c :| Step(p, s, a, c) && Steps(p, s, c, b, n - 1);
    if n == 1 {
      m := a;
    } else {
      m := LastStep(p, s, c, b, n - 1);
    }
  }

  lemma StepKinds(x: Setup, a: Config, b: Config)
    requires Step(x.p, x.s, a, b)
    ensures b.pos == a.pos ==> EpsEdge(x, a.pos, a.pc, b.pc)
    ensures b.pos != a.pos ==>
      a.pos < |x.s| && b.pos == a.pos + 1 && b.pc == a.pc + 1 && PassesByte(x, a.pc, x.s[a.pos])
  {
  }

  lemma ReachableStep(x: Setup, a: Config, b: Config)
    requires Reachable(x, a) && Step(x.p, x.s, a, b)
    ensures Reachable(x, b)
  {
    var o :| Start(x, o) && Reaches(x.p, x.s, o, a);
    ReachesStep(x.p, x.s, a, b);
    ReachesTrans(x.p, x.s, o, a, b);
  }

  lemma ReachableStart(x: Setup, pc: nat)
    requires pc in x.inits
    ensures Reachable(x, Config(pc, 0, []))
  {
    ReachesRefl(x.p, x.s, Config(pc, 0, []));
    assert Start(x, Config(pc, 0, []));
  }

  lemma PcAtEdge(x: Setup, pos: nat, a: nat, b: nat)
    requires PcAt(x, a, pos) && EpsEdge(x, pos, a, b)
    ensures PcAt(x, b, pos)
  {
    var ev :| Reachable(x, Config(a, pos, ev));
    var ev' := if x.p[a].Capture? then ev + [Event(x.p[a].end, x.p[a].n, pos)] else ev;
    ReachableStep(x, Config(a, pos, ev), Config(b, pos, ev'));
  }

  lemma PcAtByte(x: Setup, pos: nat, a: nat)
    requires PcAt(x, a, pos) && pos < |x.s| && PassesByte(x, a, x.s[pos])
    ensures PcAt(x, a + 1, pos + 1)
  {
    var ev :| Reachable(x, Config(a, pos, ev));
    ReachableStep(x, Config(a, pos, ev), Config(a + 1, pos + 1, ev));
  }

  lemma {:induction false} PathPcAt(x: Setup, pos: nat, a: nat, b: nat, n: nat)
    requires EpsPath(x, pos, a, b, n) && PcAt(x, a, pos)
    ensures PcAt(x, b, pos)
    decreases n
  {
    if n > 0 {
      var m :| EpsPath(x, pos, a, m, n - 1) && EpsEdge(x, pos, m, b);
      PathPcAt(x, pos, a, m, n - 1);
      PcAtEdge(x, pos, m, b);
    }
  }

  lemma {:induction false} ClosurePcAt(x: Setup, pos: nat, from: set<nat>, b: nat)
    requires InClosure(x, pos, from, b) && forall a :: a in from ==> PcAt(x, a, pos)
    ensures PcAt(x, b, pos)
  {
    var a, n: nat :| a in from && EpsPath(x, pos, a, b, n);
    PathPcAt(x, pos, a, b, n);
  }

  // ----- the sets of one position and of the next -----

  /** The set `from` generates position pos: its closure is every pc a thread can be at. */
  ghost predicate Generates(x: Setup, pos: nat, from: set<nat>) {
    forall pc :: PcAt(x, pc, pos) <==> InClosure(x, pos, from, pc)
  }

  /** `done` is exactly the closure of `from`. */
  ghost predicate IsClosure(x: Setup, pos: nat, from: set<nat>, done: set<nat>) {
    forall pc :: pc in done <==> InClosure(x, pos, from, pc)
  }

  ghost predicate IsSuccessors(x: Setup, done: set<nat>, c: int, next: set<nat>) {
    forall pc :: pc in next <==> exists a :: a in done && PassesByte(x, a, c) && pc == a + 1
  }

  lemma {:induction false} StartClosure(x: Setup, o: Config, b: Config, n: nat)
    requires Start(x, o) && Steps(x.p, x.s, o, b, n) && b.pos == 0
    ensures InClosure(x, 0, x.inits, b.pc)
    decreases n
  {
    if n == 0 {
      ClosureRefl(x, 0, x.inits, b.pc);
    } else {
      var m := LastStep(x.p, x.s, o, b, n);
      StepKinds(x, m, b);
      StartClosure(x, o, m, n - 1);
      ClosureStep(x, 0, x.inits, m.pc, b.pc);
    }
  }

  lemma GeneratesStart(x: Setup)
    ensures Generates(x, 0, x.inits)
  {
    forall pc
      ensures PcAt(x, pc, 0) <==> InClosure(x, 0, x.inits, pc)
    {
      if PcAt(x, pc, 0) {
        var ev :| Reachable(x, Config(pc, 0, ev));
        var o :| Start(x, o) && Reaches(x.p, x.s, o, Config(pc, 0, ev));
        var n: nat :| Steps(x.p, x.s, o, Config(pc, 0, ev), n);
        StartClosure(x, o, Config(pc, 0, ev), n);
      }
      if InClosure(x, 0, x.inits, pc) {
        forall a | a in x.inits
          ensures PcAt(x, a, 0)
        {
          ReachableStart(x, a);
        }
        ClosurePcAt(x, 0, x.inits, pc);
      }
    }
  }

  lemma {:induction false} NextClosure(
      x: Setup, pos: nat, from: set<nat>, done: set<nat>, next: set<nat>, o: Config, b: Config, n: nat)
    requires pos < |x.s| && Generates(x, pos, from)
    requires IsClosure(x, pos, from, done) && IsSuccessors(x, done, x.s[pos], next)
    requires Start(x, o) && Steps(x.p, x.s, o, b, n) && b.pos == pos + 1
    ensures InClosure(x, pos + 1, next, b.pc)
    decreases n
  {
    var m := LastStep(x.p, x.s, o, b, n);
    StepKinds(x, m, b);
    if m.pos == b.pos {
      NextClosure(x, pos, from, done, next, o, m, n - 1);
      ClosureStep(x, pos + 1, next, m.pc, b.pc);
    } else {
      assert Reachable(x, Config(m.pc, pos, m.ev));
      assert PcAt(x, m.pc, pos);
      ClosureRefl(x, pos + 1, next, b.pc);
    }
  }

  /** The byte at pos takes the closure at pos to a generator of position pos + 1. */
  lemma GeneratesNext(x: Setup, pos: nat, from: set<nat>, done: set<nat>, next: set<nat>)
    requires pos < |x.s| && Generates(x, pos, from)
    requires IsClosure(x, pos, from, done) && IsSuccessors(x, done, x.s[pos], next)
    ensures Generates(x, pos + 1, next)
  {
    var pos1 := pos + 1;
    forall pc
      ensures PcAt(x, pc, pos1) <==> InClosure(x, pos1, next, pc)
    {
      if PcAt(x, pc, pos1) {
        var ev :| Reachable(x, Config(pc, pos1, ev));
        var o :| Start(x, o) && Reaches(x.p, x.s, o, Config(pc, pos1, ev));
        var n: nat :| Steps(x.p, x.s, o, Config(pc, pos1, ev), n);
        NextClosure(x, pos, from, done, next, o, Config(pc, pos1, ev), n);
      }
      if InClosure(x, pos1, next, pc) {
        forall b | b in next
          ensures PcAt(x, b, pos1)
        {
          var a :| a in done && PassesByte(x, a, x.s[pos]) && b == a + 1;
          PcAtByte(x, pos, a);
        }
        ClosurePcAt(x, pos1, next, pc);
      }
    }
  }

  /** Once no thread is left, none comes back. */
  lemma {:induction false} DeadStaysDead(x: Setup, pos: nat, o: Config, b: Config, n: nat)
    requires Generates(x, pos, {}) && Start(x, o) && Steps(x.p, x.s, o, b, n)
    ensures b.pos < pos
    decreases n
  {
    if n > 0 {
      var m := LastStep(x.p, x.s, o, b, n);
      StepKinds(x, m, b);
      DeadStaysDead(x, pos, o, m, n - 1);
    }
    if b.pos == pos {
      assert Reachable(x, Config(b.pc, pos, b.ev));
      assert PcAt(x, b.pc, pos);
      assert false;
    } else if n == 0 && pos == 0 {
      assert false;
    }
  }

  lemma {:induction false} InInput(x: Setup, o: Config, b: Config, n: nat)
    requires Start(x, o) && Steps(x.p, x.s, o, b, n)
    ensures b.pos <= |x.s|
    decreases n
  {
    if n > 0 {
      var m := LastStep(x.p, x.s, o, b, n);
      InInput(x, o, m, n - 1);
    }
  }
}
