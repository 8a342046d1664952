/** The thread VM: aem_nfa_run and its helpers (nfa.c). */
module NfaVm {
  import opened Bytes
  import opened NfaInsn
  import opened NfaSemantics
  import opened NfaProgram
  import opened VmTheory
  import opened Bitfield
  import opened FiniteSets

  datatype ThreadState = Live | Dead | Matched

  /** A capture: two pointers into the input, null until set. */
  datatype Span = Span(start: Option<nat>, end: Option<nat>)

  datatype Thread = Thread(pc: nat, state: ThreadState, captures: seq<Span>, id: int)

  function SetCapture(captures: seq<Span>, e: Event): (r: seq<Span>)
    ensures |r| == |captures|
  {
    if e.n >= |captures| then captures
    else if e.end then captures[e.n := captures[e.n].(end := Some(e.pos))]
    else captures[e.n := captures[e.n].(start := Some(e.pos))]
  }

  function NoCaptures(nc: nat): seq<Span> {
    seq(nc, _ => Span(None, None))
  }

  /** The capture array after the events of a path. */
  function Replay(nc: nat, ev: seq<Event>): (r: seq<Span>)
    ensures |r| == nc
  {
    if ev == [] then NoCaptures(nc) else SetCapture(Replay(nc, ev[..|ev| - 1]), ev[|ev| - 1])
  }

  /** What a thread holds is the replay of an actual path to where it is. */
  ghost predicate Genuine(x: Setup, nc: nat, pos: nat, pc: nat, captures: seq<Span>) {
    exists ev :: Reachable(x, Config(pc, pos, ev)) && captures == Replay(nc, ev)
  }

  /** t matched `rc` when the run was at position pos. */
  ghost predicate MatchedAt(x: Setup, nc: nat, t: Thread, rc: int, pos: nat) {
    && t.state == Matched && rc >= 0 && rc == t.id && 0 < t.pc <= |x.p| && x.p[t.pc - 1] == Match(rc)
    && Genuine(x, nc, pos, t.pc - 1, t.captures)
  }

  lemma GenuineStep(x: Setup, nc: nat, pos: nat, pc: nat, captures: seq<Span>, pos': nat, pc': nat)
    requires Genuine(x, nc, pos, pc, captures) && pc < |x.p|
    requires !x.p[pc].Capture?
    requires forall ev :: Step(x.p, x.s, Config(pc, pos, ev), Config(pc', pos', ev))
    ensures Genuine(x, nc, pos', pc', captures)
  {
    var ev :| Reachable(x, Config(pc, pos, ev)) && captures == Replay(nc, ev);
    ReachableStep(x, Config(pc, pos, ev), Config(pc', pos', ev));
  }

  lemma GenuineCapture(x: Setup, nc: nat, pos: nat, pc: nat, captures: seq<Span>)
    requires Genuine(x, nc, pos, pc, captures) && pc < |x.p| && x.p[pc].Capture?
    ensures Genuine(x, nc, pos, pc + 1, SetCapture(captures, Event(x.p[pc].end, x.p[pc].n, pos)))
  {
    var ev :| Reachable(x, Config(pc, pos, ev)) && captures == Replay(nc, ev);
    var ev' := ev + [Event(x.p[pc].end, x.p[pc].n, pos)];
    assert ev'[..|ev|] == ev;
    ReachableStep(x, Config(pc, pos, ev), Config(pc + 1, pos, ev'));
  }

  // ----- the sets of pcs while one byte is being run -----

  /**
   d has been run on this byte, q waits in the queue, n waits for the next byte; `extra` is
   the pc of the thread being run and `cons` the pc of a thread that has just consumed the
   byte.  `seen` says whether a MATCH was run.
   */
  ghost predicate Sets(x: Setup, pos: nat, from: set<nat>, seen: bool,
                       d: set<nat>, q: set<nat>, n: set<nat>, extra: set<nat>, cons: set<nat>)
  {
    && (forall pc :: pc in d + q + extra ==> pc < |x.p|)
    && (forall pc {:trigger InClosure(x, pos, from, pc)} :: pc in d + q + extra ==> InClosure(x, pos, from, pc))
    && from <= d + q + extra
    && ClosedUnder(x, pos, d, q + extra)
    && IsSuccessors(x, d, At(x.s, pos), n + cons)
    && (forall pc :: pc in d && x.p[pc].Match? ==> seen)
  }

  lemma SuccessorsRun(x: Setup, c: int, d: set<nat>, n: set<nat>, pc: nat, cons: set<nat>)
    requires IsSuccessors(x, d, c, n + {}) && cons == if PassesByte(x, pc, c) then {pc + 1} else {}
    ensures IsSuccessors(x, d + {pc}, c, n + cons)
  {
    forall b
      ensures b in n + cons <==> exists a :: a in d + {pc} && PassesByte(x, a, c) && b == a + 1
    {
      if b in n {
        assert b in n + {};
        var a :| a in d && PassesByte(x, a, c) && b == a + 1;
        assert a in d + {pc};
      } else if b in cons {
        assert pc in d + {pc};
      }
      if a :| a in d + {pc} && PassesByte(x, a, c) && b == a + 1 {
        if a != pc { assert b in n + {}; }
      }
    }
  }

  /** Running the instruction at pc once, with q' the queue after a possible fork. */
  lemma SetsRun(x: Setup, pos: nat, from: set<nat>, seen: bool, d: set<nat>, q: set<nat>, n: set<nat>,
                pc: nat, q': set<nat>, extra: set<nat>, cons: set<nat>, seen': bool)
    requires Sets(x, pos, from, seen, d, q, n, {pc}, {}) && pc !in d
    requires q <= q' && (q' - q) + extra <= EpsSuccs(x, pos, pc) <= d + {pc} + q' + extra
    requires forall b :: b in EpsSuccs(x, pos, pc) ==> b < |x.p|
    requires cons == if PassesByte(x, pc, At(x.s, pos)) then {pc + 1} else {}
    requires seen' == (seen || x.p[pc].Match?)
    ensures Sets(x, pos, from, seen', d + {pc}, q', n, extra, cons)
  {
    hide IsSuccessors, PassesByte, InClosure;
    forall b | b in d + {pc} + q' + extra
      ensures b < |x.p| && InClosure(x, pos, from, b)
    {
      assert InClosure(x, pos, from, pc);
      if b !in d + q + {pc} { ClosureStep(x, pos, from, pc, b); }
    }
    SuccessorsRun(x, At(x.s, pos), d, n, pc, cons);
  }

  // ----- the effect of one instruction on a thread -----

  datatype Outcome = Outcome(thr: Thread, rc: int, go: bool)

  function Effect(x: Setup, pos: nat, t: Thread): Outcome
    requires t.pc < |x.p|
  {
    var u := t.(pc := t.pc + 1);
    var dead := Outcome(u.(state := Dead), -1, false);
    match x.p[t.pc]
    case Range(_, _) => if Consumes(x.p[t.pc], At(x.s, pos)) then Outcome(u, -1, false) else dead
    case Class(neg, frontier, cc) =>
      if frontier then (if FrontierMatch(neg, cc, x.s, pos) then Outcome(u, -1, true) else dead)
      else if Consumes(x.p[t.pc], At(x.s, pos)) then Outcome(u, -1, false) else dead
    case Capture(end, n) => Outcome(u.(captures := SetCapture(t.captures, Event(end, n, pos))), -1, true)
    case Match(id) => Outcome(u.(state := Matched, id := id), id, false)
    case Jmp(target) => Outcome(u.(pc := target), -1, true)
    case Fork(_) => Outcome(u, -1, true)
  }

  /** The pc at which a fork wants a second thread. */
  function Forked(insn: Insn): set<nat> {
    if insn.Fork? then {insn.target} else {}
  }

  lemma ForkedSet(insn: Insn, q: set<nat>, d: set<nat>)
    ensures !insn.Fork? ==> q + (Forked(insn) - d) == q
    ensures insn.Fork? ==> q + (Forked(insn) - d) == q + if insn.target in d then {} else {insn.target}
  {
  }

  lemma EffectSets(x: Setup, nc: nat, pos: nat, from: set<nat>, seen: bool,
                   d: set<nat>, q: set<nat>, n: set<nat>, t: Thread)
    requires WellFormed(x.p, x.inits, nc) && t.state == Live && t.pc < |x.p|
    requires Sets(x, pos, from, seen, d, q, n, {t.pc}, {}) && t.pc !in d
    ensures var Outcome(u, _, go) := Effect(x, pos, t);
            Sets(x, pos, from, seen || u.state == Matched, d + {t.pc}, q + (Forked(x.p[t.pc]) - (d + {t.pc})), n,
                 if go then {u.pc} else {}, if u.state == Live && !go then {u.pc} else {})
    ensures var Outcome(u, _, go) := Effect(x, pos, t); u.state == Live ==> u.pc < |x.p|
  {
    hide Sets, WellFormed, FrontierMatch, ClassMatch;
    InsnInRange(x.p, x.inits, nc, t.pc);
    var Outcome(u, _, go) := Effect(x, pos, t);
    SetsRun(x, pos, from, seen, d, q, n, t.pc, q + (Forked(x.p[t.pc]) - (d + {t.pc})), if go then {u.pc} else {},
            if u.state == Live && !go then {u.pc} else {}, seen || u.state == Matched);
  }

  lemma EffectShape(x: Setup, pos: nat, t: Thread)
    requires t.state == Live && t.pc < |x.p|
    ensures var Outcome(u, rc, go) := Effect(x, pos, t);
            && (u.state != Matched ==> rc == -1) && (u.state != Live ==> !go)
            && (u.state == Matched ==>
                  rc >= 0 && rc == u.id && u.pc == t.pc + 1 && x.p[t.pc] == Match(rc) && u.captures == t.captures)
  {
  }

  lemma EffectGenuine(x: Setup, nc: nat, pos: nat, t: Thread)
    requires t.state == Live && t.pc < |x.p| && Genuine(x, nc, pos, t.pc, t.captures)
    ensures var Outcome(u, _, go) := Effect(x, pos, t);
            && (go ==> Genuine(x, nc, pos, u.pc, u.captures))
            && (u.state == Live && !go && pos < |x.s| ==> Genuine(x, nc, pos + 1, u.pc, u.captures))
  {
    hide Genuine, FrontierMatch, ClassMatch, SetCapture;
    var Outcome(u, _, go) := Effect(x, pos, t);
    if x.p[t.pc].Capture? {
      GenuineCapture(x, nc, pos, t.pc, t.captures);
    } else if go {
      GenuineStep(x, nc, pos, t.pc, t.captures, pos, u.pc);
    } else if u.state == Live && pos < |x.s| {
      GenuineStep(x, nc, pos, t.pc, t.captures, pos + 1, u.pc);
    }
  }

  /** A thread that arrives at a pc already run is dropped. */
  lemma SetsDrop(x: Setup, pos: nat, from: set<nat>, seen: bool, d: set<nat>, q: set<nat>, n: set<nat>, pc: nat)
    requires Sets(x, pos, from, seen, d, q, n, {pc}, {}) && pc in d
    ensures Sets(x, pos, from, seen, d, q, n, {}, {})
  {
  }

  lemma SetsBounded(x: Setup, pos: nat, from: set<nat>, seen: bool,
                    d: set<nat>, q: set<nat>, n: set<nat>, extra: set<nat>, cons: set<nat>)
    requires Sets(x, pos, from, seen, d, q, n, extra, cons)
    ensures |d| <= |x.p| && |d + extra| <= |x.p|
  {
    Bounded(d, |x.p|);
    Bounded(d + extra, |x.p|);
  }

  lemma SetsStart(x: Setup, pos: nat, from: set<nat>)
    requires forall pc :: pc in from ==> pc < |x.p|
    ensures Sets(x, pos, from, false, {}, from, {}, {}, {})
  {
    forall pc | pc in from { ClosureRefl(x, pos, from, pc); }
  }

  lemma SetsPop(x: Setup, pos: nat, from: set<nat>, seen: bool, d: set<nat>, q: set<nat>, n: set<nat>, pc: nat)
    requires Sets(x, pos, from, seen, d, q, n, {}, {}) && pc in q
    ensures Sets(x, pos, from, seen, d, q - {pc}, n, {pc}, {}) && pc < |x.p|
  {
    assert d + (q - {pc}) + {pc} == d + q + {};
  }

  lemma SetsKeep(x: Setup, pos: nat, from: set<nat>, seen: bool, d: set<nat>, q: set<nat>, n: set<nat>, pc: nat)
    requires Sets(x, pos, from, seen, d, q, n, {}, {pc})
    ensures Sets(x, pos, from, seen, d, q, n + {pc}, {}, {})
  {
    assert (n + {pc}) + {} == n + {pc};
  }

  lemma SuccessorsInRange(x: Setup, nc: nat, d: set<nat>, c: int, n: set<nat>)
    requires WellFormed(x.p, x.inits, nc) && IsSuccessors(x, d, c, n)
    ensures forall pc :: pc in n ==> pc < |x.p|
  {
  }

  /** With the queue empty the pcs run are the closure and the next queue its successors. */
  lemma SetsDone(x: Setup, pos: nat, from: set<nat>, seen: bool, d: set<nat>, n: set<nat>)
    requires Sets(x, pos, from, seen, d, {}, n, {}, {})
    ensures IsClosure(x, pos, from, d) && IsSuccessors(x, d, At(x.s, pos), n)
    ensures forall pc :: pc in d ==> pc < |x.p| && (x.p[pc].Match? ==> seen)
    ensures |d| <= |x.p|
  {
    Bounded(d, |x.p|);
    forall pc
      ensures pc in d <==> InClosure(x, pos, from, pc)
    {
      if InClosure(x, pos, from, pc) { ClosedContains(x, pos, from, d, pc); }
    }
    assert n + {} == n;
  }

  // ----- thread queues -----

  /** The pcs of a queue are distinct and make up exactly the set m. */
  ghost predicate QueueOf(q: seq<Thread>, m: set<nat>) {
    && (forall k :: 0 <= k < |q| ==> q[k].state == Live && q[k].pc in m)
    && (forall pc :: pc in m ==> exists k :: 0 <= k < |q| && q[k].pc == pc)
    && (forall j, k :: 0 <= j < k < |q| ==> q[j].pc != q[k].pc)
  }

  ghost predicate AllGenuine(x: Setup, nc: nat, pos: nat, q: seq<Thread>) {
    forall k :: 0 <= k < |q| ==> Genuine(x, nc, pos, q[k].pc, q[k].captures)
  }

  lemma QueuePush(q: seq<Thread>, m: set<nat>, t: Thread)
    requires QueueOf(q, m) && t.state == Live && t.pc !in m
    ensures QueueOf(q + [t], m + {t.pc})
  {
    forall pc | pc in m + {t.pc}
      ensures exists k :: 0 <= k < |q + [t]| && (q + [t])[k].pc == pc
    {
      if pc == t.pc {
        assert (q + [t])[|q|].pc == pc;
      } else {
        var k :| 0 <= k < |q| && q[k].pc == pc;
        assert (q + [t])[k].pc == pc;
      }
    }
  }

  /** Queueing the child of a fork, unless its pc was run or is queued already. */
  lemma ForkKeepsQueue(x: Setup, nc: nat, pos: nat, q: seq<Thread>, m: set<nat>, done: set<nat>, t: Thread)
    requires QueueOf(q, m) && AllGenuine(x, nc, pos, q)
    requires t.state == Live && Genuine(x, nc, pos, t.pc, t.captures)
    ensures t.pc !in m + done ==> QueueOf(q + [t], m + {t.pc}) && AllGenuine(x, nc, pos, q + [t])
  {
    if t.pc !in m { QueuePush(q, m, t); }
  }

  lemma QueueNone()
    ensures QueueOf([], {})
  {
  }

  lemma GenuineStart(x: Setup, nc: nat, pc: nat)
    requires pc in x.inits
    ensures Genuine(x, nc, 0, pc, NoCaptures(nc))
  {
    ReachableStart(x, pc);
    assert Replay(nc, []) == NoCaptures(nc);
  }

  lemma QueueEmpty(q: seq<Thread>, m: set<nat>)
    requires QueueOf(q, m) && q == []
    ensures m == {}
  {
  }

  lemma QueuePop(x: Setup, nc: nat, pos: nat, q: seq<Thread>, m: set<nat>)
    requires QueueOf(q, m) && AllGenuine(x, nc, pos, q) && q != []
    ensures q[0].state == Live && q[0].pc in m && Genuine(x, nc, pos, q[0].pc, q[0].captures)
    ensures QueueOf(q[1..], m - {q[0].pc}) && AllGenuine(x, nc, pos, q[1..])
  {
    hide Genuine;
    forall pc | pc in m - {q[0].pc}
      ensures exists k :: 0 <= k < |q[1..]| && q[1..][k].pc == pc
    {
      var k :| 0 <= k < |q| && q[k].pc == pc;
      assert q[1..][k - 1].pc == pc;
    }
  }

  /** struct aem_nfa_run. */
  class Run {
    const pgm: Program
    const nCaptures: nat
    ghost const inits: set<nat>
    ghost const input: seq<Byte>

    var curr: seq<Thread>      // queue of threads to run on this byte
    var next: seq<Thread>      // queue of threads to run on the next byte
    var mapCurr: seq<Word>     // pcs waiting in curr
    var mapNext: seq<Word>     // pcs waiting in next
    var mapDone: seq<Word>     // pcs already run on this byte
    var pCurr: nat
    var cPrev: int
    ghost var executed: nat    // instructions run on this byte

    ghost function X(): Setup {
      Setup(pgm, inits, input)
    }

    predicate Maps()
      reads this
    {
      |mapCurr| == |mapNext| == |mapDone| == Words(|pgm|)
    }

    constructor (pgm: Program, nCaptures: nat, ghost inits: set<nat>, ghost input: seq<Byte>)
      ensures this.pgm == pgm && this.nCaptures == nCaptures && this.inits == inits && this.input == input
      ensures Maps() && cPrev == -1 && pCurr == 0
      ensures curr == [] && next == [] && Members(mapNext) == {} && Members(mapCurr) == {}
    {
      this.pgm, this.nCaptures, this.inits, this.input := pgm, nCaptures, inits, input;
      curr, next, pCurr, cPrev, executed := [], [], 0, -1, 0;
      mapCurr, mapNext, mapDone := Zeros(Words(|pgm|)), Zeros(Words(|pgm|)), Zeros(Words(|pgm|));
    }

    /** The queues, with curr[i..] still to be run, hold distinct pcs and genuine captures. */
    ghost predicate Queues(i: nat)
      reads this`curr, this`next, this`mapCurr, this`mapNext, this`pCurr
    {
      && i <= |curr|
      && QueueOf(curr[i..], Members(mapCurr)) && QueueOf(next, Members(mapNext))
      && AllGenuine(X(), nCaptures, pCurr, curr[i..])
      && (pCurr < |input| ==> AllGenuine(X(), nCaptures, pCurr + 1, next))
    }

    /** The state between two instructions on the byte at pCurr. */
    ghost predicate Working(i: nat, from: set<nat>, seen: bool, extra: set<nat>, cons: set<nat>)
      reads this
    {
      && Maps() && Queues(i)
      && Sets(X(), pCurr, from, seen, Members(mapDone), Members(mapCurr), Members(mapNext), extra, cons)
      && cPrev == Prev(input, pCurr)
      && executed == |Members(mapDone)|
    }

    /** aem_nfa_thread_add: the first thread at a pc wins. */
    method ThreadAdd(toNext: bool, thr: Thread)
      requires Maps() && thr.pc < |pgm|
      modifies this`curr, this`next, this`mapCurr, this`mapNext
      ensures Maps()
      ensures toNext ==> curr == old(curr) && mapCurr == old(mapCurr)
      ensures toNext ==> Members(mapNext) == old(Members(mapNext)) + {thr.pc}
      ensures toNext ==> next == if thr.pc in old(Members(mapNext)) then old(next) else old(next) + [thr]
      ensures !toNext ==> next == old(next) && mapNext == old(mapNext)
      ensures !toNext && thr.pc in old(Members(mapCurr)) + Members(mapDone) ==>
                curr == old(curr) && mapCurr == old(mapCurr)
      ensures !toNext && thr.pc !in old(Members(mapCurr)) + Members(mapDone) ==>
                curr == old(curr) + [thr] && Members(mapCurr) == old(Members(mapCurr)) + {thr.pc}
    {
      if Test(if toNext then mapNext else mapCurr, thr.pc) || (!toNext && Test(mapDone, thr.pc)) {
        return;
      }
      if toNext {
        mapNext := Set(mapNext, thr.pc);
        next := next + [thr];
      } else {
        mapCurr := Set(mapCurr, thr.pc);
        curr := curr + [thr];
      }
    }

    /** Create a thread without captures at every initial pc, to run on the first byte. */
    method InitThreads(thrInit: seq<Word>)
      requires Maps() && next == [] && Members(mapNext) == {} && |pgm| <= 32 * |thrInit|
      requires inits == Members(thrInit) && forall i :: i in inits ==> i < |pgm|
      modifies this`curr, this`next, this`mapCurr, this`mapNext
      ensures Maps() && Members(mapNext) == inits && QueueOf(next, inits)
      ensures AllGenuine(X(), nCaptures, 0, next)
    {
      hide Members, QueueOf, Genuine;
      QueueNone();
      for pc := 0 to |pgm|
        invariant Maps() && QueueOf(next, Members(mapNext)) && AllGenuine(X(), nCaptures, 0, next)
        invariant forall i :: i in Members(mapNext) <==> i in inits && i < pc
      {
        if Test(thrInit, pc) {
          GenuineStart(X(), nCaptures, pc);
          var thr := Thread(pc, Live, NoCaptures(nCaptures), -1);
          QueuePush(next, Members(mapNext), thr);
          ThreadAdd(true, thr);
        }
      }
      assert Members(mapNext) == inits;
    }

    /** Move next to curr, clear next and done; `live` if any thread is left. */
    method NextByte() returns (live: bool)
      requires Maps()
      modifies this`curr, this`next, this`mapCurr, this`mapNext, this`mapDone, this`executed
      ensures Maps() && curr == old(next) && next == [] && mapCurr == old(mapNext) && executed == 0
      ensures Members(mapNext) == {} && Members(mapDone) == {}
      ensures live <==> Members(mapCurr) != {}
    {
      mapCurr := mapNext;
      mapNext, mapDone := Zeros(|mapCurr|), Zeros(|mapCurr|);
      curr, next, executed := next, [], 0;
      live := false;
      for i := 0 to |mapCurr|
        invariant live <==> exists k :: 0 <= k < i && mapCurr[k] != ZERO
      {
        live := live || mapCurr[i] != ZERO;
      }
      EmptyMembers(mapCurr);
    }

    /** Queue the thread that a fork creates, with a copy of its parent's captures. */
    method AddChild(child: Thread, ghost i: nat)
      requires Maps() && Queues(i) && child.state == Live && child.pc < |pgm|
      requires Genuine(X(), nCaptures, pCurr, child.pc, child.captures)
      modifies this`curr, this`mapCurr, this`next, this`mapNext
      ensures Maps() && Queues(i) && Members(mapNext) == old(Members(mapNext))
      ensures Members(mapCurr) == old(Members(mapCurr)) + if child.pc in Members(mapDone) then {} else {child.pc}
      ensures old(|curr|) <= |curr|
      ensures |curr| == old(|curr|) || child.pc !in old(Members(mapCurr)) + Members(mapDone)
    {
      hide Genuine, AllGenuine, Members, QueueOf;
      ForkKeepsQueue(X(), nCaptures, pCurr, curr[i..], Members(mapCurr), Members(mapDone), child);
      assert (curr + [child])[i..] == curr[i..] + [child];
      ThreadAdd(false, child);
    }

    /**
     One turn of the loop in aem_nfa_thread_step: run the instruction at thr.pc, which has
     not been run on this byte.  `go` says whether the thread goes on at once.
     */
    method RunInsn(thr0: Thread, c: int, ghost i: nat) returns (thr: Thread, rc: int, go: bool)
      requires WellFormed(pgm, inits, nCaptures)
      requires thr0.state == Live && thr0.pc < |pgm| && c == At(input, pCurr) && cPrev == Prev(input, pCurr)
      requires Maps() && Queues(i) && thr0.pc !in Members(mapDone) && executed == |Members(mapDone)|
      requires Genuine(X(), nCaptures, pCurr, thr0.pc, thr0.captures)
      modifies this`curr, this`mapCurr, this`mapDone, this`next, this`mapNext, this`executed
      ensures Maps() && Queues(i) && executed == |Members(mapDone)|
      ensures Outcome(thr, rc, go) == Effect(X(), pCurr, thr0) && old(|curr|) <= |curr|
      ensures Members(mapNext) == old(Members(mapNext))
      ensures Members(mapDone) == old(Members(mapDone)) + {thr0.pc}
      ensures Members(mapCurr) == old(Members(mapCurr)) + (Forked(pgm[thr0.pc]) - Members(mapDone))
      ensures executed == old(executed) + 1
    {
      hide Genuine, Queues, Members, WellFormed, ClassMatch, SetCapture, Prev, At;
      InsnInRange(pgm, inits, nCaptures, thr0.pc);
      mapDone := Set(mapDone, thr0.pc);
      executed := executed + 1;
      assert Queues(i);
      var insn := pgm[thr0.pc];
      ForkedSet(insn, Members(mapCurr), Members(mapDone));
      hide Forked;
      thr, rc, go := thr0.(pc := thr0.pc + 1), -1, false;
      match insn {
        case Range(lo, hi) =>
          if !(lo <= c <= hi) {
            thr := thr.(state := Dead);
          }
        case Class(neg, frontier, cc) =>
          var m := ClassMatch(neg, cc, c);
          if frontier && m {
            m := !ClassMatch(neg, cc, cPrev);
          }
          if !m {
            thr := thr.(state := Dead);
          } else {
            go := frontier;
          }
        case Capture(end, k) =>
          if k >= nCaptures {
            assert false;  // the VM's "Invalid capture" error
          }
          thr, go := thr.(captures := SetCapture(thr.captures, Event(end, k, pCurr))), true;
        case Match(id) =>
          thr, rc := thr.(state := Matched, id := id), id;
        case Jmp(t) =>
          if t >= |pgm| {
            assert false;  // the VM's "Invalid pc" error
          }
          thr, go := thr.(pc := t), true;
        case Fork(t) =>
          if t >= |pgm| {
            assert false;  // the VM's "Invalid pc" error
          }
          var child := Thread(t, Live, thr.captures, -1);
          GenuineStep(X(), nCaptures, pCurr, thr0.pc, thr.captures, pCurr, t);
          AddChild(child, i);
          go := true;
      }
    }

    /** aem_nfa_thread_step: run thr until it consumes the byte, matches or dies. */
    method ThreadStep(thr0: Thread, c: int, ghost i: nat, ghost from: set<nat>, ghost seen: bool)
      returns (thr: Thread, rc: int)
      requires WellFormed(pgm, inits, nCaptures)
      requires thr0.state == Live && thr0.pc < |pgm| && c == At(input, pCurr) && i <= |curr|
      requires Working(i, from, seen, {thr0.pc}, {})
      requires Genuine(X(), nCaptures, pCurr, thr0.pc, thr0.captures)
      modifies this`curr, this`mapCurr, this`mapDone, this`next, this`mapNext, this`executed
      ensures Working(i, from, seen || thr.state == Matched, {}, if thr.state == Live then {thr.pc} else {})
      ensures thr.state == Live ==> rc == -1 && thr.pc < |pgm|
      ensures thr.state == Live && c >= 0 ==> Genuine(X(), nCaptures, pCurr + 1, thr.pc, thr.captures)
      ensures thr.state == Dead ==> rc == -1
      ensures thr.state == Matched ==> rc >= 0 && MatchedAt(X(), nCaptures, thr, rc, pCurr)
      ensures i <= |curr| && old(executed) <= executed && (executed == old(executed) ==> |curr| == old(|curr|))
    {
      hide Genuine, Queues, Members, Sets, WellFormed, Effect, Forked;
      thr := thr0;
      while true
        invariant thr.state == Live && thr.pc < |pgm|
        invariant Working(i, from, seen, {thr.pc}, {})
        invariant Genuine(X(), nCaptures, pCurr, thr.pc, thr.captures)
        invariant i <= |curr| && old(executed) <= executed && (executed == old(executed) ==> |curr| == old(|curr|))
        decreases |pgm| - executed
      {
        if thr.pc >= |pgm| {
          assert false;  // the VM's "Invalid pc" error
        }
        ghost var d, q, n := Members(mapDone), Members(mapCurr), Members(mapNext);
        SetsBounded(X(), pCurr, from, seen, d, q, n, {thr.pc}, {});
        if Test(mapDone, thr.pc) {
          SetsDrop(X(), pCurr, from, seen, d, q, n, thr.pc);
          return thr.(state := Dead), -1;
        }
        var go;
        EffectSets(X(), nCaptures, pCurr, from, seen, d, q, n, thr);
        EffectGenuine(X(), nCaptures, pCurr, thr);
        EffectShape(X(), pCurr, thr);
        thr, rc, go := RunInsn(thr, c, i);
        if !go {
          return;
        }
      }
    }

    /** Take the thread at the head of the queue: its pc no longer waits. */
    method PopThread(i: nat, ghost from: set<nat>, ghost seen: bool)
      requires Working(i, from, seen, {}, {}) && i < |curr|
      modifies this`mapCurr
      ensures Working(i + 1, from, seen, {curr[i].pc}, {})
      ensures curr[i].state == Live && curr[i].pc < |pgm|
      ensures Genuine(X(), nCaptures, pCurr, curr[i].pc, curr[i].captures)
    {
      hide Genuine, Members, QueueOf, AllGenuine, Sets;
      assert curr[i..][0] == curr[i] && curr[i..][1..] == curr[i + 1..];
      QueuePop(X(), nCaptures, pCurr, curr[i..], Members(mapCurr));
      SetsPop(X(), pCurr, from, seen, Members(mapDone), Members(mapCurr), Members(mapNext), curr[i].pc);
      mapCurr := Clear(mapCurr, curr[i].pc);
    }

    /** A thread that has consumed the byte waits for the next one. */
    method KeepThread(thr: Thread, ghost i: nat, ghost from: set<nat>, ghost seen: bool)
      requires Working(i, from, seen, {}, {thr.pc}) && thr.state == Live && thr.pc < |pgm|
      requires pCurr < |input| ==> Genuine(X(), nCaptures, pCurr + 1, thr.pc, thr.captures)
      modifies this`curr, this`next, this`mapCurr, this`mapNext
      ensures Working(i, from, seen, {}, {})
      ensures curr == old(curr) && mapCurr == old(mapCurr)
    {
      hide Genuine, Members, Sets, QueueOf, AllGenuine;
      SetsKeep(X(), pCurr, from, seen, Members(mapDone), Members(mapCurr), Members(mapNext), thr.pc);
      if thr.pc !in Members(mapNext) {
        QueuePush(next, Members(mapNext), thr);
        if pCurr < |input| {
          ForkKeepsQueue(X(), nCaptures, pCurr + 1, next, Members(mapNext), {}, thr);
        }
      }
      assert thr.pc in Members(mapNext) ==> Members(mapNext) + {thr.pc} == Members(mapNext);
      ThreadAdd(true, thr);
    }

    lemma ByteStart()
      requires QueueOf(curr, Members(mapCurr)) && AllGenuine(X(), nCaptures, pCurr, curr)
      requires next == [] && Members(mapNext) == {}
      ensures Queues(0)
    {
      hide Members, Genuine;
      assert curr[0..] == curr;
    }

    lemma FinishByte(from: set<nat>, seen: bool)
      requires Working(|curr|, from, seen, {}, {})
      ensures QueueOf(next, Members(mapNext))
      ensures pCurr < |input| ==> AllGenuine(X(), nCaptures, pCurr + 1, next)
      ensures IsClosure(X(), pCurr, from, Members(mapDone))
      ensures IsSuccessors(X(), Members(mapDone), At(input, pCurr), Members(mapNext))
      ensures forall pc :: pc in Members(mapDone) ==> pc < |pgm| && (pgm[pc].Match? ==> seen)
      ensures |Members(mapDone)| <= |pgm|
    {
      hide Genuine, Members, AllGenuine, Sets, QueueOf, IsClosure, IsSuccessors;
      QueueEmpty(curr[|curr|..], Members(mapCurr));
      SetsDone(X(), pCurr, from, seen, Members(mapDone), Members(mapNext));
    }

    /** The body of that loop: the i-th thread of the queue, until it has had the byte. */
    method RunThread(i: nat, c: int, ghost from: set<nat>, ghost seen: bool) returns (thr: Thread, rc: int)
      requires WellFormed(pgm, inits, nCaptures)
      requires Working(i, from, seen, {}, {}) && i < |curr| && c == At(input, pCurr)
      modifies this`curr, this`mapCurr, this`mapDone, this`next, this`mapNext, this`executed
      ensures Working(i + 1, from, seen || thr.state == Matched, {}, {}) && i + 1 <= |curr|
      ensures thr.state == Matched ==> rc >= 0 && MatchedAt(X(), nCaptures, thr, rc, pCurr)
      ensures thr.state != Matched ==> rc == -1
      ensures old(executed) <= executed && (executed == old(executed) ==> |curr| == old(|curr|))
    {
      hide Genuine, Members, WellFormed, MatchedAt, Sets, Queues;
      thr := curr[i];
      PopThread(i, from, seen);
      thr, rc := ThreadStep(thr, c, i + 1, from, seen);
      match thr.state
      case Live => KeepThread(thr, i + 1, from, seen);
      case Dead =>
      case Matched =>
    }

    /**
     All threads of one byte.  The queue grows while it is worked off; every pc is run at most
     once, the pcs run are the closure of the queued ones, and the next queue holds exactly
     the pcs past the byte.
     */
    method RunByte(c: int, ghost from: set<nat>) returns (rc: int, matched: Option<Thread>)
      requires WellFormed(pgm, inits, nCaptures)
      requires c == At(input, pCurr) && cPrev == Prev(input, pCurr)
      requires Maps() && Queues(0) && next == [] && executed == 0
      requires Members(mapCurr) == from && Members(mapNext) == {} && Members(mapDone) == {}
      requires forall pc :: pc in from ==> pc < |pgm|
      modifies this`curr, this`mapCurr, this`mapDone, this`next, this`mapNext, this`executed
      ensures Maps() && QueueOf(next, Members(mapNext))
      ensures c >= 0 ==> AllGenuine(X(), nCaptures, pCurr + 1, next)
      ensures IsClosure(X(), pCurr, from, Members(mapDone))
      ensures IsSuccessors(X(), Members(mapDone), c, Members(mapNext))
      ensures forall pc :: pc in Members(mapNext) ==> pc < |pgm|
      ensures executed == |Members(mapDone)| <= |pgm|
      ensures matched.None? ==> rc == -1 && forall pc :: pc in Members(mapDone) ==> pc < |pgm| && !pgm[pc].Match?
      ensures matched.Some? ==> MatchedAt(X(), nCaptures, matched.value, rc, pCurr)
    {
      hide Genuine, Queues, Members, Sets, WellFormed, MatchedAt, IsClosure, IsSuccessors, QueueOf, AllGenuine;
      rc, matched := -1, None;
      SetsStart(X(), pCurr, from);
      assert curr[0..] == curr;
      var i := 0;
      while i < |curr|
        invariant 0 <= i <= |curr|
        invariant Working(i, from, matched.Some?, {}, {})
        invariant matched.None? ==> rc == -1
        invariant matched.Some? ==> MatchedAt(X(), nCaptures, matched.value, rc, pCurr)
        decreases |pgm| - executed, |curr| - i
      {
        SetsBounded(X(), pCurr, from, matched.Some?, Members(mapDone), Members(mapCurr), Members(mapNext), {}, {});
        var thr, rc2 := RunThread(i, c, from, matched.Some?);
        i := i + 1;
        if rc2 >= 0 {
          rc := rc2;
        }
        if thr.state == Matched {
          matched := Some(thr);
        }
      }
      FinishByte(from, matched.Some?);
      SuccessorsInRange(X(), nCaptures, Members(mapDone), c, Members(mapNext));
    }
  }
}
