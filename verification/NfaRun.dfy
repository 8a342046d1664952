/** aem_nfa_run: the longest match of any pattern at the start of the input. */
module NfaRun {
  import opened Bytes
  import opened NfaInsn
  import opened NfaSemantics
  import opened NfaProgram
  import opened Ast
  import opened CompileFailure
  import opened CompiledTree
  import opened NfaObject
  import opened VmTheory
  import opened NfaVm
  import opened CaptureSpans
  import opened Bitfield
  import opened StringSlice

  /** struct aem_nfa_match: the match id and, after a match, the captures. */
  datatype MatchInfo = MatchInfo(captures: Option<seq<Span>>, id: int)

  /** No thread can stand at a MATCH at any position in [lo, hi). */
  ghost predicate NoMatchIn(x: Setup, lo: nat, hi: nat) {
    forall pc: nat, q: nat :: lo <= q < hi && PcAt(x, pc, q) ==> !(pc < |x.p| && x.p[pc].Match?)
  }

  /** The longest match among positions below pos. */
  ghost predicate BestBelow(x: Setup, nc: nat, matched: Option<Thread>, rc: int, end: nat, pos: nat) {
    match matched
    case None => rc == -1 && end == 0 && NoMatchIn(x, 0, pos)
    case Some(t) => MatchedAt(x, nc, t, rc, end) && end < pos && NoMatchIn(x, end + 1, pos)
  }

  /** What a run has to return. */
  ghost predicate LongestMatch(p: Program, inits: set<nat>, nc: nat, s: seq<Byte>, rc: int, end: nat, m: MatchInfo) {
    && m.id == rc
    && (rc == -1 || rc >= 0)
    && (rc == -1 ==>
          && end == 0 && m.captures == None
          && forall pos: nat, id: nat, ev :: !Accepts(p, inits, s, pos, id, ev))
    && (rc >= 0 ==>
          && end <= |s|
          && (exists ev :: Accepts(p, inits, s, end, rc, ev) && m.captures == Some(Replay(nc, ev)))
          && (forall pos: nat, id: nat, ev :: Accepts(p, inits, s, pos, id, ev) ==> pos <= end))
  }

  lemma AcceptsReachable(x: Setup, pos: nat, id: nat, ev: seq<Event>)
    ensures Accepts(x.p, x.inits, x.s, pos, id, ev) <==>
      exists pc: nat :: Reachable(x, Config(pc, pos, ev)) && pc < |x.p| && x.p[pc] == Match(id)
  {
    if Accepts(x.p, x.inits, x.s, pos, id, ev) {
      var i, b :| i in x.inits && AcceptsFrom(x.p, i, x.s, b) && b.pos == pos && b.ev == ev && x.p[b.pc] == Match(id);
      assert Start(x, Config(i, 0, []));
      assert Reachable(x, Config(b.pc, pos, ev));
    }
    if pc: nat :| Reachable(x, Config(pc, pos, ev)) && pc < |x.p| && x.p[pc] == Match(id) {
      var a :| Start(x, a) && Reaches(x.p, x.s, a, Config(pc, pos, ev));
      assert AcceptsFrom(x.p, a.pc, x.s, Config(pc, pos, ev));
    }
  }

  /** After the byte at pos. */
  lemma BestNext(x: Setup, nc: nat, matched: Option<Thread>, rc: int, end: nat, pos: nat,
                 from: set<nat>, done: set<nat>, found: Option<Thread>, rc2: int)
    requires BestBelow(x, nc, matched, rc, end, pos)
    requires Generates(x, pos, from) && IsClosure(x, pos, from, done)
    requires found.None? ==> forall pc :: pc in done ==> pc < |x.p| && !x.p[pc].Match?
    requires found.Some? ==> MatchedAt(x, nc, found.value, rc2, pos)
    ensures found.None? ==> BestBelow(x, nc, matched, rc, end, pos + 1)
    ensures found.Some? ==> BestBelow(x, nc, found, rc2, pos, pos + 1)
  {
    forall pc: nat | PcAt(x, pc, pos)
      ensures found.None? ==> !(pc < |x.p| && x.p[pc].Match?)
    {
      assert InClosure(x, pos, from, pc);
      assert pc in done;
    }
  }

  lemma NoneSoFar(x: Setup, nc: nat)
    ensures BestBelow(x, nc, None, -1, 0, 0)
  {
  }

  /** No position at or beyond pos has any thread. */
  ghost predicate NothingFrom(x: Setup, pos: nat) {
    forall pc: nat, q: nat :: PcAt(x, pc, q) ==> q < pos
  }

  lemma DeadIsDead(x: Setup, pos: nat)
    requires Generates(x, pos, {})
    ensures NothingFrom(x, pos)
  {
    forall pc: nat, q: nat | PcAt(x, pc, q)
      ensures q < pos
    {
      var ev :| Reachable(x, Config(pc, q, ev));
      var o :| Start(x, o) && Reaches(x.p, x.s, o, Config(pc, q, ev));
      var n: nat :| Steps(x.p, x.s, o, Config(pc, q, ev), n);
      DeadStaysDead(x, pos, o, Config(pc, q, ev), n);
    }
  }

  lemma NothingBeyondInput(x: Setup)
    ensures NothingFrom(x, |x.s| + 1)
  {
    forall pc: nat, q: nat | PcAt(x, pc, q)
      ensures q < |x.s| + 1
    {
      var ev :| Reachable(x, Config(pc, q, ev));
      var o :| Start(x, o) && Reaches(x.p, x.s, o, Config(pc, q, ev));
      var n: nat :| Steps(x.p, x.s, o, Config(pc, q, ev), n);
      InInput(x, o, Config(pc, q, ev), n);
    }
  }

  function Info(matched: Option<Thread>, rc: int): MatchInfo {
    match matched
    case None => MatchInfo(None, rc)
    case Some(t) => MatchInfo(Some(t.captures), t.id)
  }

  lemma BestIsLongest(x: Setup, nc: nat, matched: Option<Thread>, rc: int, end: nat, pos: nat)
    requires BestBelow(x, nc, matched, rc, end, pos) && NothingFrom(x, pos)
    ensures LongestMatch(x.p, x.inits, nc, x.s, rc, end, Info(matched, rc))
  {
    forall q: nat, id: nat, ev | Accepts(x.p, x.inits, x.s, q, id, ev)
      ensures matched.Some? && q <= end
    {
      AcceptsReachable(x, q, id, ev);
      var pc: nat :| Reachable(x, Config(pc, q, ev)) && pc < |x.p| && x.p[pc] == Match(id);
      assert PcAt(x, pc, q);
    }
    if matched.Some? {
      var t := matched.value;
      var ev :| Reachable(x, Config(t.pc - 1, end, ev)) && t.captures == Replay(nc, ev);
      AcceptsReachable(x, end, rc, ev);
      NothingBeyondInput(x);
      assert PcAt(x, t.pc - 1, end);
    }
  }

  /** Nothing that a pattern without dangling code matches is longer. */
  ghost predicate NoneLonger(ps: seq<Pattern>, sc: bool, s: seq<Byte>, rc: int, end: nat) {
    forall k, pos: nat, ev :: 0 <= k < |ps| && !Dangling(ps[k].tree) && Meaning(ps[k].tree, sc, s, pos, ev)
      ==> rc >= 0 && pos <= end
  }

  /** The captures are those of a match of t of this length, and each of them is what its group matched. */
  ghost predicate CapturesOf(t: Node, sc: bool, nc: nat, s: seq<Byte>, end: nat, captures: Option<seq<Span>>) {
    && (exists ev :: Meaning(t, sc, s, end, ev) && captures == Some(Replay(nc, ev)))
    && (Whole(t) ==> GroupsFit(t, sc, s, end, captures.value))
  }

  /** The patterns' own account of a run: the longest prefix that any of them matches. */
  ghost predicate LongestPattern(
      ps: seq<Pattern>, sc: bool, nc: nat, s: seq<Byte>, rc: int, end: nat, m: MatchInfo)
  {
    && NoneLonger(ps, sc, s, rc, end)
    && (NoneDangling(ps) && rc >= 0 ==>
          exists k :: 0 <= k < |ps| && ps[k].id == rc && CapturesOf(ps[k].tree, sc, nc, s, end, m.captures))
  }

  lemma MeaningCaptures(t: Node, sc: bool, nc: nat, s: seq<Byte>, end: nat, ev: seq<Event>)
    requires Meaning(t, sc, s, end, ev)
    ensures CapturesOf(t, sc, nc, s, end, Some(Replay(nc, ev)))
  {
    if Whole(t) {
      ReplayFits(nc, t, sc, s, end, ev);
    }
    hide OwnAccepts, Replay, GroupsFit, Effective, Whole;
  }

  /** End to end: what a run of the program finds is the longest match of the patterns in it. */
  lemma RunFindsPatterns(
      p: Program, inits: set<nat>, nc: nat, ps: seq<Pattern>, sc: bool, s: seq<Byte>, rc: int, end: nat, m: MatchInfo)
    requires Serves(p, inits, ps, sc) && LongestMatch(p, inits, nc, s, rc, end, m)
    ensures LongestPattern(ps, sc, nc, s, rc, end, m)
  {
    hide Accepts, Meaning, Dangling, NoneDangling, Replay;
    forall k, pos: nat, ev | 0 <= k < |ps| && !Dangling(ps[k].tree) && Meaning(ps[k].tree, sc, s, pos, ev)
      ensures rc >= 0 && pos <= end
    {
      assert Accepts(p, inits, s, pos, ps[k].id, ev);
    }
    if rc >= 0 && NoneDangling(ps) {
      var ev :| Accepts(p, inits, s, end, rc, ev) && m.captures == Some(Replay(nc, ev));
      assert Denotes(ps, sc, s, end, rc, ev);
      var k :| 0 <= k < |ps| && ps[k].id == rc && Meaning(ps[k].tree, sc, s, end, ev);
      MeaningCaptures(ps[k].tree, sc, nc, s, end, ev);
    }
  }

  method RunNfa(nfa: Nfa, input: Slice) returns (rc: int, m: MatchInfo)
    requires nfa.Valid() && input.Valid()
    modifies input`start
    ensures input.Valid() && old(input.start) <= input.start
    ensures LongestMatch(nfa.code, nfa.Inits(), nfa.nCaptures, old(input.Rest()), rc, input.start - old(input.start), m)
    ensures LongestPattern(nfa.patterns, nfa.signedChar, nfa.nCaptures, old(input.Rest()),
                           rc, input.start - old(input.start), m)
  {
    hide Genuine, Members, WellFormed, Serves, Generates, IsClosure, IsSuccessors, QueueOf, AllGenuine;
    hide MatchedAt, BestBelow, NothingFrom, LongestMatch, LongestPattern, Replay;
    ghost var s := input.Rest();
    var run := new Run(nfa.pgm[..nfa.nInsns], nfa.nCaptures, nfa.Inits(), s);
    ghost var x := Setup(nfa.code, nfa.Inits(), s);
    assert run.X() == x;
    rc := -1;
    var matched: Option<Thread> := None;
    var base, inStart, longest := input.start, input.start, input.start;
    WellFormedParts(nfa.code, nfa.Inits(), nfa.nCaptures);
    run.InitThreads(nfa.thrInit);
    GeneratesStart(x);
    NoneSoFar(x, nfa.nCaptures);
    ghost var pos := 0;
    while true
      invariant run.Maps() && input.start == base && pos <= |s| && inStart == base + pos
      invariant base <= longest <= input.end
      invariant QueueOf(run.next, Members(run.mapNext)) && AllGenuine(x, nfa.nCaptures, pos, run.next)
      invariant forall pc :: pc in Members(run.mapNext) ==> pc < |x.p|
      invariant run.cPrev == Prev(s, pos)
      invariant Generates(x, pos, Members(run.mapNext))
      invariant BestBelow(x, nfa.nCaptures, matched, rc, longest - base, pos)
      decreases |s| - pos
    {
      var live := run.NextByte();
      ghost var from := Members(run.mapCurr);
      if !live {
        DeadIsDead(x, pos);
        break;
      }
      run.pCurr := inStart - base;
      var c: int := -1;
      if inStart != input.end {
        c := input.mem[inStart];
        inStart := inStart + 1;
      }
      assert c == At(s, pos);
      run.ByteStart();
      var rc2, found := run.RunByte(c, from);
      BestNext(x, nfa.nCaptures, matched, rc, longest - base, pos, from, Members(run.mapDone), found, rc2);
      if found.Some? {
        rc, matched, longest := rc2, found, base + run.pCurr;
      }
      if c < 0 {
        NothingBeyondInput(x);
        pos := pos + 1;
        break;
      }
      GeneratesNext(x, pos, from, Members(run.mapDone), Members(run.mapNext));
      run.cPrev := c;
      pos := pos + 1;
    }
    BestIsLongest(x, nfa.nCaptures, matched, rc, longest - base, pos);
    m := Info(matched, rc);
    RunFindsPatterns(nfa.code, nfa.Inits(), nfa.nCaptures, nfa.patterns, nfa.signedChar, s, rc, longest - base, m);
    input.start := longest;
  }
}
