/**
 What appending any pattern at all does to a program, dangling or not: the forks and jumps that were never
 patched let a thread of the new pattern go on at address 0, in the code that was there before.
 */
module StrayJumps {
  import opened Bytes
  import opened NfaInsn
  import opened NfaSemantics
  import opened Ast
  import opened Codegen
  import opened CompileFailure
  import opened NfaProgram

  /** n steps, the last of which is the first one to leave the code from base on. */
  ghost predicate Stray(q: Program, base: nat, s: seq<Byte>, a: Config, c: Config, n: nat)
    decreases n
  {
    && a.pc >= base && n > 0
    && exists m :: Step(q, s, a, m) && if m.pc < base then m == c && n == 1 else Stray(q, base, s, m, c, n - 1)
  }

  /** A thread of the pattern t, appended to p, gets to c in the old code. */
  ghost predicate StraysTo(p: Program, t: Node, id: nat, sc: bool, s: seq<Byte>, c: Config) {
    exists n: nat :: Stray(AddCode(p, t, id, sc), |p|, s, Config(|p|, 0, []), c, n)
  }

  /** A thread of the pattern t, appended to p, gets to the MATCH of t. */
  ghost predicate Arrives(p: Program, t: Node, id: nat, sc: bool, s: seq<Byte>, pos: nat, ev: seq<Event>) {
    var q := AddCode(p, t, id, sc);
    Reaches(q, s, Config(|p|, 0, []), Config(|q| - 1, pos, ev))
  }

  /** From c on, the program gets to a MATCH of this id. */
  ghost predicate GoesOn(p: Program, s: seq<Byte>, c: Config, pos: nat, id: nat, ev: seq<Event>) {
    exists b :: Reaches(p, s, c, b) && b.pc < |p| && b.pos == pos && b.ev == ev && p[b.pc] == Match(id)
  }

  lemma AddedInsn(p: Program, t: Node, id: nat, sc: bool, pc: nat)
    requires |p| <= pc < |AddCode(p, t, id, sc)|
    ensures var q := AddCode(p, t, id, sc);
            if pc == |q| - 1 then q[pc] == Match(id)
            else !q[pc].Match? && (HasTarget(q[pc]) ==> q[pc].target == 0 || q[pc].target >= |p|)
  {
    EmitConfined(t, |p|, sc);
    EmitNoMatch(t, |p|, sc);
    hide Emit, Dangling;
    var code := Emit(t, |p|, sc).code;
    if pc < |p| + |code| {
      assert AddCode(p, t, id, sc)[pc] == code[pc - |p|];
    }
  }

  /** The way out of the new code leads to address 0. */
  lemma StepOut(p: Program, t: Node, id: nat, sc: bool, s: seq<Byte>, a: Config, m: Config)
    requires a.pc >= |p| && Step(AddCode(p, t, id, sc), s, a, m)
    ensures m.pc >= |p| || m.pc == 0
  {
    hide AddCode;
    AddedInsn(p, t, id, sc, a.pc);
  }

  lemma {:induction false} StrayEnds(p: Program, t: Node, id: nat, sc: bool, s: seq<Byte>, a: Config, c: Config, n: nat)
    requires Stray(AddCode(p, t, id, sc), |p|, s, a, c, n) && p != []
    ensures c.pc == 0 && Steps(AddCode(p, t, id, sc), s, a, c, n)
    decreases n
  {
    var q := AddCode(p, t, id, sc);
    var m :| Step(q, s, a, m) && if m.pc < |p| then m == c && n == 1 else Stray(q, |p|, s, m, c, n - 1);
    hide AddCode, Step;
    StepOut(p, t, id, sc, s, a, m);
    if m.pc >= |p| {
      StrayEnds(p, t, id, sc, s, m, c, n - 1);
    } else {
      assert Steps(q, s, m, c, 0);
    }
  }

  lemma {:induction false} GoesAstray(q: Program, base: nat, s: seq<Byte>, a: Config, b: Config, n: nat)
    returns (c: Config, k: nat)
    requires Steps(q, s, a, b, n) && a.pc >= base > b.pc
    ensures k <= n && Stray(q, base, s, a, c, k) && Steps(q, s, c, b, n - k)
    decreases n
  {
    hide Step;
    var m :| Step(q, s, a, m) && Steps(q, s, m, b, n - 1);
    if m.pc < base {
      c, k := m, 1;
    } else {
      c, k := GoesAstray(q, base, s, m, b, n - 1);
      k := k + 1;
    }
  }

  lemma GoesOnSame(p: Program, t: Node, id: nat, sc: bool, nc: nat, s: seq<Byte>, c: Config, b: Config)
    requires WellFormed(p, {}, nc) && c.pc < |p|
    ensures Reaches(p, s, c, b) <==> Reaches(AddCode(p, t, id, sc), s, c, b)
    ensures Reaches(p, s, c, b) ==> b.pc < |p|
  {
    var q := AddCode(p, t, id, sc);
    AddPrefix(p, t, id, sc);
    hide AddCode, WellFormed, Steps;
    if n: nat :| Steps(p, s, c, b, n) {
      StepsExtend(p, q, nc, s, c, b, n);
    }
    if n: nat :| Steps(q, s, c, b, n) {
      StepsExtend(p, q, nc, s, c, b, n);
    }
  }

  /** What is accepted from the entry of the new pattern. */
  lemma AcceptsFromEntry(p: Program, nc: nat, t: Node, id: nat, sc: bool, s: seq<Byte>, b: Config, id': nat)
    requires WellFormed(p, {}, nc) && p != []
    ensures var q := AddCode(p, t, id, sc);
      AcceptsFrom(q, |p|, s, b) && q[b.pc] == Match(id') <==>
        || (id' == id && b.pc == |q| - 1 && Arrives(p, t, id, sc, s, b.pos, b.ev))
        || (b.pc < |p| && p[b.pc] == Match(id') && exists c :: StraysTo(p, t, id, sc, s, c) && Reaches(p, s, c, b))
  {
    var q, a := AddCode(p, t, id, sc), Config(|p|, 0, []);
    AddPrefix(p, t, id, sc);
    AddedInsn(p, t, id, sc, |q| - 1);
    hide AddCode, WellFormed;
    if AcceptsFrom(q, |p|, s, b) && q[b.pc] == Match(id') {
      if b.pc >= |p| {
        AddedInsn(p, t, id, sc, b.pc);
        assert b == Config(|q| - 1, b.pos, b.ev);
      } else {
        var n: nat :| Steps(q, s, a, b, n);
        var c, k := GoesAstray(q, |p|, s, a, b, n);
        StrayEnds(p, t, id, sc, s, a, c, k);
        GoesOnSame(p, t, id, sc, nc, s, c, b);
        assert StraysTo(p, t, id, sc, s, c);
        assert q[..|p|][b.pc] == p[b.pc];
      }
    }
    if b.pc == |q| - 1 && Arrives(p, t, id, sc, s, b.pos, b.ev) {
      assert b == Config(|q| - 1, b.pos, b.ev);
    }
    if c :| b.pc < |p| && p[b.pc] == Match(id') && StraysTo(p, t, id, sc, s, c) && Reaches(p, s, c, b) {
      var n: nat :| Stray(q, |p|, s, a, c, n);
      StrayEnds(p, t, id, sc, s, a, c, n);
      GoesOnSame(p, t, id, sc, nc, s, c, b);
      ReachesTrans(q, s, a, c, b);
      assert q[..|p|][b.pc] == p[b.pc];
    }
  }

  /**
   For every tree: what the program accepts once it is appended is what it accepted, what gets to the new
   MATCH, and what the old code accepts from where a thread of the new pattern strays into it.
   */
  lemma AddAnything(p: Program, inits: set<nat>, nc: nat, t: Node, id: nat, sc: bool,
                    s: seq<Byte>, pos: nat, id': nat, ev: seq<Event>)
    requires WellFormed(p, inits, nc) && p != []
    ensures Accepts(AddCode(p, t, id, sc), inits + {|p|}, s, pos, id', ev) <==>
      || Accepts(p, inits, s, pos, id', ev)
      || (id' == id && Arrives(p, t, id, sc, s, pos, ev))
      || exists c :: StraysTo(p, t, id, sc, s, c) && GoesOn(p, s, c, pos, id', ev)
  {
    var q := AddCode(p, t, id, sc);
    AddPrefix(p, t, id, sc);
    WellFormedParts(p, inits, nc);
    hide Reaches, WellFormed, AddCode, StraysTo, Arrives;
    if Accepts(q, inits + {|p|}, s, pos, id', ev) {
      var i, b :| i in inits + {|p|} && AcceptsFrom(q, i, s, b) && b.pos == pos && b.ev == ev && q[b.pc] == Match(id');
      if i == |p| {
        AcceptsFromEntry(p, nc, t, id, sc, s, b, id');
        if c :| StraysTo(p, t, id, sc, s, c) && Reaches(p, s, c, b) {
          assert b.pc < |p| && p[b.pc] == Match(id') ==> GoesOn(p, s, c, pos, id', ev);
        }
      } else {
        AcceptsExtend(p, q, nc, s, i, b);
      }
    }
    if Accepts(p, inits, s, pos, id', ev) {
      AddKeeps(p, inits, nc, t, id, sc, s, pos, id', ev);
    }
    if id' == id && Arrives(p, t, id, sc, s, pos, ev) {
      var b := Config(|q| - 1, pos, ev);
      AcceptsFromEntry(p, nc, t, id, sc, s, b, id');
      assert |p| in inits + {|p|} && AcceptsFrom(q, |p|, s, b) && q[b.pc] == Match(id');
    }
    if c :| StraysTo(p, t, id, sc, s, c) && GoesOn(p, s, c, pos, id', ev) {
      var b :| Reaches(p, s, c, b) && b.pc < |p| && b.pos == pos && b.ev == ev && p[b.pc] == Match(id');
      AcceptsFromEntry(p, nc, t, id, sc, s, b, id');
      assert |p| in inits + {|p|} && AcceptsFrom(q, |p|, s, b) && q[b.pc] == Match(id');
    }
  }

  /** So a pattern does no harm exactly if what the old code accepts where it strays is accepted anyway. */
  ghost predicate Harmless(p: Program, inits: set<nat>, t: Node, id: nat, sc: bool) {
    forall s, pos: nat, id': nat, ev ::
      Accepts(AddCode(p, t, id, sc), inits + {|p|}, s, pos, id', ev) <==>
        Accepts(p, inits, s, pos, id', ev) || (id' == id && Arrives(p, t, id, sc, s, pos, ev))
  }

  lemma InitsMeanCode(p: Program, inits: set<nat>, nc: nat)
    requires WellFormed(p, inits, nc) && 0 in inits
    ensures p != []
  {
  }

  lemma StartIsAccepted(p: Program, inits: set<nat>, s: seq<Byte>, pos: nat, id: nat, ev: seq<Event>)
    requires 0 in inits && GoesOn(p, s, Config(0, 0, []), pos, id, ev)
    ensures Accepts(p, inits, s, pos, id, ev)
  {
    hide Reaches;
    var b :| Reaches(p, s, Config(0, 0, []), b) && b.pc < |p| && b.pos == pos && b.ev == ev && p[b.pc] == Match(id);
    assert AcceptsFrom(p, 0, s, b);
  }

  /** In particular where address 0 is initial and only threads that have done nothing yet get there. */
  lemma EarlyStrayIsHarmless(p: Program, inits: set<nat>, nc: nat, t: Node, id: nat, sc: bool)
    requires WellFormed(p, inits, nc) && 0 in inits
    requires forall s, c :: StraysTo(p, t, id, sc, s, c) ==> c == Config(0, 0, [])
    ensures Harmless(p, inits, t, id, sc)
  {
    hide WellFormed, StraysTo, Arrives, AddCode;
    InitsMeanCode(p, inits, nc);
    forall s, pos: nat, id': nat, ev
      ensures Accepts(AddCode(p, t, id, sc), inits + {|p|}, s, pos, id', ev) <==>
        Accepts(p, inits, s, pos, id', ev) || (id' == id && Arrives(p, t, id, sc, s, pos, ev))
    {
      AddAnything(p, inits, nc, t, id, sc, s, pos, id', ev);
      if GoesOn(p, s, Config(0, 0, []), pos, id', ev) {
        StartIsAccepted(p, inits, s, pos, id', ev);
      }
      hide Accepts, GoesOn;
    }
  }

  lemma LoneForkStrays(q: Program, base: nat, id: nat, s: seq<Byte>, c: Config, n: nat)
    requires base > 0 && |q| == base + 2 && q[base] == Fork(0) && q[base + 1] == Match(id)
    requires Stray(q, base, s, Config(base, 0, []), c, n)
    ensures c == Config(0, 0, [])
  {
  }

  /** A pattern that leaves a lone fork, like a*?|b, is harmless where address 0 is initial. */
  lemma LoneForkIsHarmless(p: Program, inits: set<nat>, nc: nat, t: Node, id: nat, sc: bool)
    requires WellFormed(p, inits, nc) && 0 in inits && Emit(t, |p|, sc).code == [Fork(0)]
    ensures Harmless(p, inits, t, id, sc)
  {
    InitsMeanCode(p, inits, nc);
    var q := AddCode(p, t, id, sc);
    assert |q| == |p| + 2 && q[|p|] == Fork(0) && q[|p| + 1] == Match(id);
    forall s, c | StraysTo(p, t, id, sc, s, c)
      ensures c == Config(0, 0, [])
    {
      var n: nat :| Stray(q, |p|, s, Config(|p|, 0, []), c, n);
      LoneForkStrays(q, |p|, id, s, c, n);
    }
    hide *;
    EarlyStrayIsHarmless(p, inits, nc, t, id, sc);
  }
}
