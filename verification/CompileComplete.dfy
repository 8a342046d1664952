/** Completeness of the compiler: every match of a tree is a path through its fragment. */
module CompileComplete {
  import opened Bytes
  import opened NfaInsn
  import opened NfaSemantics
  import opened Ast
  import opened Codegen
  import opened Utf8
  import opened FragmentLayout

  lemma ThenStep(p: Program, s: seq<Byte>, a: Config, b: Config, c: Config)
    requires Reaches(p, s, a, b) && Step(p, s, b, c)
    ensures Reaches(p, s, a, c)
  {
    ReachesStep(p, s, b, c);
    ReachesTrans(p, s, a, b, c);
  }

  lemma {:induction false} AtomComplete(bytes: seq<Byte>, sc: bool, p: Program, base: nat, s: seq<Byte>, a: Config)
    requires sc ==> forall k :: 0 <= k < |bytes| ==> bytes[k] <= 0x7F
    requires CodeAt(p, base, AtomCode(bytes, sc)) && a.pc == base
    requires a.pos + |bytes| <= |s| && s[a.pos..a.pos + |bytes|] == bytes
    ensures Reaches(p, s, a, Config(base + |bytes|, a.pos + |bytes|, a.ev))
  {
    if bytes == [] {
      ReachesRefl(p, s, a);
    } else {
      var n := |bytes| - 1;
      CodeAtSplit(p, base, AtomCode(bytes[..n], sc), [CharInsn(bytes[n], sc)]);
      CodeAtHead(p, base + n, CharInsn(bytes[n], sc), []);
      assert s[a.pos..a.pos + n] == s[a.pos..a.pos + |bytes|][..n];
      assert s[a.pos + n] == s[a.pos..a.pos + |bytes|][n];
      AtomComplete(bytes[..n], sc, p, base, s, a);
      ThenStep(p, s, a, Config(base + n, a.pos + n, a.ev), Config(base + n + 1, a.pos + n + 1, a.ev));
    }
  }

  lemma AtomNodeComplete(c: U32, sc: bool, p: Program, base: nat, s: seq<Byte>, a: Config, j: nat)
    requires Supported(AtomNode(c), sc) && CodeAt(p, base, Emit(AtomNode(c), base, sc).code)
    requires a.pc == base && Matches(AtomNode(c), s, a.pos, j, [])
    ensures Reaches(p, s, a, Config(base + |Emit(AtomNode(c), base, sc).code|, j, a.ev))
  {
    if c <= 0x7F { AsciiRune(c); }
    assert sc ==> forall k :: 0 <= k < |EncodeRune(c)| ==> EncodeRune(c)[k] <= 0x7F;
    hide EncodeRune, CodeAt, Reaches, Supported;
    assert Emit(AtomNode(c), base, sc).code == AtomCode(EncodeRune(c), sc);
    assert j == a.pos + |EncodeRune(c)| && j <= |s| && s[a.pos..j] == EncodeRune(c);
    hide Emit, Matches, AtomCode;
    AtomComplete(EncodeRune(c), sc, p, base, s, a);
  }

  lemma LeafComplete(t: Node, sc: bool, p: Program, base: nat, s: seq<Byte>, a: Config, j: nat, ev: seq<Event>)
    requires t.RangeNode? || t.AtomNode? || t.ClassNode?
    requires Supported(t, sc) && CodeAt(p, base, Emit(t, base, sc).code)
    requires a.pc == base && Matches(t, s, a.pos, j, ev)
    ensures Reaches(p, s, a, Config(base + |Emit(t, base, sc).code|, j, a.ev + ev))
  {
    hide CodeAt, Reaches, EncodeRune, ClassMatch;
    match t
    case RangeNode(min, max) =>
      assert [RangeInsn(min, max)] + [] == [RangeInsn(min, max)];
      CodeAtHead(p, base, RangeInsn(min, max), []);
      ReachesStep(p, s, a, Config(base + 1, j, a.ev + ev));
    case AtomNode(c) => AtomNodeComplete(c, sc, p, base, s, a, j);
      assert a.ev + ev == a.ev;
    case ClassNode(neg, frontier, cc) =>
      assert [Class(neg, frontier, cc)] + [] == [Class(neg, frontier, cc)];
      CodeAtHead(p, base, Class(neg, frontier, cc), []);
      ReachesStep(p, s, a, Config(base + 1, j, a.ev + ev));
  }

  lemma {:induction false} Complete(
      t: Node, sc: bool, p: Program, base: nat, s: seq<Byte>, a: Config, j: nat, ev: seq<Event>)
    requires Supported(t, sc) && CodeAt(p, base, Emit(t, base, sc).code)
    requires a.pc == base && Matches(t, s, a.pos, j, ev)
    ensures Reaches(p, s, a, Config(base + |Emit(t, base, sc).code|, j, a.ev + ev))
    decreases t, 0
  {
    hide CodeAt, Reaches, FrontierMatch, ClassMatch, EncodeRune;
    match t
    case RangeNode(_, _) => LeafComplete(t, sc, p, base, s, a, j, ev);
    case AtomNode(_) => LeafComplete(t, sc, p, base, s, a, j, ev);
    case ClassNode(_, _, _) => LeafComplete(t, sc, p, base, s, a, j, ev);
    case CaptureNode(n, child) =>
      CaptureComplete(n, child, sc, p, base, s, a, j, ev);
    case RepeatNode(rmin, rmax, _, child) =>
      var k: nat :| MatchesTimes(child, s, a.pos, j, ev, k) && rmin <= k && (rmax == UINT_MAX || k <= rmax);
      RepeatComplete(t, sc, p, base, s, a, j, ev, k);
    case BranchNode(children) =>
      SeqComplete(children, sc, p, base, s, a, j, ev);
    case AlternationNode(children) =>
      var k :| 0 <= k < |children| && Matches(children[k], s, a.pos, j, ev);
      AlternationComplete(children, sc, p, base, s, a, j, ev, k);
  }

  /** A path to b goes on through the fragment of t at b. */
  lemma {:induction false} ThenTree(
      t: Node, sc: bool, p: Program, s: seq<Byte>, a: Config, b: Config, j: nat, ev: seq<Event>)
    requires Supported(t, sc) && CodeAt(p, b.pc, Emit(t, b.pc, sc).code)
    requires Reaches(p, s, a, b) && Matches(t, s, b.pos, j, ev)
    ensures Reaches(p, s, a, Config(b.pc + |Emit(t, b.pc, sc).code|, j, b.ev + ev))
    decreases t, 1
  {
    Complete(t, sc, p, b.pc, s, b, j, ev);
    ReachesTrans(p, s, a, b, Config(b.pc + |Emit(t, b.pc, sc).code|, j, b.ev + ev));
  }

  lemma {:induction false} CaptureComplete(
      n: nat, t: Node, sc: bool, p: Program, base: nat, s: seq<Byte>, a: Config, j: nat, ev: seq<Event>)
    requires Supported(t, sc) && CodeAt(p, base, Emit(CaptureNode(n, t), base, sc).code)
    requires a.pc == base && Matches(CaptureNode(n, t), s, a.pos, j, ev)
    ensures Reaches(p, s, a, Config(base + |Emit(CaptureNode(n, t), base, sc).code|, j, a.ev + ev))
    decreases t, 3
  {
    var inner :| Matches(t, s, a.pos, j, inner) && ev == [Event(false, n, a.pos)] + inner + [Event(true, n, j)];
    CaptureLayout(n, t, sc, p, base);
    var b := Config(base + 1, a.pos, a.ev + [Event(false, n, a.pos)]);
    ReachesStep(p, s, a, b);
    ThenTree(t, sc, p, s, a, b, j, inner);
    var c := Config(base + 1 + |Emit(t, base + 1, sc).code|, j, b.ev + inner);
    var d := Config(c.pc + 1, j, c.ev + [Event(true, n, j)]);
    ThenStep(p, s, a, c, d);
    assert d.ev == a.ev + ev;
  }

  lemma {:induction false} SeqComplete(
      ts: seq<Node>, sc: bool, p: Program, base: nat, s: seq<Byte>, a: Config, j: nat, ev: seq<Event>)
    requires forall k :: 0 <= k < |ts| ==> Supported(ts[k], sc)
    requires CodeAt(p, base, EmitSeq(ts, base, sc).code)
    requires a.pc == base && MatchesSeq(ts, s, a.pos, j, ev)
    ensures Reaches(p, s, a, Config(base + |EmitSeq(ts, base, sc).code|, j, a.ev + ev))
    decreases ts, 0
  {
    if ts == [] {
      assert a.ev + ev == a.ev;
      ReachesRefl(p, s, a);
    } else {
      var front, last := ts[..|ts| - 1], ts[|ts| - 1];
      var m: nat, e1, e2 :| MatchesSeq(front, s, a.pos, m, e1) && Matches(last, s, m, j, e2) && ev == e1 + e2;
      EmitSeqOk(front, base, sc);
      var c1 := EmitSeq(front, base, sc).code;
      CodeAtSplit(p, base, c1, Emit(last, base + |c1|, sc).code);
      SeqComplete(front, sc, p, base, s, a, m, e1);
      ThenTree(last, sc, p, s, a, Config(base + |c1|, m, a.ev + e1), j, e2);
      Concat(a.ev, e1, e2);
    }
  }

  lemma {:induction false} RepeatComplete(
      t: Node, sc: bool, p: Program, base: nat, s: seq<Byte>, a: Config, j: nat, ev: seq<Event>, k: nat)
    requires t.RepeatNode? && Supported(t, sc) && CodeAt(p, base, Emit(t, base, sc).code)
    requires a.pc == base && MatchesTimes(t.child, s, a.pos, j, ev, k)
    requires t.rmin <= k && (t.rmax == UINT_MAX || k <= t.rmax)
    ensures Reaches(p, s, a, Config(base + |Emit(t, base, sc).code|, j, a.ev + ev))
    decreases t.child, 4
  {
    var RepeatNode(rmin, rmax, _, child) := t;
    EmitOptionalOk(child, base, rmin, 0, sc);
    var copies := EmitCopies(child, base, rmin, sc).code;
    if rmin > 0 && copies == [] {
      EmptyTimesComplete(child, sc, p, base, s, a, j, ev, rmin, k);
    } else if rmax != UINT_MAX {
      OptionalComplete(child, sc, p, base, s, a, j, ev, rmin, rmax - rmin, k);
    } else if rmin > 0 {
      var last := base + |EmitCopies(child, base, rmin - 1, sc).code|;
      CodeAtSplit(p, base, copies, [Fork(last)]);
      CodeAtHead(p, base + |copies|, Fork(last), []);
      PlusComplete(child, sc, p, base, s, a, j, ev, rmin, k);
      var b := Config(base + |copies|, j, a.ev + ev);
      ThenStep(p, s, a, b, b.(pc := b.pc + 1));
    } else {
      StarLayout(child, sc, p, base);
      StarComplete(child, sc, p, base, s, a, j, ev, k);
      var b := Config(base, j, a.ev + ev);
      ThenStep(p, s, a, b, b.(pc := base + 2 + |Emit(child, base + 1, sc).code|));
    }
  }

  lemma {:induction false} CopiesComplete(
      t: Node, sc: bool, p: Program, base: nat, s: seq<Byte>, a: Config, j: nat, ev: seq<Event>, k: nat)
    requires Supported(t, sc) && CodeAt(p, base, EmitCopies(t, base, k, sc).code)
    requires a.pc == base && MatchesTimes(t, s, a.pos, j, ev, k)
    ensures Reaches(p, s, a, Config(base + |EmitCopies(t, base, k, sc).code|, j, a.ev + ev))
    decreases t, 2, k
  {
    if k == 0 {
      assert a.ev + ev == a.ev;
      ReachesRefl(p, s, a);
    } else {
      var m: nat, e1, e2 :| MatchesTimes(t, s, a.pos, m, e1, k - 1) && Matches(t, s, m, j, e2) && ev == e1 + e2;
      CopiesLayout(t, sc, p, base, k);
      CopiesComplete(t, sc, p, base, s, a, m, e1, k - 1);
      ThenTree(t, sc, p, s, a, Config(base + |EmitCopies(t, base, k - 1, sc).code|, m, a.ev + e1), j, e2);
      Concat(a.ev, e1, e2);
    }
  }

  /** An empty copy can be taken any number of times: the early exit on an empty repetition. */
  lemma {:induction false} EmptyTimesComplete(
      t: Node, sc: bool, p: Program, base: nat, s: seq<Byte>, a: Config, j: nat, ev: seq<Event>, k: nat, n: nat)
    requires Supported(t, sc) && k > 0 && EmitCopies(t, base, k, sc).code == [] && base <= |p|
    requires a.pc == base && MatchesTimes(t, s, a.pos, j, ev, n)
    ensures Reaches(p, s, a, Config(base, j, a.ev + ev))
    decreases t, 2, n
  {
    if n == 0 {
      assert a.ev + ev == a.ev;
      ReachesRefl(p, s, a);
    } else {
      var m: nat, e1, e2 :| MatchesTimes(t, s, a.pos, m, e1, n - 1) && Matches(t, s, m, j, e2) && ev == e1 + e2;
      EmptyCopy(t, base, k, sc);
      EmptyTimesComplete(t, sc, p, base, s, a, m, e1, k, n - 1);
      ThenTree(t, sc, p, s, a, Config(base, m, a.ev + e1), j, e2);
      Concat(a.ev, e1, e2);
    }
  }

  /** At the fork of an optional copy: skip the copy, or take it. */
  lemma {:induction false} SkipOrTake(
      t: Node, sc: bool, p: Program, base: nat, s: seq<Byte>, a: Config, b: Config, j: nat, ev: seq<Event>,
      k: nat, r: nat)
    requires Supported(t, sc) && r > 0 && CodeAt(p, base, EmitOptional(t, base, k, r, sc).code)
    requires b.pc == base + |EmitOptional(t, base, k, r - 1, sc).code| && Reaches(p, s, a, b)
    ensures Reaches(p, s, a, b.(pc := base + |EmitOptional(t, base, k, r, sc).code|))
    ensures Matches(t, s, b.pos, j, ev) ==>
      Reaches(p, s, a, Config(base + |EmitOptional(t, base, k, r, sc).code|, j, b.ev + ev))
    decreases t, 2
  {
    OptionalLayout(t, sc, p, base, k, r);
    ThenStep(p, s, a, b, b.(pc := p[b.pc].target));
    if Matches(t, s, b.pos, j, ev) {
      ThenStep(p, s, a, b, b.(pc := b.pc + 1));
      ThenTree(t, sc, p, s, a, b.(pc := b.pc + 1), j, ev);
    }
  }

  lemma {:induction false} OptionalComplete(
      t: Node, sc: bool, p: Program, base: nat, s: seq<Byte>, a: Config, j: nat, ev: seq<Event>, k: nat, r: nat, n: nat)
    requires Supported(t, sc) && CodeAt(p, base, EmitOptional(t, base, k, r, sc).code)
    requires a.pc == base && k <= n <= k + r && MatchesTimes(t, s, a.pos, j, ev, n)
    ensures Reaches(p, s, a, Config(base + |EmitOptional(t, base, k, r, sc).code|, j, a.ev + ev))
    decreases t, 3, r
  {
    if r == 0 {
      CopiesComplete(t, sc, p, base, s, a, j, ev, k);
    } else {
      hide CodeAt, Reaches, Emit, EmitOptional, Matches, Supported;
      OptionalLayout(t, sc, p, base, k, r);
      var fork := base + |EmitOptional(t, base, k, r - 1, sc).code|;
      if n == k {
        OptionalComplete(t, sc, p, base, s, a, j, ev, k, r - 1, n);
        SkipOrTake(t, sc, p, base, s, a, Config(fork, j, a.ev + ev), j, ev, k, r);
      } else {
        var m: nat, e1, e2 :| MatchesTimes(t, s, a.pos, m, e1, n - 1) && Matches(t, s, m, j, e2) && ev == e1 + e2;
        OptionalComplete(t, sc, p, base, s, a, m, e1, k, r - 1, n - 1);
        SkipOrTake(t, sc, p, base, s, a, Config(fork, m, a.ev + e1), j, e2, k, r);
        Concat(a.ev, e1, e2);
      }
    }
  }

  /** k copies and then a fork back to the last one: n >= k matches lead to that fork. */
  lemma {:induction false} PlusComplete(
      t: Node, sc: bool, p: Program, base: nat, s: seq<Byte>, a: Config, j: nat, ev: seq<Event>, k: nat, n: nat)
    requires Supported(t, sc) && k > 0 && CodeAt(p, base, EmitCopies(t, base, k, sc).code)
    requires var fork := base + |EmitCopies(t, base, k, sc).code|;
             fork < |p| && p[fork] == Fork(base + |EmitCopies(t, base, k - 1, sc).code|)
    requires a.pc == base && k <= n && MatchesTimes(t, s, a.pos, j, ev, n)
    ensures Reaches(p, s, a, Config(base + |EmitCopies(t, base, k, sc).code|, j, a.ev + ev))
    decreases t, 3, n
  {
    hide CodeAt, Reaches, Emit;
    if n == k {
      CopiesComplete(t, sc, p, base, s, a, j, ev, k);
    } else {
      var m: nat, e1, e2 :| MatchesTimes(t, s, a.pos, m, e1, n - 1) && Matches(t, s, m, j, e2) && ev == e1 + e2;
      CopiesLayout(t, sc, p, base, k);
      PlusComplete(t, sc, p, base, s, a, m, e1, k, n - 1);
      var b := Config(base + |EmitCopies(t, base, k, sc).code|, m, a.ev + e1);
      var c := b.(pc := base + |EmitCopies(t, base, k - 1, sc).code|);
      ThenStep(p, s, a, b, c);
      ThenTree(t, sc, p, s, a, c, j, e2);
      Concat(a.ev, e1, e2);
    }
  }

  /** One turn of a star's loop. */
  lemma {:induction false} StarTurn(
      t: Node, sc: bool, p: Program, base: nat, s: seq<Byte>, a: Config, b: Config, j: nat, ev: seq<Event>)
    requires Supported(t, sc) && StarAt(t, sc, p, base)
    requires Reaches(p, s, a, b) && b.pc == base && Matches(t, s, b.pos, j, ev)
    ensures Reaches(p, s, a, Config(base, j, b.ev + ev))
    decreases t, 2
  {
    ThenStep(p, s, a, b, b.(pc := base + 1));
    ThenTree(t, sc, p, s, a, b.(pc := base + 1), j, ev);
    var d := Config(base + 1 + |Emit(t, base + 1, sc).code|, j, b.ev + ev);
    ThenStep(p, s, a, d, d.(pc := base));
  }

  /** Any number of matches leads from the fork of a star back to that fork. */
  lemma {:induction false} StarComplete(
      t: Node, sc: bool, p: Program, base: nat, s: seq<Byte>, a: Config, j: nat, ev: seq<Event>, n: nat)
    requires Supported(t, sc) && StarAt(t, sc, p, base)
    requires a.pc == base && MatchesTimes(t, s, a.pos, j, ev, n)
    ensures Reaches(p, s, a, Config(base, j, a.ev + ev))
    decreases t, 3, n
  {
    if n == 0 {
      assert a.ev + ev == a.ev;
      ReachesRefl(p, s, a);
    } else {
      var m: nat, e1, e2 :| MatchesTimes(t, s, a.pos, m, e1, n - 1) && Matches(t, s, m, j, e2) && ev == e1 + e2;
      StarComplete(t, sc, p, base, s, a, m, e1, n - 1);
      StarTurn(t, sc, p, base, s, a, Config(base, m, a.ev + e1), j, e2);
      Concat(a.ev, e1, e2);
    }
  }

  /** The jumps behind the children chain to the end of the alternation. */
  lemma {:induction false} JumpsComplete(ts: seq<Node>, sc: bool, p: Program, base: nat, s: seq<Byte>, a: Config)
    requires ts != [] && forall k :: 0 <= k < |ts| ==> Supported(ts[k], sc)
    requires CodeAt(p, base, EmitAlternation(ts, base, sc).code) && a.pc == JumpOver(ts, base, sc)
    ensures Reaches(p, s, a, a.(pc := base + |EmitAlternation(ts, base, sc).code|))
    decreases |ts|
  {
    if |ts| == 1 {
      EmitOk(ts[0], base, sc);
      ReachesRefl(p, s, a);
    } else {
      AlternationLayout(ts, sc, p, base);
      var post := base + 2 + |Emit(ts[0], base + 1, sc).code|;
      var b := a.(pc := JumpOver(ts[1..], post, sc));
      ReachesStep(p, s, a, b);
      JumpsComplete(ts[1..], sc, p, post, s, b);
      ReachesTrans(p, s, a, b, a.(pc := base + |EmitAlternation(ts, base, sc).code|));
    }
  }

  lemma {:induction false} AlternationComplete(
      ts: seq<Node>, sc: bool, p: Program, base: nat, s: seq<Byte>, a: Config, j: nat, ev: seq<Event>, k: nat)
    requires k < |ts| && forall k :: 0 <= k < |ts| ==> Supported(ts[k], sc)
    requires CodeAt(p, base, EmitAlternation(ts, base, sc).code)
    requires a.pc == base && Matches(ts[k], s, a.pos, j, ev)
    ensures Reaches(p, s, a, Config(base + |EmitAlternation(ts, base, sc).code|, j, a.ev + ev))
    decreases ts, 1
  {
    hide CodeAt, Reaches, Emit;
    if |ts| == 1 {
      Complete(ts[0], sc, p, base, s, a, j, ev);
    } else {
      AlternationLayout(ts, sc, p, base);
      var post := base + 2 + |Emit(ts[0], base + 1, sc).code|;
      var end := Config(base + |EmitAlternation(ts, base, sc).code|, j, a.ev + ev);
      if k == 0 {
        var b := a.(pc := base + 1);
        var c := Config(post - 1, j, a.ev + ev);
        ReachesStep(p, s, a, b);
        ThenTree(ts[0], sc, p, s, a, b, j, ev);
        JumpsComplete(ts, sc, p, base, s, c);
        ReachesTrans(p, s, a, c, end);
      } else {
        var b := a.(pc := post);
        ReachesStep(p, s, a, b);
        AlternationComplete(ts[1..], sc, p, post, s, b, j, ev, k - 1);
        ReachesTrans(p, s, a, b, end);
      }
    }
  }
}
