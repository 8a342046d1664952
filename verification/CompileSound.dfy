/**
 Soundness of the compiler: a path from the entry of a fragment to a MATCH instruction
 leaves the fragment at its end, after a match of the tree.
 */
module CompileSound {
  import opened Bytes
  import opened NfaInsn
  import opened NfaSemantics
  import opened Ast
  import opened Codegen
  import opened Utf8
  import opened FragmentLayout

  ghost predicate IsMatch(p: Program, b: Config) {
    b.pc < |p| && p[b.pc].Match?
  }

  lemma NextStep(p: Program, s: seq<Byte>, a: Config, b: Config, n: nat) returns (m: Config)
    requires Steps(p, s, a, b, n) && IsMatch(p, b) && a.pc < |p| && !p[a.pc].Match?
    ensures n > 0 && Step(p, s, a, m) && Steps(p, s, m, b, n - 1)
  {
    hide Steps, Step;
    m := FirstStep(p, s, a, b, n);
  }

  lemma ForkStep(p: Program, s: seq<Byte>, a: Config, m: Config, t: nat)
    requires a.pc < |p| && p[a.pc] == Fork(t) && Step(p, s, a, m)
    ensures m == a.(pc := a.pc + 1) || m == a.(pc := t)
  {
  }

  lemma CharStep(p: Program, s: seq<Byte>, a: Config, m: Config, c: Byte, sc: bool)
    requires a.pc < |p| && p[a.pc] == CharInsn(c, sc) && (sc ==> c <= 0x7F) && Step(p, s, a, m)
    ensures m == Config(a.pc + 1, a.pos + 1, a.ev) && a.pos < |s| && s[a.pos] == c
  {
  }

  lemma SliceSnoc(s: seq<Byte>, i: nat, j: nat, bytes: seq<Byte>)
    requires bytes != [] && i + |bytes| == j + 1 <= |s| && s[i..j] == bytes[..|bytes| - 1] && s[j] == bytes[|bytes| - 1]
    ensures s[i..j + 1] == bytes
  {
    assert s[i..j + 1] == s[i..j] + [s[j]];
  }

  lemma {:induction false} AtomSound(
      bytes: seq<Byte>, sc: bool, p: Program, base: nat, s: seq<Byte>, a: Config, b: Config, n: nat)
    returns (m: Config, k: nat)
    requires sc ==> forall k :: 0 <= k < |bytes| ==> bytes[k] <= 0x7F
    requires CodeAt(p, base, AtomCode(bytes, sc)) && a.pc == base
    requires Steps(p, s, a, b, n) && IsMatch(p, b)
    ensures m == Config(base + |bytes|, a.pos + |bytes|, a.ev) && Steps(p, s, m, b, k) && k <= n
    ensures bytes != [] ==> m.pos <= |s|
    ensures m.pos <= |s| ==> s[a.pos..m.pos] == bytes
  {
    if bytes == [] {
      hide Steps;
      m, k := a, n;
    } else {
      var len := |bytes| - 1;
      var front, last := bytes[..len], bytes[len];
      assert AtomCode(bytes, sc) == AtomCode(front, sc) + [CharInsn(last, sc)] && !CharInsn(last, sc).Match?;
      hide *;
      CodeAtSplit(p, base, AtomCode(front, sc), [CharInsn(last, sc)]);
      CodeAtHead(p, base + len, CharInsn(last, sc), []);
      var c, k1 := AtomSound(front, sc, p, base, s, a, b, n);
      m := NextStep(p, s, c, b, k1);
      CharStep(p, s, c, m, last, sc);
      k := k1 - 1;
      SliceSnoc(s, a.pos, c.pos, bytes);
    }
  }

  lemma RangeSound(min: U32, max: U32, sc: bool, p: Program, base: nat, s: seq<Byte>, a: Config, b: Config, n: nat)
    returns (m: Config, ev: seq<Event>, k: nat)
    requires Supported(RangeNode(min, max), sc) && CodeAt(p, base, [RangeInsn(min, max)])
    requires a.pc == base && Steps(p, s, a, b, n) && IsMatch(p, b)
    ensures m.pc == base + 1 && Steps(p, s, m, b, k) && k <= n
    ensures m.ev == a.ev + ev && Matches(RangeNode(min, max), s, a.pos, m.pos, ev)
  {
    assert [RangeInsn(min, max)] + [] == [RangeInsn(min, max)];
    hide Steps, CodeAt;
    CodeAtHead(p, base, RangeInsn(min, max), []);
    m := NextStep(p, s, a, b, n);
    ev, k := [], n - 1;
  }

  lemma ClassSound(t: Node, sc: bool, p: Program, base: nat, s: seq<Byte>, a: Config, b: Config, n: nat)
    returns (m: Config, ev: seq<Event>, k: nat)
    requires t.ClassNode? && CodeAt(p, base, [Class(t.neg, t.frontier, t.cclass)])
    requires a.pc == base && Steps(p, s, a, b, n) && IsMatch(p, b)
    ensures m.pc == base + 1 && Steps(p, s, m, b, k) && k <= n
    ensures m.ev == a.ev + ev && Matches(t, s, a.pos, m.pos, ev)
  {
    var insn := Class(t.neg, t.frontier, t.cclass);
    assert [insn] + [] == [insn];
    hide Steps, CodeAt, ClassMatch, FrontierMatch;
    CodeAtHead(p, base, insn, []);
    m := NextStep(p, s, a, b, n);
    ev, k := [], n - 1;
  }

  lemma {:induction false} Sound(t: Node, sc: bool, p: Program, base: nat, s: seq<Byte>, a: Config, b: Config, n: nat)
    returns (m: Config, ev: seq<Event>, k: nat)
    requires Supported(t, sc) && CodeAt(p, base, Emit(t, base, sc).code)
    requires a.pc == base && Steps(p, s, a, b, n) && IsMatch(p, b)
    ensures m.pc == base + |Emit(t, base, sc).code| && Steps(p, s, m, b, k) && k <= n
    ensures m.ev == a.ev + ev && Matches(t, s, a.pos, m.pos, ev)
    decreases t, 0
  {
    hide Steps, Step, CodeAt, IsMatch;
    match t
    case RangeNode(min, max) =>
      m, ev, k := RangeSound(min, max, sc, p, base, s, a, b, n);
    case AtomNode(c) =>
      if c <= 0x7F { AsciiRune(c); }
      m, k := AtomSound(EncodeRune(c), sc, p, base, s, a, b, n);
      ev := [];
    case ClassNode(neg, frontier, cc) =>
      m, ev, k := ClassSound(t, sc, p, base, s, a, b, n);
    case CaptureNode(c, child) =>
      m, ev, k := CaptureSound(c, child, sc, p, base, s, a, b, n);
    case RepeatNode(_, _, _, child) =>
      m, ev, k := RepeatSound(t, sc, p, base, s, a, b, n);
    case BranchNode(children) =>
      m, ev, k := SeqSound(children, sc, p, base, s, a, b, n);
    case AlternationNode(children) =>
      m, ev, k := AlternationSound(children, sc, p, base, s, a, b, n);
  }

  lemma CaptureStep(p: Program, s: seq<Byte>, a: Config, m: Config, end: bool, c: nat)
    requires a.pc < |p| && p[a.pc] == Capture(end, c) && Step(p, s, a, m)
    ensures m == Config(a.pc + 1, a.pos, a.ev + [Event(end, c, a.pos)])
  {
  }

  lemma CaptureMatches(c: nat, t: Node, s: seq<Byte>, i: nat, j: nat, inner: seq<Event>)
    requires Matches(t, s, i, j, inner)
    ensures Matches(CaptureNode(c, t), s, i, j, [Event(false, c, i)] + inner + [Event(true, c, j)])
  {
  }

  lemma {:induction false} CaptureSound(
      c: nat, t: Node, sc: bool, p: Program, base: nat, s: seq<Byte>, a: Config, b: Config, n: nat)
    returns (m: Config, ev: seq<Event>, k: nat)
    requires Supported(t, sc) && CodeAt(p, base, Emit(CaptureNode(c, t), base, sc).code)
    requires a.pc == base && Steps(p, s, a, b, n) && IsMatch(p, b)
    ensures m.pc == base + |Emit(CaptureNode(c, t), base, sc).code| && Steps(p, s, m, b, k) && k <= n
    ensures m.ev == a.ev + ev && Matches(CaptureNode(c, t), s, a.pos, m.pos, ev)
    decreases t, 3
  {
    hide *;
    CaptureLayout(c, t, sc, p, base);
    var a1 := NextStep(p, s, a, b, n);
    CaptureStep(p, s, a, a1, false, c);
    var a2, inner, k2 := Sound(t, sc, p, base + 1, s, a1, b, n - 1);
    m := NextStep(p, s, a2, b, k2);
    CaptureStep(p, s, a2, m, true, c);
    ev, k := [Event(false, c, a.pos)] + inner + [Event(true, c, m.pos)], k2 - 1;
    CaptureMatches(c, t, s, a.pos, m.pos, inner);
    assert m.ev == a.ev + ev;
  }

  lemma {:induction false} SeqSound(
      ts: seq<Node>, sc: bool, p: Program, base: nat, s: seq<Byte>, a: Config, b: Config, n: nat)
    returns (m: Config, ev: seq<Event>, k: nat)
    requires forall k :: 0 <= k < |ts| ==> Supported(ts[k], sc)
    requires CodeAt(p, base, EmitSeq(ts, base, sc).code)
    requires a.pc == base && Steps(p, s, a, b, n) && IsMatch(p, b)
    ensures m.pc == base + |EmitSeq(ts, base, sc).code| && Steps(p, s, m, b, k) && k <= n
    ensures m.ev == a.ev + ev && MatchesSeq(ts, s, a.pos, m.pos, ev)
    decreases ts, 0
  {
    if ts == [] {
      m, ev, k := a, [], n;
    } else {
      var front, last := ts[..|ts| - 1], ts[|ts| - 1];
      EmitSeqOk(front, base, sc);
      var c1 := EmitSeq(front, base, sc).code;
      CodeAtSplit(p, base, c1, Emit(last, base + |c1|, sc).code);
      var c, e1, k1 := SeqSound(front, sc, p, base, s, a, b, n);
      var e2;
      m, e2, k := Sound(last, sc, p, base + |c1|, s, c, b, k1);
      ev := e1 + e2;
      Concat(a.ev, e1, e2);
    }
  }

  /**
   A loop at the fork `fork`: one side of the fork leaves for `end`, the other runs the copy
   of t at `body`, and the copy is followed by the fork again or by a jump to it.  A thread
   that has matched t `times` times on its way from i0 keeps counting.
   */
  lemma NoTimes(t: Node, s: seq<Byte>, i: nat)
    ensures MatchesTimes(t, s, i, i, [], 0)
  {
  }

  lemma {:induction false} RepeatSound(
      t: Node, sc: bool, p: Program, base: nat, s: seq<Byte>, a: Config, b: Config, n: nat)
    returns (m: Config, ev: seq<Event>, k: nat)
    requires t.RepeatNode? && Supported(t, sc) && CodeAt(p, base, Emit(t, base, sc).code)
    requires a.pc == base && Steps(p, s, a, b, n) && IsMatch(p, b)
    ensures m.pc == base + |Emit(t, base, sc).code| && Steps(p, s, m, b, k) && k <= n
    ensures m.ev == a.ev + ev && Matches(t, s, a.pos, m.pos, ev)
    decreases t.child, 4
  {
    var RepeatNode(rmin, rmax, _, child) := t;
    EmitOptionalOk(child, base, rmin, 0, sc);
    EmitRepeatStep(child, rmin, rmax, base, sc);
    assert t == RepeatNode(rmin, rmax, false, child);
    hide Emit, EmitCopies, EmitOptional, EmitStar, CodeAt, Steps, MatchesTimes;
    var copies := EmitCopies(child, base, rmin, sc).code;
    var times: nat;
    if rmin > 0 && copies == [] {
      m, ev, k := CopiesSound(child, sc, p, base, s, a, b, n, rmin);
      times := rmin;
    } else if rmax != UINT_MAX {
      m, ev, times, k := OptionalSound(child, sc, p, base, s, a, b, n, rmin, rmax - rmin);
    } else if rmin > 0 {
      m, ev, times, k := PlusSound(child, sc, p, base, s, a, b, n, rmin);
    } else {
      StarLayout(child, sc, p, base);
      var end := base + 2 + |Emit(child, base + 1, sc).code|;
      assert a.ev == a.ev + [];
      NoTimes(child, s, a.pos);
      m, ev, times, k := LoopSound(child, sc, p, base, base + 1, end, s, a.pos, a.ev, a, b, n, [], 0);
    }
    assert MatchesTimes(child, s, a.pos, m.pos, ev, times);
  }

  lemma {:induction false} PlusSound(
      t: Node, sc: bool, p: Program, base: nat, s: seq<Byte>, a: Config, b: Config, n: nat, r: nat)
    returns (m: Config, ev: seq<Event>, times: nat, k: nat)
    requires Supported(t, sc) && r > 0
    requires CodeAt(p, base, EmitCopies(t, base, r, sc).code + [Fork(base + |EmitCopies(t, base, r - 1, sc).code|)])
    requires a.pc == base && Steps(p, s, a, b, n) && IsMatch(p, b)
    ensures m.pc == base + |EmitCopies(t, base, r, sc).code| + 1 && Steps(p, s, m, b, k) && k <= n
    ensures m.ev == a.ev + ev && MatchesTimes(t, s, a.pos, m.pos, ev, times) && r <= times
    decreases t, 3
  {
    var copies := EmitCopies(t, base, r, sc).code;
    var last := base + |EmitCopies(t, base, r - 1, sc).code|;
    CodeAtSplit(p, base, copies, [Fork(last)]);
    CodeAtHead(p, base + |copies|, Fork(last), []);
    var c, e, k1 := CopiesSound(t, sc, p, base, s, a, b, n, r);
    CopiesLayout(t, sc, p, base, r);
    m, ev, times, k := LoopSound(t, sc, p, c.pc, last, c.pc + 1, s, a.pos, a.ev, c, b, k1, e, r);
  }

  lemma {:induction false} CopiesSound(
      t: Node, sc: bool, p: Program, base: nat, s: seq<Byte>, a: Config, b: Config, n: nat, r: nat)
    returns (m: Config, ev: seq<Event>, k: nat)
    requires Supported(t, sc) && CodeAt(p, base, EmitCopies(t, base, r, sc).code)
    requires a.pc == base && Steps(p, s, a, b, n) && IsMatch(p, b)
    ensures m.pc == base + |EmitCopies(t, base, r, sc).code| && Steps(p, s, m, b, k) && k <= n
    ensures m.ev == a.ev + ev && MatchesTimes(t, s, a.pos, m.pos, ev, r)
    decreases t, 1, r
  {
    if r == 0 {
      m, ev, k := a, [], n;
    } else {
      CopiesLayout(t, sc, p, base, r);
      var c, e1, k1 := CopiesSound(t, sc, p, base, s, a, b, n, r - 1);
      var e2;
      m, e2, k := Sound(t, sc, p, c.pc, s, c, b, k1);
      ev := e1 + e2;
      Concat(a.ev, e1, e2);
    }
  }

  lemma {:induction false} OptionalSound(
      t: Node, sc: bool, p: Program, base: nat, s: seq<Byte>, a: Config, b: Config, n: nat, r: nat, extra: nat)
    returns (m: Config, ev: seq<Event>, times: nat, k: nat)
    requires Supported(t, sc) && CodeAt(p, base, EmitOptional(t, base, r, extra, sc).code)
    requires a.pc == base && Steps(p, s, a, b, n) && IsMatch(p, b)
    ensures m.pc == base + |EmitOptional(t, base, r, extra, sc).code| && Steps(p, s, m, b, k) && k <= n
    ensures m.ev == a.ev + ev && MatchesTimes(t, s, a.pos, m.pos, ev, times) && r <= times <= r + extra
    decreases t, 2, extra
  {
    hide CodeAt, Emit;
    if extra == 0 {
      m, ev, k := CopiesSound(t, sc, p, base, s, a, b, n, r);
      times := r;
    } else {
      OptionalLayout(t, sc, p, base, r, extra);
      var c, e1, times1, k1 := OptionalSound(t, sc, p, base, s, a, b, n, r, extra - 1);
      var e2, took;
      m, e2, took, k := SkipOrTakeSound(t, sc, p, s, c, b, k1);
      if took {
        ev, times := e1 + e2, times1 + 1;
        Concat(a.ev, e1, e2);
      } else {
        ev, times := e1, times1;
      }
    }
  }

  /** A fork behind which a copy of t lies, with the end of that copy as its target. */
  lemma {:induction false} SkipOrTakeSound(t: Node, sc: bool, p: Program, s: seq<Byte>, c: Config, b: Config, n: nat)
    returns (m: Config, ev: seq<Event>, took: bool, k: nat)
    requires Supported(t, sc) && CodeAt(p, c.pc + 1, Emit(t, c.pc + 1, sc).code)
    requires c.pc < |p| && p[c.pc] == Fork(c.pc + 1 + |Emit(t, c.pc + 1, sc).code|)
    requires Steps(p, s, c, b, n) && IsMatch(p, b)
    ensures m.pc == p[c.pc].target && Steps(p, s, m, b, k) && k <= n
    ensures if took then m.ev == c.ev + ev && Matches(t, s, c.pos, m.pos, ev) else m == c.(pc := m.pc)
    decreases t, 1
  {
    var d := FirstStep(p, s, c, b, n);
    took := d.pc != p[c.pc].target;
    if took {
      m, ev, k := Sound(t, sc, p, d.pc, s, d, b, n - 1);
    } else {
      m, ev, k := d, [], n - 1;
    }
  }

  lemma OnceMore(t: Node, s: seq<Byte>, i: nat, m: nat, j: nat, e1: seq<Event>, e2: seq<Event>, times: nat)
    requires MatchesTimes(t, s, i, m, e1, times) && Matches(t, s, m, j, e2)
    ensures MatchesTimes(t, s, i, j, e1 + e2, times + 1)
  {
    hide Matches;
  }

  lemma {:induction false} LoopSound(
      t: Node, sc: bool, p: Program, fork: nat, body: nat, end: nat, s: seq<Byte>,
      i0: nat, ev0: seq<Event>, a: Config, b: Config, n: nat, e: seq<Event>, times: nat)
    returns (m: Config, ev: seq<Event>, times': nat, k: nat)
    requires Supported(t, sc) && CodeAt(p, body, Emit(t, body, sc).code)
    requires fork < |p| && p[fork].Fork?
    requires {p[fork].target, fork + 1} == {body, end}
    requires var back := body + |Emit(t, body, sc).code|; back == fork || (back < |p| && p[back] == Jmp(fork))
    requires a.pc == fork && Steps(p, s, a, b, n) && IsMatch(p, b)
    requires a.ev == ev0 + e && MatchesTimes(t, s, i0, a.pos, e, times)
    ensures m.pc == end && Steps(p, s, m, b, k) && k <= n
    ensures m.ev == ev0 + ev && MatchesTimes(t, s, i0, m.pos, ev, times') && times <= times'
    decreases t, 1, n
  {
    hide Emit, CodeAt, Supported, Matches, MatchesTimes, Steps;
    var c := FirstStep(p, s, a, b, n);
    assert c.pc in {p[fork].target, fork + 1};
    if c.pc == end {
      m, ev, times', k := c, e, times, n - 1;
    } else {
      var d, e2, k1 := Sound(t, sc, p, body, s, c, b, n - 1);
      Concat(ev0, e, e2);
      OnceMore(t, s, i0, c.pos, d.pos, e, e2, times);
      if d.pc != fork {
        d := FirstStep(p, s, d, b, k1);
        k1 := k1 - 1;
      }
      m, ev, times', k := LoopSound(t, sc, p, fork, body, end, s, i0, ev0, d, b, k1, e + e2, times + 1);
    }
  }

  lemma JmpStep(p: Program, s: seq<Byte>, a: Config, m: Config, t: nat)
    requires a.pc < |p| && p[a.pc] == Jmp(t) && Step(p, s, a, m)
    ensures m == a.(pc := t)
  {
  }

  /** An alternation of one tree is compiled like the tree, and the jump over it leads to its end. */
  lemma LoneAlternative(ts: seq<Node>, base: nat, sc: bool)
    requires |ts| == 1 && Supported(ts[0], sc)
    ensures EmitAlternation(ts, base, sc) == Emit(ts[0], base, sc)
    ensures JumpOver(ts, base, sc) == base + |EmitAlternation(ts, base, sc).code|
  {
    EmitOk(ts[0], base, sc);
    hide Emit;
  }

  lemma {:induction false} JumpsSound(
      ts: seq<Node>, sc: bool, p: Program, base: nat, s: seq<Byte>, a: Config, b: Config, n: nat)
    returns (k: nat)
    requires ts != [] && forall k :: 0 <= k < |ts| ==> Supported(ts[k], sc)
    requires CodeAt(p, base, EmitAlternation(ts, base, sc).code) && a.pc == JumpOver(ts, base, sc)
    requires Steps(p, s, a, b, n) && IsMatch(p, b)
    ensures k <= n && Steps(p, s, a.(pc := base + |EmitAlternation(ts, base, sc).code|), b, k)
    decreases |ts|
  {
    hide *;
    if |ts| == 1 {
      LoneAlternative(ts, base, sc);
      k := n;
    } else {
      AlternationLayout(ts, sc, p, base);
      var post := base + 2 + |Emit(ts[0], base + 1, sc).code|;
      var c := NextStep(p, s, a, b, n);
      JmpStep(p, s, a, c, JumpOver(ts[1..], post, sc));
      k := JumpsSound(ts[1..], sc, p, post, s, c, b, n - 1);
    }
  }

  ghost predicate MatchesSome(ts: seq<Node>, s: seq<Byte>, i: nat, j: nat, ev: seq<Event>) {
    exists k :: 0 <= k < |ts| && Matches(ts[k], s, i, j, ev)
  }

  lemma SomeOf(ts: seq<Node>, s: seq<Byte>, i: nat, j: nat, ev: seq<Event>)
    requires ts != []
    ensures Matches(ts[0], s, i, j, ev) || MatchesSome(ts[1..], s, i, j, ev) ==> MatchesSome(ts, s, i, j, ev)
  {
    hide Matches;
    if k :| 0 <= k < |ts[1..]| && Matches(ts[1..][k], s, i, j, ev) {
      assert ts[1..][k] == ts[k + 1];
    }
  }

  lemma {:induction false} AlternationSound(
      ts: seq<Node>, sc: bool, p: Program, base: nat, s: seq<Byte>, a: Config, b: Config, n: nat)
    returns (m: Config, ev: seq<Event>, k: nat)
    requires ts != [] && forall k :: 0 <= k < |ts| ==> Supported(ts[k], sc)
    requires CodeAt(p, base, EmitAlternation(ts, base, sc).code)
    requires a.pc == base && Steps(p, s, a, b, n) && IsMatch(p, b)
    ensures m.pc == base + |EmitAlternation(ts, base, sc).code| && Steps(p, s, m, b, k) && k <= n
    ensures m.ev == a.ev + ev && MatchesSome(ts, s, a.pos, m.pos, ev)
    decreases ts, 1
  {
    hide *;
    if |ts| == 1 {
      LoneAlternative(ts, base, sc);
      m, ev, k := Sound(ts[0], sc, p, base, s, a, b, n);
    } else {
      AlternationLayout(ts, sc, p, base);
      var post := base + 2 + |Emit(ts[0], base + 1, sc).code|;
      var c := NextStep(p, s, a, b, n);
      ForkStep(p, s, a, c, post);
      if c.pc == base + 1 {
        var d, k1;
        d, ev, k1 := Sound(ts[0], sc, p, base + 1, s, c, b, n - 1);
        k := JumpsSound(ts, sc, p, base, s, d, b, k1);
        m := d.(pc := base + |EmitAlternation(ts, base, sc).code|);
      } else {
        m, ev, k := AlternationSound(ts[1..], sc, p, post, s, c, b, n - 1);
      }
    }
    SomeOf(ts, s, a.pos, m.pos, ev);
  }
}
