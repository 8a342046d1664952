/** Where the compiler does not do what the tree says, and exactly when it does. */
module CompilerLimits {
  import opened Bytes
  import opened NfaInsn
  import opened NfaSemantics
  import opened Ast
  import opened Codegen
  import opened Utf8
  import opened NfaProgram
  import opened VmTheory
  import opened CompileFailure
  import Runes

  /** A program holding only the tree t accepts exactly the matches of t. */
  ghost predicate CompiledRight(t: Node, sc: bool) {
    forall s, pos: nat, ev ::
      Accepts(AddCode([], t, 0, sc), {0}, s, pos, 0, ev) <==> Matches(t, s, 0, pos, ev)
  }

  lemma SupportedIsRight(t: Node, sc: bool)
    requires Supported(t, sc)
    ensures CompiledRight(t, sc)
  {
    forall s, pos: nat, ev
      ensures Accepts(AddCode([], t, 0, sc), {0}, s, pos, 0, ev) <==> Matches(t, s, 0, pos, ev)
    {
      MeaningIsOwn(t, sc, s, pos, ev);
      MeaningOfSupported(t, sc, s, pos, ev);
    }
  }

  /** A range is compiled right exactly when the clamp of its bounds to a byte is harmless. */
  lemma RangeExact(min: U32, max: U32, sc: bool)
    ensures CompiledRight(RangeNode(min, max), sc) <==> min <= 0xFF || max < 0xFF
  {
    var t := RangeNode(min, max);
    if min <= 0xFF || max < 0xFF {
      SupportedIsRight(t, sc);
    } else {
      var p := AddCode([], t, 0, sc);
      assert p == [RangeInsn(min, max), Match(0)];
      var a, b := Config(0, 0, []), Config(1, 1, []);
      ReachesStep(p, [0xFF], a, b);
      assert AcceptsFrom(p, 0, [0xFF], b);
      assert Accepts(p, {0}, [0xFF], 1, 0, []);
      assert !Matches(t, [0xFF], 0, 1, []);
    }
  }

  /** The last byte of a multi-byte encoding is a continuation byte. */
  lemma TailByte(c: U32)
    requires c > 0x7F
    ensures |EncodeRune(c)| > 1 && 0x80 <= EncodeRune(c)[|EncodeRune(c)| - 1] <= 0xBF
  {
    Runes.TailShape(c, RuneLen(c));
  }

  /** An atom is compiled right exactly when it is ASCII or plain char is unsigned. */
  lemma AtomExact(c: U32, sc: bool)
    ensures CompiledRight(AtomNode(c), sc) <==> !sc || c <= 0x7F
  {
    var t := AtomNode(c);
    if !sc || c <= 0x7F {
      SupportedIsRight(t, sc);
    } else {
      var s := EncodeRune(c);
      var n := |s|;
      assert s[0..n] == s;
      assert Matches(t, s, 0, n, []);
      var p := AddCode([], t, 0, sc);
      TailByte(c);
      assert p == AtomCode(s, sc) + [Match(0)] && p[n - 1] == CharInsn(s[n - 1], sc);
      if Accepts(p, {0}, s, n, 0, []) {
        var i, b :| i in {0} && AcceptsFrom(p, i, s, b) && b.pos == n && b.ev == [] && p[b.pc] == Match(0);
        var k: nat :| Steps(p, s, Config(0, 0, []), b, k);
        assert b.pc == n;
        var m := LastStep(p, s, Config(0, 0, []), b, k);
        assert false;
      }
    }
  }

  lemma NotRight(t: Node, sc: bool, s: seq<Byte>, pos: nat, ev: seq<Event>)
    requires OwnAccepts(t, sc, s, pos, ev) != Matches(t, s, 0, pos, ev)
    ensures !CompiledRight(t, sc)
  {
    hide Accepts, Matches;
  }

  /** An alternation without children denotes nothing, but its code accepts the empty string, before any input. */
  lemma EmptyAlternation(sc: bool, s: seq<Byte>, pos: nat, ev: seq<Event>)
    ensures OwnAccepts(AlternationNode([]), sc, s, pos, ev) <==> pos == 0 && ev == []
    ensures !Matches(AlternationNode([]), s, 0, pos, ev)
    ensures !CompiledRight(AlternationNode([]), sc)
  {
    var t := AlternationNode([]);
    forall s, pos, ev
      ensures OwnAccepts(t, sc, s, pos, ev) <==> pos == 0 && ev == []
    {
      MeaningIsOwn(t, sc, s, pos, ev);
    }
    hide OwnAccepts;
    assert OwnAccepts(t, sc, [], 0, []) && !Matches(t, [], 0, 0, []);
    NotRight(t, sc, [], 0, []);
  }

  lemma {:induction false} NeverMoves(p: Program, s: seq<Byte>, a: Config, b: Config, n: nat)
    requires p == [Fork(0), Match(0)] && Steps(p, s, a, b, n)
    ensures b.pos == a.pos
    decreases n
  {
    if n > 0 {
      var m :| Step(p, s, a, m) && Steps(p, s, m, b, n - 1);
      NeverMoves(p, s, m, b, n - 1);
    }
  }

  /**
   A failure inside an alternation is ignored: the tree `a*?|b` compiles "successfully" to a
   lone fork, and the alternative b is lost.
   */
  lemma FailureInsideAlternation(sc: bool)
    ensures var t := AlternationNode([RepeatNode(0, UINT_MAX, true, AtomNode('a' as int)), AtomNode('b' as int)]);
            Emit(t, 0, sc) == Emitted([Fork(0)], true) && !CompiledRight(t, sc)
  {
    var lazy, b := RepeatNode(0, UINT_MAX, true, AtomNode('a' as int)), AtomNode('b' as int);
    var t := AlternationNode([lazy, b]);
    assert EmitCopies(lazy.child, 1, 0, sc) == Emitted([], true);
    assert Emit(lazy, 1, sc) == Emitted([], false);
    var p := AddCode([], t, 0, sc);
    assert [lazy, b][0] == lazy && EmitAlternation([lazy, b], 0, sc).code == [Fork(0)];
    assert p == [Fork(0), Match(0)];
    var s := ['b' as int];
    AsciiRune('b' as int);
    assert s[0..1] == s;
    assert Matches([lazy, b][1], s, 0, 1, []);
    assert Matches(t, s, 0, 1, []);
    if Accepts(p, {0}, s, 1, 0, []) {
      var i, e :| i in {0} && AcceptsFrom(p, i, s, e) && e.pos == 1 && e.ev == [] && p[e.pc] == Match(0);
      var k: nat :| Steps(p, s, Config(0, 0, []), e, k);
      NeverMoves(p, s, Config(0, 0, []), e, k);
      assert false;
    }
  }

  const LAZY_B: Node := RepeatNode(0, UINT_MAX, true, AtomNode('b' as int))

  /** The pattern y(?:a|b*?). */
  const STRAY: Node := BranchNode([AtomNode('y' as int), AlternationNode([AtomNode('a' as int), LAZY_B])])

  lemma LazyCode(base: nat, sc: bool)
    ensures Emit(LAZY_B, base, sc) == Emitted([], false) && Fails(LAZY_B)
  {
    assert EmitCopies(LAZY_B.child, base, 0, sc) == Emitted([], true);
  }

  lemma OneByte(c: U32, sc: bool)
    requires c <= 0x7F
    ensures AtomCode(EncodeRune(c), sc) == [CharInsn(c, sc)]
  {
    AsciiRune(c);
    assert AtomCode([c], sc)[0] == CharInsn(c, sc);
  }

  lemma StrayAlternative(base: nat, sc: bool)
    ensures var alt := AlternationNode([AtomNode('a' as int), LAZY_B]);
            && Emit(alt, base, sc) == Emitted([Fork(base + 3), CharInsn('a' as int, sc), Jmp(0)], true)
            && Dangling(alt)
  {
    var a := AtomNode('a' as int);
    var ts := [a, LAZY_B];
    LazyCode(base + 3, sc);
    OneByte('a' as int, sc);
    assert ts[1..] == [LAZY_B] && ts[0] == a && ts[1] == LAZY_B;
    EmitAlternationStep(ts, base, sc);
    assert Emit(a, base + 1, sc) == Emitted([CharInsn('a' as int, sc)], true);
    assert JumpOver([LAZY_B], base + 3, sc) == 0;
    assert EmitAlternation([LAZY_B], base + 3, sc) == Emitted([], false);
  }

  lemma StrayCode(base: nat, sc: bool)
    ensures var a, y := CharInsn('a' as int, sc), CharInsn('y' as int, sc);
            Emit(STRAY, base, sc) == Emitted([y, Fork(base + 4), a, Jmp(0)], true)
    ensures Dangling(STRAY)
  {
    var y, alt := AtomNode('y' as int), AlternationNode([AtomNode('a' as int), LAZY_B]);
    StrayAlternative(base + 1, sc);
    OneByte('y' as int, sc);
    assert STRAY.children == [y] + [alt] && [y] == [] + [y];
    EmitSeqStep([], y, base, sc);
    EmitSeqStep([y], alt, base, sc);
    assert STRAY.children[1] == alt && STRAY.children[0] == y;
  }

  lemma StrayProgram(sc: bool)
    ensures var p := AddCode([], AtomNode('c' as int), 0, sc);
            && p == [CharInsn('c' as int, sc), Match(0)] && Dangling(STRAY)
            && AddCode(p, STRAY, 1, sc)
                 == [CharInsn('c' as int, sc), Match(0), CharInsn('y' as int, sc), Fork(6), CharInsn('a' as int, sc),
                     Jmp(0), Match(1)]
  {
    OneByte('c' as int, sc);
    StrayCode(2, sc);
    hide Dangling;
    assert Emit(AtomNode('c' as int), 0, sc).code == [CharInsn('c' as int, sc)];
    hide Emit;
    assert AddCode([], AtomNode('c' as int), 0, sc) == [CharInsn('c' as int, sc), Match(0)];
  }

  /** The pattern c does not match three bytes. */
  lemma NotC(s: seq<Byte>, sc: bool)
    ensures var c := AtomNode('c' as int);
            !Meaning(c, sc, s, 3, []) && !Accepts(AddCode([], c, 0, sc), {0}, s, 3, 0, [])
  {
    AsciiRune('c' as int);
    assert !Matches(AtomNode('c' as int), s, 0, 3, []);
    MeaningIsOwn(AtomNode('c' as int), sc, s, 3, []);
  }

  lemma Accepting(q: Program, s: seq<Byte>)
    requires |q| == 7 && q[1] == Match(0) && Reaches(q, s, Config(2, 0, []), Config(1, 3, []))
    ensures Accepts(q, {0, 2}, s, 3, 0, [])
  {
    assert AcceptsFrom(q, 2, s, Config(1, 3, [])) && 2 in {0, 2};
  }

  /** Through y and a to the unpatched jump, and from address 0 through c. */
  lemma StrayPath(q: Program, sc: bool, s: seq<Byte>)
    requires q == [CharInsn('c' as int, sc), Match(0), CharInsn('y' as int, sc), Fork(6), CharInsn('a' as int, sc),
                   Jmp(0), Match(1)]
    requires s == ['y' as int, 'a' as int, 'c' as int]
    ensures Reaches(q, s, Config(2, 0, []), Config(1, 3, []))
  {
    hide Reaches;
    var a := Config(2, 0, []);
    ReachesStep(q, s, a, Config(3, 1, []));
    ReachesStep(q, s, Config(3, 1, []), Config(4, 1, []));
    ReachesStep(q, s, Config(4, 1, []), Config(5, 2, []));
    ReachesStep(q, s, Config(5, 2, []), Config(0, 2, []));
    ReachesStep(q, s, Config(0, 2, []), Config(1, 3, []));
    ReachesTrans(q, s, a, Config(3, 1, []), Config(4, 1, []));
    ReachesTrans(q, s, a, Config(4, 1, []), Config(5, 2, []));
    ReachesTrans(q, s, a, Config(5, 2, []), Config(0, 2, []));
    ReachesTrans(q, s, a, Config(0, 2, []), Config(1, 3, []));
  }

  /**
   Patterns do interfere when one of them is dangling: with the pattern y(?:a|b*?) added behind the
   pattern c, the text yac is taken for a match of c.
   */
  lemma Interference(sc: bool)
    ensures var c := AtomNode('c' as int); var p := AddCode([], c, 0, sc); var q := AddCode(p, STRAY, 1, sc);
            var s := ['y' as int, 'a' as int, 'c' as int];
            && Dangling(STRAY) && Accepts(q, {0, |p|}, s, 3, 0, [])
            && !Accepts(p, {0}, s, 3, 0, []) && !Meaning(c, sc, s, 3, [])
  {
    var c := AtomNode('c' as int);
    var s := ['y' as int, 'a' as int, 'c' as int];
    var p := AddCode([], c, 0, sc);
    var q := AddCode(p, STRAY, 1, sc);
    StrayProgram(sc);
    NotC(s, sc);
    hide *;
    StrayPath(q, sc, s);
    Accepting(q, s);
  }
}
