/**
 Path semantics of NFA programs.

 A configuration is a program counter, a position in the input and the list of capture
 events recorded so far.  It does not mention the capture array: what a thread's array
 holds is a fold of its events, so one path means the same for every array size.
 */
module NfaSemantics {
  import opened Bytes
  import opened NfaInsn

  datatype Event = Event(end: bool, n: nat, pos: nat)

  datatype Config = Config(pc: nat, pos: nat, ev: seq<Event>)

  type Program = seq<Insn>

  /** The byte under position i, or -1 at the end of input. */
  function At(s: seq<Byte>, i: nat): int {
    if i < |s| then s[i] else -1
  }

  /** The byte before position i, or -1 at the start of the run. */
  function Prev(s: seq<Byte>, i: nat): int {
    if 0 < i <= |s| then s[i - 1] else -1
  }

  /** Whether a frontier fires between positions i-1 and i: the class starts to hold here. */
  predicate FrontierMatch(neg: bool, cc: CClass, s: seq<Byte>, i: nat) {
    ClassMatch(neg, cc, At(s, i)) && !ClassMatch(neg, cc, Prev(s, i))
  }

  /** The instruction consumes the byte c. */
  predicate Consumes(insn: Insn, c: int) {
    match insn
    case Range(lo, hi) => lo <= c <= hi
    case Class(neg, frontier, cc) => !frontier && ClassMatch(neg, cc, c)
    case _ => false
  }

  /** One step: at most one byte consumed, at most one event recorded. */
  predicate Step(p: Program, s: seq<Byte>, a: Config, b: Config) {
    a.pc < |p| &&
    match p[a.pc]
    case Range(_, _) =>
      a.pos < |s| && Consumes(p[a.pc], s[a.pos]) && b == Config(a.pc + 1, a.pos + 1, a.ev)
    case Class(neg, frontier, cc) =>
      if frontier then FrontierMatch(neg, cc, s, a.pos) && b == Config(a.pc + 1, a.pos, a.ev)
      else a.pos < |s| && Consumes(p[a.pc], s[a.pos]) && b == Config(a.pc + 1, a.pos + 1, a.ev)
    case Capture(end, n) => b == Config(a.pc + 1, a.pos, a.ev + [Event(end, n, a.pos)])
    case Match(_) => false
    case Jmp(t) => b == Config(t, a.pos, a.ev)
    case Fork(t) => b == Config(a.pc + 1, a.pos, a.ev) || b == Config(t, a.pos, a.ev)
  }

  ghost predicate Steps(p: Program, s: seq<Byte>, a: Config, b: Config, n: nat)
    decreases n
  {
    if n == 0 then a == b else exists m :: Step(p, s, a, m) && Steps(p, s, m, b, n - 1)
  }

  ghost predicate Reaches(p: Program, s: seq<Byte>, a: Config, b: Config) {
    exists n: nat :: Steps(p, s, a, b, n)
  }

  lemma {:induction false} StepsTrans(p: Program, s: seq<Byte>, a: Config, b: Config, c: Config, n: nat, k: nat)
    requires Steps(p, s, a, b, n) && Steps(p, s, b, c, k)
    ensures Steps(p, s, a, c, n + k)
    decreases n
  {
    if n > 0 {
      var m :| Step(p, s, a, m) && Steps(p, s, m, b, n - 1);
      StepsTrans(p, s, m, b, c, n - 1, k);
    }
  }

  lemma ReachesTrans(p: Program, s: seq<Byte>, a: Config, b: Config, c: Config)
    requires Reaches(p, s, a, b) && Reaches(p, s, b, c)
    ensures Reaches(p, s, a, c)
  {
    var n: nat :| Steps(p, s, a, b, n);
    var k: nat :| Steps(p, s, b, c, k);
    StepsTrans(p, s, a, b, c, n, k);
  }

  lemma ReachesStep(p: Program, s: seq<Byte>, a: Config, b: Config)
    requires Step(p, s, a, b)
    ensures Reaches(p, s, a, b)
  {
    assert Steps(p, s, b, b, 0);
    assert Steps(p, s, a, b, 1);
  }

  lemma ReachesRefl(p: Program, s: seq<Byte>, a: Config)
    ensures Reaches(p, s, a, a)
  {
    assert Steps(p, s, a, a, 0);
  }

  /** A run in progress cannot have stopped: the first step of a path to a MATCH. */
  lemma FirstStep(p: Program, s: seq<Byte>, a: Config, b: Config, n: nat) returns (m: Config)
    requires Steps(p, s, a, b, n)
    requires b.pc < |p| && p[b.pc].Match? && a.pc < |p| && !p[a.pc].Match?
    ensures n > 0 && Step(p, s, a, m) && Steps(p, s, m, b, n - 1)
  {
    m :| Step(p, s, a, m) && Steps(p, s, m, b, n - 1);
  }
}
