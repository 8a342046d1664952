/**
 Instruction words: three bits of opcode and 29 bits of argument.  The rest of the model keeps
 instructions decoded; this module says exactly when that loses nothing.
 */
module InsnWords {
  import opened Bytes
  import opened NfaInsn
  import opened NfaSemantics
  import opened NfaProgram

  const ARG_LIMIT: nat := 0x2000_0000
  const CAPTURE_LIMIT: nat := 0x1000_0000

  const CLASSES: seq<CClass> :=
    [Alnum, Alpha, Blank, Cntrl, Digit, Graph, Lower, Print, Punct, Space, Upper, Xdigit, Any, Line]

  function ClassIndex(cc: CClass): (i: nat)
    ensures i < |CLASSES| && CLASSES[i] == cc
  {
    match cc
    case Alnum => 0 case Alpha => 1 case Blank => 2 case Cntrl => 3 case Digit => 4
    case Graph => 5 case Lower => 6 case Print => 7 case Punct => 8 case Space => 9
    case Upper => 10 case Xdigit => 11 case Any => 12 case Line => 13
  }

  function Bit(b: bool): nat {
    if b then 1 else 0
  }

  /** aem_nfa_mk_insn: the shift drops what does not fit in 32 bits. */
  function MkInsn(op: nat, arg: nat): (w: U32)
    requires op < 8
  {
    arg % ARG_LIMIT * 8 + op
  }

  function Encode(insn: Insn): U32 {
    match insn
    case Range(lo, hi) => MkInsn(0, hi * 0x100 + lo)
    case Class(neg, frontier, cc) => MkInsn(1, ClassIndex(cc) * 4 + Bit(frontier) * 2 + Bit(neg))
    case Capture(end, n) => MkInsn(2, n * 2 + Bit(end))
    case Match(id) => MkInsn(3, id)
    case Jmp(t) => MkInsn(4, t)
    case Fork(t) => MkInsn(5, t)
  }

  datatype Decoded = Insn(insn: NfaInsn.Insn) | Invalid

  /** The decoding at the head of every loop over instructions. */
  function Decode(w: U32): Decoded {
    var op, arg := w % 8, w / 8;
    if op == 0 then Decoded.Insn(Range(arg % 0x100, arg / 0x100 % 0x100))
    else if op == 1 then
      if arg / 4 < |CLASSES| then Decoded.Insn(Class(arg % 2 == 1, arg / 2 % 2 == 1, CLASSES[arg / 4])) else Invalid
    else if op == 2 then Decoded.Insn(Capture(arg % 2 == 1, arg / 2))
    else if op == 3 then Decoded.Insn(Match(arg))
    else if op == 4 then Decoded.Insn(Jmp(arg))
    else if op == 5 then Decoded.Insn(Fork(arg))
    else Invalid
  }

  /** The argument fits in its field. */
  predicate Fits(insn: NfaInsn.Insn) {
    match insn
    case Capture(_, n) => n < CAPTURE_LIMIT
    case Match(id) => id < ARG_LIMIT
    case Jmp(t) => t < ARG_LIMIT
    case Fork(t) => t < ARG_LIMIT
    case _ => true
  }

  lemma MkInsnFields(op: nat, arg: nat)
    requires op < 8
    ensures MkInsn(op, arg) % 8 == op && MkInsn(op, arg) / 8 == arg % ARG_LIMIT
    ensures arg % ARG_LIMIT == arg <==> arg < ARG_LIMIT
  {
  }

  lemma RangeFields(lo: Byte, hi: Byte)
    ensures var a := (hi * 0x100 + lo) % ARG_LIMIT; a % 0x100 == lo && a / 0x100 % 0x100 == hi
  {
  }

  lemma ClassFields(cc: CClass, frontier: bool, neg: bool)
    ensures var a := (ClassIndex(cc) * 4 + Bit(frontier) * 2 + Bit(neg)) % ARG_LIMIT;
            a / 4 == ClassIndex(cc) && a / 2 % 2 == Bit(frontier) && a % 2 == Bit(neg)
  {
  }

  lemma CaptureFields(end: bool, n: nat)
    ensures var a := (n * 2 + Bit(end)) % ARG_LIMIT; a % 2 == Bit(end) && (a / 2 == n <==> n < CAPTURE_LIMIT)
  {
  }

  /** A word gives back its instruction exactly when the argument fits. */
  lemma DecodeEncode(insn: NfaInsn.Insn)
    ensures Decode(Encode(insn)) == Decoded.Insn(insn) <==> Fits(insn)
  {
    hide MkInsn, ClassIndex;
    match insn
    case Range(lo, hi) =>
      MkInsnFields(0, hi * 0x100 + lo);
      RangeFields(lo, hi);
    case Class(neg, frontier, cc) =>
      MkInsnFields(1, ClassIndex(cc) * 4 + Bit(frontier) * 2 + Bit(neg));
      ClassFields(cc, frontier, neg);
    case Capture(end, n) =>
      MkInsnFields(2, n * 2 + Bit(end));
      CaptureFields(end, n);
    case Match(id) => MkInsnFields(3, id);
    case Jmp(t) => MkInsnFields(4, t);
    case Fork(t) => MkInsnFields(5, t);
  }

  /**
   A well-formed program of at most 2^29 instructions with at most 2^28 captures is held by
   its words without loss, exactly when its match ids are below 2^29.
   */
  lemma ProgramWords(p: Program, inits: set<nat>, nc: nat)
    requires WellFormed(p, inits, nc) && |p| <= ARG_LIMIT && nc <= CAPTURE_LIMIT
    ensures (forall k :: 0 <= k < |p| ==> Decode(Encode(p[k])) == Decoded.Insn(p[k])) <==>
            (forall k :: 0 <= k < |p| && p[k].Match? ==> p[k].id < ARG_LIMIT)
  {
    forall k | 0 <= k < |p|
      ensures Decode(Encode(p[k])) == Decoded.Insn(p[k]) <==> (p[k].Match? ==> p[k].id < ARG_LIMIT)
    {
      assert InsnOk(p[k], |p|, nc);
      DecodeEncode(p[k]);
    }
  }
}
