/** Instructions of the NFA program and the byte classes they test (nfa.h, nfa.c). */
module NfaInsn {
  import opened Bytes

  datatype CClass =
    | Alnum | Alpha | Blank | Cntrl | Digit | Graph | Lower
    | Print | Punct | Space | Upper | Xdigit
    | Any | Line

  datatype Insn =
    | Range(lo: Byte, hi: Byte)
    | Class(neg: bool, frontier: bool, cclass: CClass)
    | Capture(end: bool, n: nat)
    | Match(id: nat)
    | Jmp(target: nat)
    | Fork(target: nat)

  predicate HasTarget(insn: Insn) {
    insn.Jmp? || insn.Fork?
  }

  /** Membership of a 7-bit byte in a class, with the C locale's ctype tables. */
  predicate InClass(cc: CClass, c: int)
    requires 0 <= c < 0x80
  {
    var digit := '0' as int <= c <= '9' as int;
    var lower := 'a' as int <= c <= 'z' as int;
    var upper := 'A' as int <= c <= 'Z' as int;
    match cc
    case Alnum => digit || lower || upper
    case Alpha => lower || upper
    case Blank => c == ' ' as int || c == '\t' as int
    case Cntrl => c < 0x20 || c == 0x7F
    case Digit => digit
    case Graph => 0x21 <= c <= 0x7E
    case Lower => lower
    case Print => 0x20 <= c <= 0x7E
    case Punct => 0x21 <= c <= 0x7E && !digit && !lower && !upper
    case Space => c == ' ' as int || 9 <= c <= 13
    case Upper => upper
    case Xdigit => digit || 'a' as int <= c <= 'f' as int || 'A' as int <= c <= 'F' as int
    case Any => true
    case Line => c >= ' ' as int || c == '\t' as int
  }

  /** aem_nfa_cclass_match: a byte outside ASCII, or the end of input (-1), is in no class. */
  predicate ClassMatch(neg: bool, cc: CClass, c: int)
  {
    var m := 0 <= c < 0x80 && InClass(cc, c);
    if neg then !m else m
  }
}
