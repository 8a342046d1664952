/**
 Which text spells which syntax tree, and what stands where reading has to stop. The predicates speak
 of the text s[i..j]; they say nothing about how it is found, and nothing about the numbers of the
 captures.
 */
module RegexGrammar {
  import opened Bytes
  import opened NfaInsn
  import opened Ast
  import opened CaptureNumbers
  import Translate
  import RangeComplement

  /** The byte c stands at i. */
  predicate Is(s: seq<Byte>, i: nat, c: char) {
    i < |s| && s[i] == c as int
  }

  // ----- flags -----

  datatype Flags = Flags(debug: bool, explicitCaptures: bool, binary: bool)

  /** A run of flag letters and the flags it stands for; debug is not for sandboxed patterns. */
  predicate FlagLetters(s: seq<Byte>, i: nat, j: nat, sandbox: bool, flags: Flags) {
    && i <= j <= |s| && (forall k :: i <= k < j ==> Is(s, k, 'd') || Is(s, k, 'c') || Is(s, k, 'b'))
    && (flags.debug <==> !sandbox && exists k :: i <= k < j && Is(s, k, 'd'))
    && (flags.explicitCaptures <==> exists k :: i <= k < j && Is(s, k, 'c'))
    && (flags.binary <==> exists k :: i <= k < j && Is(s, k, 'b'))
  }

  function Add(f: Flags, g: Flags): Flags {
    Flags(f.debug || g.debug, f.explicitCaptures || g.explicitCaptures, f.binary || g.binary)
  }

  function Remove(f: Flags, g: Flags): Flags {
    Flags(f.debug && !g.debug, f.explicitCaptures && !g.explicitCaptures, f.binary && !g.binary)
  }

  /** A letter d that a sandboxed pattern may not set is skipped, but only one at a time. */
  predicate LoneD(s: seq<Byte>, i: nat, j: nat, sandbox: bool) {
    sandbox ==> forall k :: i < k < j ==> !(Is(s, k - 1, 'd') && Is(s, k, 'd'))
  }

  /** All the flag letters there are. */
  predicate FlagRun(s: seq<Byte>, i: nat, j: nat, sandbox: bool, flags: Flags) {
    && FlagLetters(s, i, j, sandbox, flags) && LoneD(s, i, j, sandbox)
    && !Is(s, j, 'c') && !Is(s, j, 'b') && (Is(s, j, 'd') ==> sandbox && j > i && Is(s, j - 1, 'd'))
  }

  /** Flags to set and, after a minus, flags to clear. */
  ghost predicate FlagChange(s: seq<Byte>, i: nat, j: nat, sandbox: bool, f: Flags, g: Flags) {
    || (exists add :: FlagRun(s, i, j, sandbox, add) && !Is(s, j, '-') && g == Add(f, add))
    || (exists m: nat, add, sub :: FlagRun(s, i, m, sandbox, add) && Is(s, m, '-')
          && FlagRun(s, m + 1, j, sandbox, sub) && g == Remove(Add(f, add), sub))
  }

  // ----- bracket expressions -----

  predicate IsAlnum(c: Byte) {
    48 <= c <= 57 || 65 <= c <= 90 || 97 <= c <= 122
  }

  function Ascii(s: string): seq<Byte> {
    seq(|s|, i requires 0 <= i < |s| => s[i] as int % 0x100)
  }

  function ClassNamed(name: seq<Byte>): Option<CClass> {
    if name == Ascii("alnum") then Some(Alnum)
    else if name == Ascii("alpha") then Some(Alpha)
    else if name == Ascii("blank") then Some(Blank)
    else if name == Ascii("cntrl") then Some(Cntrl)
    else if name == Ascii("digit") then Some(CClass.Digit)
    else if name == Ascii("graph") then Some(Graph)
    else if name == Ascii("lower") then Some(Lower)
    else if name == Ascii("print") then Some(Print)
    else if name == Ascii("punct") then Some(Punct)
    else if name == Ascii("space") then Some(Space)
    else if name == Ascii("upper") then Some(Upper)
    else if name == Ascii("xdigit") then Some(Xdigit)
    else if name == Ascii("any") then Some(Any)
    else if name == Ascii("line") then Some(Line)
    else None
  }

  /** An optional caret. */
  predicate Caret(s: seq<Byte>, i: nat, j: nat, neg: bool) {
    if neg then Is(s, i, '^') && j == i + 1 else !Is(s, i, '^') && j == i
  }

  ghost predicate IsNamedClass(s: seq<Byte>, i: nat, j: nat, t: Node) {
    && t.ClassNode? && !t.frontier && Is(s, i, '[') && Is(s, i + 1, ':')
    && var name := i + 2;
       exists a: nat, b: nat :: Caret(s, name, a, t.neg) && a <= b <= |s| && ClassNamed(s[a..b]) == Some(t.cclass)
         && Is(s, b, ':') && Is(s, b + 1, ']') && j == b + 2
  }

  ghost predicate NoNamedClass(s: seq<Byte>, i: nat) {
    forall j: nat, t :: !IsNamedClass(s, i, j, t)
  }

  lemma AsciiAlnum(s: string)
    requires forall k :: 0 <= k < |s| ==> (s[k] as int) < 0x100 && IsAlnum(s[k] as int)
    ensures forall k :: 0 <= k < |Ascii(s)| ==> IsAlnum(Ascii(s)[k])
  {
  }

  lemma ClassNamesAreAlnum(name: seq<Byte>)
    requires ClassNamed(name).Some?
    ensures forall k :: 0 <= k < |name| ==> IsAlnum(name[k])
  {
    hide Ascii;
    AsciiAlnum("alnum");
    AsciiAlnum("alpha");
    AsciiAlnum("blank");
    AsciiAlnum("cntrl");
    AsciiAlnum("digit");
    AsciiAlnum("graph");
    AsciiAlnum("lower");
    AsciiAlnum("print");
    AsciiAlnum("punct");
    AsciiAlnum("space");
    AsciiAlnum("upper");
    AsciiAlnum("xdigit");
    AsciiAlnum("any");
    AsciiAlnum("line");
  }

  /** The name of a class ends where the letters and digits end, so there is only one way to read it. */
  lemma OneWayToRead(s: seq<Byte>, i: nat, a: nat, b: nat, neg: bool, a': nat, b': nat, neg': bool)
    requires Caret(s, i, a, neg) && a <= b <= |s| && forall k :: a <= k < b ==> IsAlnum(s[k])
    requires b < |s| ==> !IsAlnum(s[b])
    requires Caret(s, i, a', neg') && a' <= b' <= |s| && ClassNamed(s[a'..b']).Some? && Is(s, b', ':')
    ensures a' == a && b' == b
  {
    ClassNamesAreAlnum(s[a'..b']);
    hide ClassNamed;
    forall k | a' <= k < b'
      ensures IsAlnum(s[k])
    {
      assert s[a'..b'][k - a'] == s[k];
    }
  }

  lemma OnlyOneName(s: seq<Byte>, i: nat, a: nat, b: nat, neg: bool)
    requires Caret(s, i + 2, a, neg) && a <= b <= |s| && forall k :: a <= k < b ==> IsAlnum(s[k])
    requires b < |s| ==> !IsAlnum(s[b])
    requires !(Is(s, b, ':') && Is(s, b + 1, ']')) || ClassNamed(s[a..b]) == None
    ensures NoNamedClass(s, i)
  {
    hide ClassNamed;
    forall j: nat, t
      ensures !IsNamedClass(s, i, j, t)
    {
      if IsNamedClass(s, i, j, t) {
        var name := i + 2;
        var a': nat, b': nat :| Caret(s, name, a', t.neg) && a' <= b' <= |s| && ClassNamed(s[a'..b']) == Some(t.cclass)
          && Is(s, b', ':') && Is(s, b' + 1, ']') && j == b' + 2;
        OneWayToRead(s, name, a, b, neg, a', b', t.neg);
        assert false;
      }
    }
  }

  /** A rune, escaped or not. */
  predicate IsRune(s: seq<Byte>, i: nat, j: nat, c: U32, esc: nat) {
    i <= j <= |s| && Translate.UnescapeFront(s[i..|s|]) == Some((c, esc, j - i))
  }

  ghost predicate IsSomeRune(s: seq<Byte>, i: nat, j: nat, c: U32) {
    exists esc :: IsRune(s, i, j, c, esc)
  }

  predicate NoRune(s: seq<Byte>, i: nat) {
    i <= |s| && Translate.UnescapeFront(s[i..|s|]) == None
  }

  /** A named class if there is one; otherwise a rune or two. */
  ghost predicate IsRange(s: seq<Byte>, i: nat, j: nat, t: Node) {
    || IsNamedClass(s, i, j, t)
    || (t.RangeNode? && NoNamedClass(s, i) && t.min == t.max && IsSomeRune(s, i, j, t.min) && !Is(s, j, '-'))
    || (t.RangeNode? && NoNamedClass(s, i) && exists m: nat ::
          IsSomeRune(s, i, m, t.min) && Is(s, m, '-') && IsSomeRune(s, m + 1, j, t.max))
  }

  /** No range begins here: no rune, or none after a dash. */
  ghost predicate NoRange(s: seq<Byte>, i: nat) {
    && NoNamedClass(s, i)
    && (NoRune(s, i) || exists m: nat, c :: IsSomeRune(s, i, m, c) && Is(s, m, '-') && NoRune(s, m + 1))
  }

  /** Ranges in a row; a bracket closes them, but not before the first. */
  ghost predicate IsRanges(s: seq<Byte>, i: nat, j: nat, ts: seq<Node>)
    decreases |ts|
  {
    if ts == [] then i == j <= |s|
    else
      var front, last := ts[..|ts| - 1], ts[|ts| - 1];
      exists m: nat ::
        IsRanges(s, i, m, front) && (front != [] ==> !Is(s, m, ']')) && m < j && IsRange(s, m, j, last)
  }

  /** The ranges that begin at a end at b, with a bracket if they were not cut off, and the text goes on at j. */
  predicate Closed(s: seq<Byte>, a: nat, b: nat, j: nat) {
    if Is(s, b, ']') && b > a then j == b + 1 else j == b == |s|
  }

  /** The order the sort leaves ranges in: any order at all, where its comparison is none. */
  predicate SortOf(ts: seq<Node>, sorted: seq<Node>) {
    && multiset(sorted) == multiset(ts)
    && (RangeComplement.Comparable(ts) ==>
          RangeComplement.Comparable(sorted) && RangeComplement.SortedByCompare(sorted))
  }

  /** The ranges ts lie between a and b; sorted is the same ranges in another order. */
  ghost predicate BracketParts(s: seq<Byte>, i: nat, j: nat, t: Node,
                               neg: bool, a: nat, b: nat, ts: seq<Node>, sorted: seq<Node>)
  {
    && t.AlternationNode? && Is(s, i, '[') && Caret(s, i + 1, a, neg)
    && IsRanges(s, a, b, ts) && Closed(s, a, b, j) && SortOf(ts, sorted)
    && (if neg then RangeComplement.AllRanges(sorted) && t.children == RangeComplement.ComplementOf(sorted)
        else t.children == sorted)
  }

  /** A bracket expression, closed or cut off by the end of the text. */
  ghost predicate IsBrackets(s: seq<Byte>, i: nat, j: nat, t: Node) {
    exists neg, a: nat, b: nat, ts, sorted :: BracketParts(s, i, j, t, neg, a, b, ts, sorted)
  }

  /** What makes a bracket expression malformed: no range where one has to be, or a class to be complemented. */
  ghost predicate BadParts(s: seq<Byte>, i: nat, neg: bool, a: nat, b: nat, ts: seq<Node>) {
    && Is(s, i, '[') && Caret(s, i + 1, a, neg) && IsRanges(s, a, b, ts)
    && (|| (b < |s| && (ts != [] ==> !Is(s, b, ']')) && NoRange(s, b))
        || (neg && !RangeComplement.AllRanges(ts) && (b == |s| || (Is(s, b, ']') && b > a))))
  }

  ghost predicate BadBrackets(s: seq<Byte>, i: nat) {
    exists neg, a: nat, b: nat, ts :: BadParts(s, i, neg, a, b, ts)
  }

  // ----- repetitions -----

  const ULONG_LIMIT: nat := 0x1_0000_0000_0000_0000

  predicate IsDigit(s: seq<Byte>, i: nat) {
    i < |s| && 48 <= s[i] <= 57
  }

  /** Where the digits from i on end. */
  function DigitsEnd(s: seq<Byte>, i: nat): (j: nat)
    ensures i <= j && (i < j ==> j <= |s|)
    ensures !IsDigit(s, j) && forall k: nat :: i <= k < j ==> IsDigit(s, k)
    decreases |s| - i
  {
    if IsDigit(s, i) then DigitsEnd(s, i + 1) else i
  }

  /** The value of digits. */
  function Decimal(s: seq<Byte>, i: nat, j: nat): int
    requires i <= j <= |s|
  {
    if i == j then 0 else var digit: int := s[j - 1]; Decimal(s, i, j - 1) * 10 + digit - 48
  }

  /** The value the code computes: the arithmetic wraps at 64 bits, and the test for that sees most cases. */
  function Wrapped(s: seq<Byte>, i: nat, j: nat): Option<int>
    requires i <= j <= |s|
  {
    if i == j then Some(0)
    else match Wrapped(s, i, j - 1)
      case None => None
      case Some(v) =>
        var digit: int := s[j - 1];
        if v > (ULONG_LIMIT - 1) / 10 then None else Some((v * 10 + digit - 48) % ULONG_LIMIT)
  }

  /** A decimal number, with all its digits. */
  predicate IsNumber(s: seq<Byte>, i: nat, j: nat, n: U32) {
    i < j <= |s| && j == DigitsEnd(s, i) && Wrapped(s, i, j) == Some(n)
  }

  /** No number that the code accepts begins here: no digit, or too large a value. */
  predicate NoNumber(s: seq<Byte>, i: nat) {
    var j := DigitsEnd(s, i);
    i < j ==> Wrapped(s, i, j).None? || Wrapped(s, i, j).value > UINT_MAX
  }

  /** What stands between braces: a number, or two with a comma, each of them optional. */
  ghost predicate IsInterval(s: seq<Byte>, i: nat, j: nat, min: U32, max: U32) {
    || (IsNumber(s, i, j, min) && max == min)
    || (exists m: nat :: i <= m < j <= |s| && Is(s, m, ',')
          && (IsNumber(s, i, m, min) || (m == i && min == 0))
          && (IsNumber(s, m + 1, j, max) || (m + 1 == j && max == UINT_MAX)))
  }

  ghost predicate IsQuantifier(s: seq<Byte>, i: nat, j: nat, min: U32, max: U32) {
    || (Is(s, i, '?') && j == i + 1 && (min, max) == (0, 1))
    || (Is(s, i, '*') && j == i + 1 && (min, max) == (0, UINT_MAX))
    || (Is(s, i, '+') && j == i + 1 && (min, max) == (1, UINT_MAX))
    || (Is(s, i, '{') && i + 1 < j && Is(s, j - 1, '}') && IsInterval(s, i + 1, j - 1, min, max))
  }

  ghost predicate IsBounds(s: seq<Byte>, i: nat, j: nat, min: U32, max: U32, reluctant: bool) {
    if reluctant then j > 0 && Is(s, j - 1, '?') && IsQuantifier(s, i, j - 1, min, max)
    else !Is(s, j, '?') && IsQuantifier(s, i, j, min, max)
  }

  // ----- atoms, items, branches, patterns -----

  /** What an escape of the given kind stands for; None if the rune is no atom. */
  function AtomOf(c: U32, esc: nat, flags: Flags): (node: Option<Node>)
    ensures node.Some? ==> Leaf(node.value)
  {
    if esc == 0 then
      if c == 46 then Some(ClassNode(false, false, if flags.binary then Any else Line))
      else if c == 94 then Some(ClassNode(false, true, Line))
      else if c == 36 then Some(ClassNode(true, true, Line))
      else if c in {41, 63, 42, 43, 124, 92} then None
      else Some(AtomNode(c))
    else if esc == 2 then
      var neg := 65 <= c <= 90;
      if c == 60 then Some(ClassNode(false, true, Alnum))
      else if c == 62 then Some(ClassNode(true, true, Alnum))
      else if c == 65 then Some(ClassNode(false, true, Any))
      else if c == 122 then Some(ClassNode(true, true, Any))
      else if c == 119 || c == 87 then Some(ClassNode(false, false, Alnum))
      else if c == 100 || c == 68 then Some(ClassNode(neg, false, CClass.Digit))
      else if c == 115 || c == 83 then Some(ClassNode(neg, false, Space))
      else Some(AtomNode(c))
    else Some(AtomNode(c))
  }

  /** The beginning of a group, up to its pattern; the flags apply inside the group. */
  ghost predicate GroupOpens(s: seq<Byte>, i: nat, j: nat, f: Flags, g: Flags, capture: bool) {
    && Is(s, i, '(')
    && (|| (!Is(s, i + 1, '?') && j == i + 1 && g == f && capture)
        || (Is(s, i + 1, '?') && capture && FlagChange(s, i + 2, j, true, f, g) && !Is(s, j, ':'))
        || (Is(s, i + 1, '?') && !capture && j > i + 2 && FlagChange(s, i + 2, j - 1, true, f, g) && Is(s, j - 1, ':')))
  }

  ghost predicate IsAtom(s: seq<Byte>, i: nat, j: nat, f: Flags, t: Node)
    decreases j - i, 0, 0
  {
    || IsBrackets(s, i, j, t)
    || (exists c, esc :: IsRune(s, i, j, c, esc) && AtomOf(c, esc, f) == Some(t) && !Is(s, i, '[') && !Is(s, i, '('))
    || (exists k: nat, g, capture :: i < k < j && GroupOpens(s, i, k, f, g, capture) && Is(s, j - 1, ')')
          && (if !capture || (f.explicitCaptures && t.AlternationNode?) then IsPattern(s, k, j - 1, g, t)
              else
                && t.CaptureNode? && !(f.explicitCaptures && t.child.AlternationNode?)
                && IsPattern(s, k, j - 1, g, t.child)))
  }

  /** A brace without a number or a comma behind it. */
  predicate StrayBrace(s: seq<Byte>, i: nat) {
    Is(s, i, '{') && NoNumber(s, i + 1) && !Is(s, i + 1, ',')
  }

  /** A brace that has to begin a repetition and begins none, or one with its bounds out of order. */
  ghost predicate BadBrace(s: seq<Byte>, i: nat) {
    Is(s, i, '{') && !StrayBrace(s, i) && forall j: nat, min, max :: IsQuantifier(s, i, j, min, max) ==> min > max
  }

  /** With the flag for explicit captures, what is repeated does not capture. */
  function Repeated(f: Flags, t: Node): Node {
    if f.explicitCaptures && t.CaptureNode? then t.child else t
  }

  /** What follows the atom a of an item t: nothing, a brace that begins no repetition, or a repetition. */
  ghost predicate ItemAfter(s: seq<Byte>, m: nat, j: nat, f: Flags, a: Node, t: Node) {
    || (t == a && j == m && !Is(s, m, '?') && !Is(s, m, '*') && !Is(s, m, '+') && !Is(s, m, '{'))
    || (t == a && j == m + 1 && StrayBrace(s, m))
    || (t.RepeatNode? && t.child == Repeated(f, a) && t.rmin <= t.rmax
        && IsBounds(s, m, j, t.rmin, t.rmax, t.reluctant))
  }

  ghost predicate IsItem(s: seq<Byte>, i: nat, j: nat, f: Flags, t: Node)
    decreases j - i, 1, 0
  {
    exists m: nat, a :: i <= m <= j && IsAtom(s, i, m, f, a) && ItemAfter(s, m, j, f, a, t)
  }

  ghost predicate IsItems(s: seq<Byte>, i: nat, j: nat, f: Flags, ts: seq<Node>)
    decreases j - i, 2, |ts|
  {
    if ts == [] then i == j <= |s|
    else
      var front, last := ts[..|ts| - 1], ts[|ts| - 1];
      exists m: nat :: i <= m < j && IsItems(s, i, m, f, front) && IsItem(s, m, j, f, last)
  }

  ghost predicate IsBranch(s: seq<Byte>, i: nat, j: nat, f: Flags, t: Node)
    decreases j - i, 3, 0
  {
    || (t.BranchNode? && |t.children| != 1 && IsItems(s, i, j, f, t.children))
    || IsItem(s, i, j, f, t)
  }

  ghost predicate IsAlternatives(s: seq<Byte>, i: nat, j: nat, f: Flags, ts: seq<Node>)
    decreases j - i, 4, |ts|
  {
    if |ts| <= 1 then ts != [] && IsBranch(s, i, j, f, ts[0])
    else
      var front, last := ts[..|ts| - 1], ts[|ts| - 1];
      exists m: nat ::
        i <= m < j && Is(s, m, '|') && IsAlternatives(s, i, m, f, front) && IsBranch(s, m + 1, j, f, last)
  }

  ghost predicate IsPattern(s: seq<Byte>, i: nat, j: nat, f: Flags, t: Node)
    decreases j - i, 5, 0
  {
    || IsBranch(s, i, j, f, t)
    || (t.AlternationNode? && |t.children| >= 2 && IsAlternatives(s, i, j, f, t.children))
  }

  // ----- where reading stops -----

  /** No atom begins here. */
  ghost predicate NoAtom(s: seq<Byte>, i: nat, f: Flags)
    requires i <= |s|
    decreases |s| - i, 1
  {
    if Is(s, i, '[') then BadBrackets(s, i)
    else if Is(s, i, '(') then BadGroup(s, i, f)
    else NoRune(s, i) || exists j: nat, c, esc :: IsRune(s, i, j, c, esc) && AtomOf(c, esc, f).None?
  }

  /** A pattern is read up to m; what follows, up to j, cannot continue it. */
  ghost predicate Ends(s: seq<Byte>, i: nat, m: nat, j: nat, f: Flags, t: Node)
    requires i <= |s|
    decreases |s| - i, 3
  {
    i <= m && IsPattern(s, i, m, f, t) && Stops(s, m, j, f) && !Is(s, j, '|')
  }

  /** A group opens, its pattern is read to its end, and there is no parenthesis to close it. */
  ghost predicate BadGroup(s: seq<Byte>, i: nat, f: Flags)
    requires i <= |s|
    decreases |s| - i, 0
  {
    exists k: nat, g, capture, m: nat, j: nat, t ::
      i < k <= |s| && GroupOpens(s, i, k, f, g, capture) && Ends(s, k, m, j, g, t) && !Is(s, j, ')')
  }

  /** No item begins at m: there is no atom, or an atom up to j and then a bad brace. */
  ghost predicate Stops(s: seq<Byte>, m: nat, j: nat, f: Flags)
    decreases |s| - m, 2
  {
    && m <= j <= |s|
    && if m == j then NoAtom(s, m, f) else BadBrace(s, j) && exists a :: IsAtom(s, m, j, f, a)
  }

  // ----- putting texts together -----

  lemma RangesPush(s: seq<Byte>, i: nat, m: nat, j: nat, ts: seq<Node>, t: Node)
    requires IsRanges(s, i, m, ts) && (ts != [] ==> !Is(s, m, ']')) && m < j && IsRange(s, m, j, t)
    ensures IsRanges(s, i, j, ts + [t])
  {
    var all := ts + [t];
    assert all[..|all| - 1] == ts && all[|all| - 1] == t;
  }

  lemma ItemsPush(s: seq<Byte>, i: nat, m: nat, j: nat, f: Flags, ts: seq<Node>, t: Node)
    requires IsItems(s, i, m, f, ts) && i <= m < j && IsItem(s, m, j, f, t)
    ensures IsItems(s, i, j, f, ts + [t])
  {
    var all := ts + [t];
    assert all[..|all| - 1] == ts && all[|all| - 1] == t;
  }

  /** A branch of one item is that item. */
  lemma ItemsAreBranch(s: seq<Byte>, i: nat, j: nat, f: Flags, ts: seq<Node>)
    requires IsItems(s, i, j, f, ts)
    ensures |ts| == 1 ==> IsBranch(s, i, j, f, ts[0])
    ensures |ts| != 1 ==> IsBranch(s, i, j, f, BranchNode(ts))
  {
    if |ts| == 1 {
      var m: nat :| i <= m < j && IsItems(s, i, m, f, ts[..|ts| - 1]) && IsItem(s, m, j, f, ts[|ts| - 1]);
      assert ts[..|ts| - 1] == [];
    }
  }

  lemma AlternativesPush(s: seq<Byte>, i: nat, m: nat, j: nat, f: Flags, ts: seq<Node>, t: Node)
    requires ts != [] && IsAlternatives(s, i, m, f, ts) && i <= m < j && Is(s, m, '|') && IsBranch(s, m + 1, j, f, t)
    ensures IsAlternatives(s, i, j, f, ts + [t])
  {
    var all := ts + [t];
    assert all[..|all| - 1] == ts && all[|all| - 1] == t;
  }

  lemma OneAlternative(s: seq<Byte>, i: nat, j: nat, f: Flags, t: Node)
    requires IsBranch(s, i, j, f, t)
    ensures IsAlternatives(s, i, j, f, [t]) && IsPattern(s, i, j, f, t)
  {
  }

  lemma AlternativesArePattern(s: seq<Byte>, i: nat, j: nat, f: Flags, ts: seq<Node>)
    requires |ts| >= 2 && IsAlternatives(s, i, j, f, ts)
    ensures IsPattern(s, i, j, f, AlternationNode(ts))
  {
  }

  lemma BracketsAreAtom(s: seq<Byte>, i: nat, j: nat, f: Flags, t: Node)
    requires IsBrackets(s, i, j, t)
    ensures IsAtom(s, i, j, f, t)
  {
  }

  lemma RuneIsAtom(s: seq<Byte>, i: nat, j: nat, f: Flags, c: U32, esc: nat, t: Node)
    requires IsRune(s, i, j, c, esc) && AtomOf(c, esc, f) == Some(t) && !Is(s, i, '[') && !Is(s, i, '(')
    ensures IsAtom(s, i, j, f, t)
  {
  }

  lemma GroupIsAtom(s: seq<Byte>, i: nat, k: nat, j: nat, f: Flags, g: Flags, capture: bool, p: Node, t: Node)
    requires i < k < j && GroupOpens(s, i, k, f, g, capture) && Is(s, j - 1, ')') && IsPattern(s, k, j - 1, g, p)
    requires if !capture || (f.explicitCaptures && p.AlternationNode?) then t == p else t.CaptureNode? && t.child == p
    ensures IsAtom(s, i, j, f, t)
  {
  }

  lemma AtomIsItem(s: seq<Byte>, i: nat, m: nat, j: nat, f: Flags, a: Node, t: Node)
    requires i <= m <= j && IsAtom(s, i, m, f, a) && ItemAfter(s, m, j, f, a, t)
    ensures IsItem(s, i, j, f, t)
  {
  }
}
