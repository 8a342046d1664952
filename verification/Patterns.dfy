/** Adding regular expressions and plain strings to an NFA (regex.c, nfa-compile.c). */
module Patterns {
  import opened Bytes
  import opened Ast
  import opened NfaProgram
  import opened NfaObject
  import opened StringSlice
  import opened CaptureNumbers
  import opened Codegen
  import opened CompileFailure
  import opened CompiledTree
  import opened RegexGrammar
  import opened RegexTokens
  import opened RegexUnambiguous
  import opened RegexShape
  import opened RegexParser
  import opened StringMeaning

  /** A whole text that spells flags; bytes are matched as they are unless it takes that back. */
  ghost predicate FlagText(s: seq<Byte>, flags: Flags) {
    FlagChange(s, 0, |s|, false, Flags(false, false, true), flags)
  }

  ghost predicate IsFlagText(s: seq<Byte>) {
    exists flags :: FlagText(s, flags)
  }

  /** Flags that were read up to `end` are a flag text exactly if that is all of the text. */
  lemma FlagTextExactly(s: seq<Byte>, end: nat, flags: Flags)
    requires FlagChange(s, 0, end, false, Flags(false, false, true), flags) && end <= |s|
    ensures end == |s| <==> IsFlagText(s)
    ensures IsFlagText(s) ==> FlagText(s, flags)
  {
    hide FlagChange;
    assert end == |s| ==> FlagText(s, flags);
    if flags' :| FlagText(s, flags') {
      FlagChangeUnique(s, 0, end, false, Flags(false, false, true), flags, |s|, flags');
    }
  }

  predicate Letters(s: seq<Byte>, i: nat, j: nat) {
    forall k: nat :: i <= k < j ==> Is(s, k, 'd') || Is(s, k, 'c') || Is(s, k, 'b')
  }

  lemma RunIsLetters(s: seq<Byte>, i: nat, j: nat, f: Flags)
    requires FlagRun(s, i, j, false, f)
    ensures Letters(s, i, j)
  {
  }

  lemma LettersAreRun(s: seq<Byte>, i: nat, j: nat) returns (f: Flags)
    requires i <= j <= |s| && Letters(s, i, j) && (j == |s| || Is(s, j, '-'))
    ensures FlagRun(s, i, j, false, f)
  {
    f := Flags(exists k :: i <= k < j && Is(s, k, 'd'), exists k :: i <= k < j && Is(s, k, 'c'),
               exists k :: i <= k < j && Is(s, k, 'b'));
  }

  /** Flag texts are made of the flag letters, with at most one minus among them. */
  lemma FlagTextShape(s: seq<Byte>)
    ensures IsFlagText(s) <==>
      Letters(s, 0, |s|) || exists m: nat :: Is(s, m, '-') && Letters(s, 0, m) && Letters(s, m + 1, |s|)
  {
    var start := Flags(false, false, true);
    if flags :| FlagText(s, flags) {
      hide FlagRun;
      var m, add := ChangeBegins(s, 0, |s|, false, start, flags);
      RunIsLetters(s, 0, m, add);
      if Is(s, m, '-') {
        var sub :| FlagRun(s, m + 1, |s|, false, sub) && flags == Remove(Add(start, add), sub);
        RunIsLetters(s, m + 1, |s|, sub);
      }
    }
    if Letters(s, 0, |s|) {
      var add := LettersAreRun(s, 0, |s|);
      assert FlagText(s, Add(start, add));
    }
    if m: nat :| Is(s, m, '-') && Letters(s, 0, m) && Letters(s, m + 1, |s|) {
      var add := LettersAreRun(s, 0, m);
      var sub := LettersAreRun(s, m + 1, |s|);
      hide FlagRun;
      assert FlagText(s, Remove(Add(start, add), sub));
    }
  }

  /** A pattern read to the end of the text spells all of it. */
  lemma EndsInside(s: seq<Byte>, f: Flags, m: nat, e: nat, t: Node)
    requires Ends(s, 0, m, e, f, t) && (e == |s| ==> m == |s|)
    ensures e <= |s| && (e == |s| ==> IsPattern(s, 0, |s|, f, t))
  {
    hide IsPattern, NoAtom;
  }

  /**
   aem_nfa_add_regex. A pattern is added exactly if the flag text spells flags, the whole text spells a
   tree under them, and the tree compiles; the tree added is such a tree. Every parser result meets what
   aem_nfa_add asks for: the captures of the tree are numbered from the left, and the NFA has room for
   all of them. They are 0, 1, 2, ... unless the flag for explicit captures removed one. Unless a failure
   inside an alternation leaves the tree dangling, it is whole, so that what it matches is given by a tree.
   */
  method AddRegex(nfa: Nfa, re: seq<Byte>, m: int, flagText: seq<Byte>)
    returns (r: int, ghost added: bool, ghost root: Node, ghost flags: Flags, ghost deleted: bool)
    requires nfa.Valid()
    modifies nfa
    ensures nfa.Valid()
    ensures IsFlagText(flagText) ==> FlagText(flagText, flags)
    ensures Spelled(re, flags) ==> IsPattern(re, 0, |re|, flags, root)
    ensures added <==> IsFlagText(flagText) && Spelled(re, flags) && !Fails(root)
    ensures !added ==>
      && r == (if IsFlagText(flagText) && !Spelled(re, flags) then 0 else -1)
      && nfa.code == old(nfa.code) && nfa.Inits() == old(nfa.Inits()) && nfa.nCaptures == old(nfa.nCaptures)
      && nfa.nMatches == old(nfa.nMatches) && nfa.patterns == old(nfa.patterns)
    ensures added ==>
      && r == (if m >= 0 then m else old(nfa.nMatches))
      && nfa.code == AddCode(old(nfa.code), root, r, nfa.signedChar)
      && nfa.Inits() == old(nfa.Inits()) + {|old(nfa.code)|}
      && nfa.patterns == old(nfa.patterns) + [Pattern(root, r)]
      && Increasing(Captures(root), 0, nfa.nCaptures)
      && (!deleted ==> Consecutive(Captures(root), 0, |Captures(root)|))
      && (Whole(root) <==> !Dangling(root))
  {
    hide FlagChange, IsPattern, Stops, Emit, AddCode, Fails, Dangling, Whole, Shaped;
    var flagSlice := new Slice(flagText);
    var adjusted := FlagsAdj(flagSlice, Flags(false, false, true), false);
    FlagTextExactly(flagText, flagSlice.start, adjusted);
    var ctx := new Context(re, adjusted);
    ghost var end;
    var tree;
    tree, end := ctx.ParsePattern();
    root, flags, deleted := tree, adjusted, ctx.deleted;
    SpelledExactly(re, flags, end, ctx.input.start, root);
    EndsInside(re, flags, end, ctx.input.start, root);
    BelowAll(root, ctx.nCaptures);
    EmitStatus(root, nfa.nInsns, nfa.signedChar);
    var parsed := Tree(tree, ctx.nCaptures, 0, ctx.input.Ok());
    added := nfa.Added(parsed, flagSlice.Ok());
    r := nfa.Add(parsed, m, flagSlice.Ok());
    if added {
      PatternShaped(re, 0, |re|, flags, root);
      WholeExactly(root);
      Widen(Captures(root), 0, 0, ctx.nCaptures, nfa.nCaptures);
    }
  }

  // ----- plain strings -----

  /** aem_string_compile. */
  method ParseString(input: Slice) returns (root: Node)
    requires input.Valid()
    modifies input`start
    ensures input.Valid() && input.Rest() == []
    ensures root == BranchNode(Atoms(old(input.Rest())))
  {
    var children: seq<Node> := [];
    ghost var text, taken: nat := input.Rest(), 0;
    while true
      invariant input.Valid() && taken <= |text| && input.Rest() == text[taken..]
      invariant children == Atoms(text[..taken])
      decreases input.end - input.start
    {
      var c := input.Getc();
      if c < 0 {
        break;
      }
      children := children + [AtomNode(c)];
      taken := taken + 1;
    }
    root := BranchNode(children);
  }

  /** aem_nfa_add_string: a string is added exactly if the flag text spells flags. */
  method AddString(nfa: Nfa, text: seq<Byte>, m: int, flagText: seq<Byte>) returns (r: int)
    requires nfa.Valid()
    modifies nfa
    ensures nfa.Valid()
    ensures !IsFlagText(flagText) ==>
      && r == -1 && nfa.code == old(nfa.code) && nfa.Inits() == old(nfa.Inits()) && nfa.nCaptures == old(nfa.nCaptures)
      && nfa.nMatches == old(nfa.nMatches) && nfa.patterns == old(nfa.patterns)
    ensures IsFlagText(flagText) ==>
      && r == (if m >= 0 then m else old(nfa.nMatches))
      && nfa.code == AddCode(old(nfa.code), BranchNode(Atoms(text)), r, nfa.signedChar)
      && nfa.Inits() == old(nfa.Inits()) + {|old(nfa.code)|}
      && nfa.nCaptures == old(nfa.nCaptures)
      && nfa.patterns == old(nfa.patterns) + [Pattern(BranchNode(Atoms(text)), r)]
  {
    hide FlagChange, Emit, AddCode;
    var flags := new Slice(flagText);
    var adjusted := FlagsAdj(flags, Flags(false, false, true), false);
    FlagTextExactly(flagText, flags.start, adjusted);
    var input := new Slice(text);
    var root := ParseString(input);
    var parsed := Tree(root, 0, 0, input.Ok());
    assert forall k :: 0 <= k < |root.children| ==> CapturesBelow(root.children[k], 0);
    EmitStatus(root, nfa.nInsns, nfa.signedChar);
    r := nfa.Add(parsed, m, flags.Ok());
  }
}
