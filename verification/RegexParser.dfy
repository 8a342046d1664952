/** The recursive-descent parser of regular expressions (regex.c). */
module RegexParser {
  import opened Bytes
  import opened NfaInsn
  import opened Ast
  import opened StringSlice
  import opened CaptureNumbers
  import opened RegexGrammar
  import opened RegexTokens
  import opened RegexUnambiguous
  import Translate
  import RangeComplement

  /** The text of a slice, from the start of its memory to its end. */
  ghost function Text(slice: Slice): (s: seq<Byte>)
    requires slice.Valid()
    reads slice
    ensures slice.end == |slice.mem| ==> s == slice.mem
  {
    slice.mem[..slice.end]
  }

  /** Skip one given byte. */
  method Skip(slice: Slice, c: char) returns (matched: bool)
    requires slice.Valid() && c as int < 0x100
    modifies slice`start
    ensures slice.Valid() && matched == Is(Text(slice), old(slice.start), c)
    ensures slice.start == old(slice.start) + if matched then 1 else 0
  {
    ghost var rest := slice.Rest();
    assert rest != [] ==> rest[0] == slice.mem[slice.start];
    assert rest != [] && rest[0] == c as int ==> [c as int] <= rest;
    matched := slice.MatchPrefix([c as int]);
  }

  ghost predicate LettersUpTo(s: seq<Byte>, i: nat, j: nat, sandbox: bool, flags: Flags) {
    FlagLetters(s, i, j, sandbox, flags) && LoneD(s, i, j, sandbox)
  }

  lemma OneMoreLetter(s: seq<Byte>, i: nat, j: nat, sandbox: bool, f: Flags, c: char)
    requires LettersUpTo(s, i, j, sandbox, f) && Is(s, j, c)
    requires c == 'd' && sandbox ==> j == i || !Is(s, j - 1, 'd')
    ensures c == 'd' ==> LettersUpTo(s, i, j + 1, sandbox, f.(debug := f.debug || !sandbox))
    ensures c == 'c' ==> LettersUpTo(s, i, j + 1, sandbox, f.(explicitCaptures := true))
    ensures c == 'b' ==> LettersUpTo(s, i, j + 1, sandbox, f.(binary := true))
  {
  }

  lemma NoLetters(s: seq<Byte>, i: nat, sandbox: bool)
    requires i <= |s|
    ensures LettersUpTo(s, i, i, sandbox, Flags(false, false, false))
  {
  }

  /** The code looks for a "c" and a "b" behind a "d" that it has skipped, so one more can be left. */
  lemma RunEnds(s: seq<Byte>, i: nat, j: nat, sandbox: bool, f: Flags)
    requires LettersUpTo(s, i, j, sandbox, f) && !Is(s, j, 'c') && !Is(s, j, 'b')
    requires Is(s, j, 'd') ==> sandbox && j > i && Is(s, j - 1, 'd')
    ensures FlagRun(s, i, j, sandbox, f)
  {
  }

  /** aem_regex_flags_parse: letters that a sandboxed pattern may not set are skipped all the same. */
  method FlagsParse(slice: Slice, sandbox: bool) returns (flags: Flags)
    requires slice.Valid()
    modifies slice`start
    ensures slice.Valid() && FlagRun(Text(slice), old(slice.start), slice.start, sandbox, flags)
  {
    hide LettersUpTo, FlagRun;
    flags := Flags(false, false, false);
    ghost var s, i := Text(slice), slice.start;
    NoLetters(s, i, sandbox);
    while true
      invariant slice.Valid() && Text(slice) == s && i <= slice.start
      invariant LettersUpTo(s, i, slice.start, sandbox, flags)
      invariant sandbox ==> slice.start == i || !Is(s, slice.start - 1, 'd')
      decreases slice.end - slice.start
    {
      var d := Skip(slice, 'd');
      if d {
        OneMoreLetter(s, i, slice.start - 1, sandbox, flags, 'd');
      }
      if d && !sandbox {
        flags := flags.(debug := true);
        continue;
      }
      var c := Skip(slice, 'c');
      if c {
        OneMoreLetter(s, i, slice.start - 1, sandbox, flags, 'c');
        flags := flags.(explicitCaptures := true);
        continue;
      }
      var b := Skip(slice, 'b');
      if b {
        OneMoreLetter(s, i, slice.start - 1, sandbox, flags, 'b');
        flags := flags.(binary := true);
        continue;
      }
      break;
    }
    RunEnds(s, i, slice.start, sandbox, flags);
  }

  lemma LettersForward(s: seq<Byte>, i: nat, j: nat, sandbox: bool, f: Flags)
    requires FlagRun(s, i, j, sandbox, f)
    ensures i <= j <= |s|
  {
  }

  /** aem_regex_flags_adj: flags to set, then, after a minus, flags to clear. */
  method FlagsAdj(slice: Slice, flags: Flags, sandbox: bool) returns (adjusted: Flags)
    requires slice.Valid()
    modifies slice`start
    ensures slice.Valid() && slice.start >= old(slice.start)
    ensures FlagChange(Text(slice), old(slice.start), slice.start, sandbox, flags, adjusted)
  {
    var add := FlagsParse(slice, sandbox);
    ghost var s, m := Text(slice), slice.start;
    LettersForward(s, old(slice.start), m, sandbox, add);
    hide FlagRun;
    adjusted := Flags(flags.debug || add.debug, flags.explicitCaptures || add.explicitCaptures,
                      flags.binary || add.binary);
    assert adjusted == Add(flags, add);
    var minus := Skip(slice, '-');
    if minus {
      var sub := FlagsParse(slice, sandbox);
      LettersForward(s, m + 1, slice.start, sandbox, sub);
      adjusted := Flags(adjusted.debug && !sub.debug, adjusted.explicitCaptures && !sub.explicitCaptures,
                        adjusted.binary && !sub.binary);
      assert adjusted == Remove(Add(flags, add), sub);
    }
  }

  function Digit(c: int): int {
    if 48 <= c <= 57 then c - 48 else -1
  }

  /** Once the test for wrapping fails, there is no number. */
  lemma {:induction false} NoneStays(s: seq<Byte>, i: nat, j: nat, j': nat)
    requires i <= j <= j' <= |s| && Wrapped(s, i, j) == None
    ensures Wrapped(s, i, j') == None
    decreases j'
  {
    if j < j' {
      NoneStays(s, i, j, j' - 1);
    }
  }

  /** aem_stringslice_match_uint_base with base 10. */
  method MatchUint(slice: Slice) returns (ok: bool, n: U32)
    requires slice.Valid()
    modifies slice`start
    ensures slice.Valid() && slice.start >= old(slice.start)
    ensures ok ==> IsNumber(Text(slice), old(slice.start), slice.start, n)
    ensures !ok ==> slice.start == old(slice.start) && NoNumber(Text(slice), slice.start)
  {
    var start, best := slice.start, slice.start;
    var value: nat := 0;
    var anyDigits := false;
    n := 0;
    ghost var s := Text(slice);
    while slice.Ok()
      invariant slice.Valid() && Text(slice) == s && start <= best == slice.start && (anyDigits <==> start < best)
      invariant DigitsEnd(s, start) == DigitsEnd(s, best)
      invariant Wrapped(s, start, best) == Some(value)
      decreases slice.end - slice.start
    {
      var c := slice.Getc();
      var digit := Digit(c);
      if digit < 0 {
        break;
      }
      if value > (ULONG_LIMIT - 1) / 10 {
        NoneStays(s, start, best + 1, DigitsEnd(s, start));
        slice.start := start;
        return false, n;
      }
      value := (value * 10 + digit) % ULONG_LIMIT;
      best := slice.start;
      anyDigits := true;
    }
    if !anyDigits || value > UINT_MAX {
      slice.start := start;
      return false, n;
    }
    slice.start := best;
    return true, value;
  }

  lemma SortPermutes(ts: seq<Node>, sorted: seq<Node>)
    requires SortOf(ts, sorted)
    ensures multiset(sorted) == multiset(ts)
  {
  }

  /** The sort has an outcome, whether or not its comparison is an order. */
  lemma CanSortRanges(ts: seq<Node>)
    ensures exists sorted :: SortOf(ts, sorted)
  {
    if RangeComplement.Comparable(ts) {
      var sorted := RangeComplement.CanSort(ts);
      RangeComplement.SameComparable(ts, sorted);
      RangeComplement.SortedAlike(sorted);
      assert SortOf(ts, sorted);
    } else {
      assert SortOf(ts, ts);
    }
  }

  /** A pattern of which reading stops at a bar or a parenthesis ends there. */
  lemma StopsNoBar(s: seq<Byte>, m: nat, j: nat, f: Flags)
    requires Stops(s, m, j, f)
    ensures Is(s, j, '|') || Is(s, j, ')') ==> m == j
  {
    hide NoAtom, IsAtom, IsQuantifier;
  }

  lemma GroupIsBad(s: seq<Byte>, i: nat, k: nat, f: Flags, g: Flags, capture: bool, m: nat, j: nat, t: Node)
    requires i < k <= |s| && GroupOpens(s, i, k, f, g, capture) && Ends(s, k, m, j, g, t) && !Is(s, j, ')')
    ensures BadGroup(s, i, f)
  {
  }

  /** An interval that was read up to `end`, with no brace there to close it. */
  lemma NotClosed(s: seq<Byte>, i: nat, mid: nat, end: nat, lower: bool, min: U32, comma: bool, upper: bool)
    requires Is(s, i, '{') && !Is(s, end, '}') && comma == Is(s, mid, ',') && (lower || comma)
    requires if lower then IsNumber(s, i + 1, mid, min) else mid == i + 1
    requires !comma ==> end == mid
    requires comma ==> if upper then end == DigitsEnd(s, mid + 1) else end == mid + 1 && NoNumber(s, mid + 1)
    ensures BadBrace(s, i)
  {
    hide IsInterval, Wrapped;
    if !lower {
      NoDigitsHere(s, mid);
    }
    forall j: nat, min', max'
      ensures !IsQuantifier(s, i, j, min', max')
    {
      if IsQuantifier(s, i, j, min', max') {
        IntervalEnd(s, i + 1, j - 1, min', max');
      }
    }
  }

  /** A quantifier whose bounds are out of order. */
  lemma OutOfOrder(s: seq<Byte>, i: nat, j: nat, min: U32, max: U32)
    requires IsQuantifier(s, i, j, min, max) && min > max
    ensures BadBrace(s, i)
  {
    forall j': nat, min', max' | IsQuantifier(s, i, j', min', max')
      ensures min' > max'
    {
      QuantifierUnique(s, i, j, min, max, j', min', max');
    }
    if StrayBrace(s, i) {
      StrayIsNone(s, i, j, min, max);
    }
  }

  lemma NoRanges(s: seq<Byte>, i: nat)
    requires i <= |s|
    ensures IsRanges(s, i, i, [])
  {
  }

  lemma NoItems(s: seq<Byte>, i: nat, f: Flags)
    requires i <= |s|
    ensures IsItems(s, i, i, f, [])
  {
  }

  /** struct aem_nfa_compile_ctx, as far as the parser uses it. */
  class Context {
    const input: Slice
    var nCaptures: nat
    var flags: Flags
    ghost var deleted: bool  // an explicit-capture flag has made a group not capture

    ghost predicate Valid()
      reads this, input
    {
      input.Valid() && input.end == |input.mem|
    }

    constructor (text: seq<Byte>, flags: Flags)
      ensures Valid() && fresh(input) && input.mem == text && input.start == 0
      ensures nCaptures == 0 && !deleted && this.flags == flags
    {
      input := new Slice(text);
      nCaptures, this.flags, deleted := 0, flags, false;
    }

    method Match(c: char) returns (matched: bool)
      requires Valid() && c as int < 0x100
      modifies input`start
      ensures Valid() && matched == Is(input.mem, old(input.start), c)
      ensures input.start == old(input.start) + if matched then 1 else 0
    {
      matched := Skip(input, c);
    }

    /** The escape in front, if there is one. */
    method MatchEscape() returns (ok: bool, c: U32, esc: nat)
      requires Valid()
      modifies input`start
      ensures Valid() && (ok ==> input.start > old(input.start))
      ensures ok ==> IsRune(input.mem, old(input.start), input.start, c, esc)
      ensures !ok ==> input.start == old(input.start) && NoRune(input.mem, input.start)
    {
      hide Translate.UnescapeFront;
      ok, c, esc := Translate.UnescapeRune(input);
    }

    // ----- brackets -----

    /** re_parse_named_class. */
    method ParseNamedClass() returns (node: Option<Node>)
      requires Valid()
      modifies input`start
      ensures Valid() && (node.None? ==> input.start == old(input.start) && NoNamedClass(input.mem, input.start))
      ensures node.Some? ==> input.start > old(input.start) && Leaf(node.value)
      ensures node.Some? ==> IsNamedClass(input.mem, old(input.start), input.start, node.value)
    {
      hide ClassNamed;
      var orig := input.start;
      node := None;
      var open := Match('[');
      if open {
        open := Match(':');
      }
      if !open {
        input.start := orig;
        return;
      }
      var neg := Match('^');
      var first := input.start;
      while input.Ok() && IsAlnum(input.mem[input.start])
        invariant Valid() && first <= input.start
        invariant forall k :: first <= k < input.start ==> IsAlnum(input.mem[k])
        decreases input.end - input.start
      {
        input.start := input.start + 1;
      }
      ghost var last := input.start;
      var cclass := ClassNamed(input.mem[first..input.start]);
      var close := Match(':');
      if close {
        close := Match(']');
      }
      if !close || cclass.None? {
        OnlyOneName(input.mem, orig, first, last, neg);
        input.start := orig;
        return;
      }
      node := Some(ClassNode(neg, false, cclass.value));
      assert Caret(input.mem, orig + 2, first, neg);
      assert ClassNamed(input.mem[first..last]) == cclass;
    }

    /** re_parse_range. */
    method ParseRange() returns (node: Option<Node>)
      requires Valid()
      modifies input`start
      ensures Valid() && (node.None? ==> input.start == old(input.start) && NoRange(input.mem, input.start))
      ensures node.Some? ==> input.start > old(input.start) && Leaf(node.value)
      ensures node.Some? ==> IsRange(input.mem, old(input.start), input.start, node.value)
    {
      hide IsRune, IsNamedClass, NoNamedClass, NoRune;
      node := ParseNamedClass();
      if node.Some? {
        return;
      }
      var orig := input.start;
      var ok, lo, esc := MatchEscape();
      if !ok {
        return None;
      }
      ghost var mid := input.start;
      assert IsSomeRune(input.mem, orig, mid, lo);
      var hi := lo;
      var dash := Match('-');
      if dash {
        ok, hi, esc := MatchEscape();
        if !ok {
          input.start := orig;
          return None;
        }
        assert IsSomeRune(input.mem, mid + 1, input.start, hi);
      }
      node := Some(RangeNode(lo, hi));
    }

    /** re_parse_brackets, with any order that qsort may leave the children in. */
    method ParseBrackets() returns (node: Option<Node>)
      requires Valid()
      modifies input`start
      ensures Valid() && (node.None? ==> input.start == old(input.start))
      ensures node.None? && Is(input.mem, input.start, '[') ==> BadBrackets(input.mem, input.start)
      ensures node.Some? ==> input.start > old(input.start) && node.value.AlternationNode?
      ensures node.Some? ==> forall k :: 0 <= k < |node.value.children| ==> Leaf(node.value.children[k])
      ensures node.Some? ==> IsBrackets(input.mem, old(input.start), input.start, node.value)
    {
      hide RangeComplement.ComplementOf, IsRange, IsRanges, NoRange, SortOf;
      var orig := input.start;
      var open := Match('[');
      if !open {
        return None;
      }
      var negate := Match('^');
      ghost var first := input.start;
      var children: seq<Node> := [];
      NoRanges(input.mem, first);
      ghost var last := first;
      var closed := false;
      while input.Ok() && !closed
        invariant Valid() && orig < first <= last && input.start == last + if closed then 1 else 0
        invariant forall k :: 0 <= k < |children| ==> Leaf(children[k])
        invariant IsRanges(input.mem, first, last, children) && (children != [] <==> last > first)
        invariant closed ==> last > first && Is(input.mem, last, ']')
        invariant !closed && last > first ==> !Is(input.mem, last, ']')
        decreases input.end - input.start
      {
        var range := ParseRange();
        if range.None? {
          assert BadParts(input.mem, orig, negate, first, last, children);
          input.start := orig;
          return None;
        }
        RangesPush(input.mem, first, last, input.start, children, range.value);
        last := input.start;
        children := children + [range.value];
        closed := Match(']');
      }
      CanSortRanges(children);
      var sorted :| SortOf(children, sorted);
      SortPermutes(children, sorted);
      SortKeeps(children, sorted);
      ghost var perm := sorted;
      if negate {
        var complement := RangeComplement.Complement(sorted);
        if complement.None? {
          assert BadParts(input.mem, orig, negate, first, last, children);
          input.start := orig;
          return None;
        }
        sorted := complement.value;
      }
      node := Some(AlternationNode(sorted));
      assert BracketParts(input.mem, orig, input.start, node.value, negate, first, last, children, perm);
    }

    // ----- groups, repetitions, branches, patterns -----

    /** The captures of a tree parsed since there were lo of them. */
    ghost predicate Numbered(t: Node, lo: nat)
      reads this
    {
      Increasing(Captures(t), lo, nCaptures) && (!deleted ==> Consecutive(Captures(t), lo, nCaptures))
    }

    /** The group of re_parse_atom, after its parenthesis. */
    method ParseGroup(orig: nat) returns (node: Option<Node>)
      requires Valid() && input.start == orig + 1 && Is(input.mem, orig, '(')
      modifies this, input`start
      decreases input.end - input.start, 4
      ensures Valid() && flags == old(flags) && (old(deleted) ==> deleted)
      ensures node.None? ==> input.start == orig && nCaptures == old(nCaptures) && BadGroup(input.mem, orig, flags)
      ensures node.Some? ==> input.start > orig && Numbered(node.value, old(nCaptures))
      ensures node.Some? ==> IsAtom(input.mem, orig, input.start, flags, node.value)
    {
      hide IsAtom, IsPattern, NoAtom, Stops, FlagChange, Increasing, Consecutive, Captures;
      var doCapture := true;
      var saved := flags;
      var question := Match('?');
      if question {
        flags := FlagsAdj(input, flags, true);
        var colon := Match(':');
        if colon {
          doCapture := false;
        }
      }
      ghost var first, inner := input.start, flags;
      assert GroupOpens(input.mem, orig, first, saved, inner, doCapture);
      hide GroupOpens;
      var i := nCaptures;
      if doCapture {
        nCaptures := nCaptures + 1;
      }
      ghost var lo := nCaptures;
      var pattern, m := ParsePattern();
      flags := saved;
      ghost var end := input.start;
      var close := Match(')');
      if !close {
        GroupIsBad(input.mem, orig, first, saved, inner, doCapture, m, end, pattern);
        nCaptures := i;
        input.start := orig;
        return None;
      }
      StopsNoBar(input.mem, m, end, inner);
      var explicitOnly := flags.explicitCaptures && pattern.AlternationNode?;
      if !doCapture {
        node := Some(pattern);
      } else if explicitOnly {
        deleted := true;
        Widen(Captures(pattern), lo, i, nCaptures, nCaptures);
        node := Some(pattern);
      } else {
        Prepend(i, Captures(pattern), nCaptures);
        CapturesOfCapture(i, pattern);
        node := Some(CaptureNode(i, pattern));
      }
      GroupIsAtom(input.mem, orig, first, input.start, flags, inner, doCapture, pattern, node.value);
    }

    /** re_parse_atom. */
    method ParseAtom() returns (node: Option<Node>)
      requires Valid()
      modifies this, input`start
      decreases input.end - input.start, 0
      ensures Valid() && flags == old(flags) && (old(deleted) ==> deleted)
      ensures node.None? ==> input.start == old(input.start) && nCaptures == old(nCaptures)
      ensures node.None? ==> NoAtom(input.mem, input.start, flags)
      ensures node.Some? ==> input.start > old(input.start) && Numbered(node.value, old(nCaptures))
      ensures node.Some? ==> IsAtom(input.mem, old(input.start), input.start, flags, node.value)
    {
      hide IsAtom, IsBrackets, BadBrackets, BadGroup, AtomOf, NoRune;
      var orig := input.start;
      var bracket := Match('[');
      if bracket {
        input.start := orig;
        node := ParseBrackets();
        if node.Some? {
          LeavesHaveNone(node.value.children);
          BracketsAreAtom(input.mem, orig, input.start, flags, node.value);
        }
        return;
      }
      var paren := Match('(');
      if paren {
        node := ParseGroup(orig);
        return;
      }
      var ok, c, esc := MatchEscape();
      if !ok {
        return None;
      }
      node := AtomOf(c, esc, flags);
      if node.None? {
        input.start := orig;
      } else {
        RuneIsAtom(input.mem, orig, input.start, flags, c, esc, node.value);
      }
    }

    /** No quantifier begins at i; the input stands there, or behind a brace that begins none. */
    ghost predicate NoQuantifier(i: nat)
      reads input
    {
      if input.start == i
      then !Is(input.mem, i, '?') && !Is(input.mem, i, '*') && !Is(input.mem, i, '+') && !Is(input.mem, i, '{')
      else input.start == i + 1 && StrayBrace(input.mem, i)
    }

    /** What follows the brace. */
    method ParseInterval(orig: nat) returns (found: bool, ok: bool, min: U32, max: U32)
      requires Valid() && input.start == orig + 1 && Is(input.mem, orig, '{')
      modifies input`start
      ensures Valid() && input.start >= orig
      ensures !ok ==> input.start == orig && BadBrace(input.mem, orig)
      ensures found && ok ==> IsQuantifier(input.mem, orig, input.start, min, max)
      ensures !found && ok ==> NoQuantifier(orig)
    {
      hide Wrapped, NoNumber, BadBrace;
      var first := input.start;
      max := UINT_MAX;
      var lower, n := MatchUint(input);
      min := if lower then n else 0;
      ghost var mid := input.start;
      var comma := Match(',');
      if !lower && !comma {
        return false, true, min, max;
      }
      var upper := false;
      if comma {
        upper, n := MatchUint(input);
      }
      max := if upper then n else UINT_MAX;
      if lower && !comma {
        max := min;
      }
      ghost var end := input.start;
      var close := Match('}');
      if !close {
        NotClosed(input.mem, orig, mid, end, lower, min, comma, upper);
        input.start := orig;
        return false, false, min, max;
      }
      assert comma ==> Is(input.mem, mid, ',');
      assert IsInterval(input.mem, first, end, min, max);
      return true, true, min, max;
    }

    /** The quantifier in front: none, one, or a failure after the brace. */
    method ParseQuantifier() returns (found: bool, ok: bool, min: U32, max: U32)
      requires Valid()
      modifies input`start
      ensures Valid() && input.start >= old(input.start)
      ensures !ok ==> input.start == old(input.start) && BadBrace(input.mem, input.start)
      ensures found && ok ==> IsQuantifier(input.mem, old(input.start), input.start, min, max)
      ensures !found && ok ==> NoQuantifier(old(input.start))
    {
      hide IsNumber, IsInterval, StrayBrace, BadBrace;
      var orig := input.start;
      found, ok, min, max := true, true, 0, UINT_MAX;
      var question := Match('?');
      if question {
        max := 1;
        return;
      }
      var star := Match('*');
      if star {
        return;
      }
      var plus := Match('+');
      if plus {
        min := 1;
        return;
      }
      var brace := Match('{');
      if !brace {
        found := false;
        return;
      }
      found, ok, min, max := ParseInterval(orig);
    }

    /** The quantifier and the mark that makes it reluctant. */
    method ParseBounds() returns (found: bool, ok: bool, min: U32, max: U32, reluctant: bool)
      requires Valid()
      modifies input`start
      ensures Valid() && input.start >= old(input.start)
      ensures !ok ==> input.start == old(input.start) && BadBrace(input.mem, input.start)
      ensures found && ok ==> min <= max && IsBounds(input.mem, old(input.start), input.start, min, max, reluctant)
      ensures !found && ok ==> NoQuantifier(old(input.start))
    {
      hide IsQuantifier, BadBrace;
      var orig := input.start;
      reluctant := false;
      found, ok, min, max := ParseQuantifier();
      if !found || !ok {
        return;
      }
      ghost var quantifierEnd := input.start;
      reluctant := Match('?');
      if min > max {
        OutOfOrder(input.mem, orig, quantifierEnd, min, max);
        input.start := orig;
        ok := false;
      }
    }

    /** re_parse_postfix. A failure after the atom leaves the input at the brace. */
    method ParsePostfix() returns (node: Option<Node>)
      requires Valid()
      modifies this, input`start
      decreases input.end - input.start, 1
      ensures Valid() && input.start >= old(input.start) && nCaptures >= old(nCaptures)
      ensures flags == old(flags) && (old(deleted) ==> deleted)
      ensures node.None? ==> Stops(input.mem, old(input.start), input.start, flags)
      ensures node.None? && input.start == old(input.start) ==> nCaptures == old(nCaptures)
      ensures node.Some? ==> input.start > old(input.start) && Numbered(node.value, old(nCaptures))
      ensures node.Some? ==> IsItem(input.mem, old(input.start), input.start, flags, node.value)
    {
      hide IsAtom, IsItem, IsBounds, NoAtom, StrayBrace, BadBrace;
      var atom := ParseAtom();
      if atom.None? {
        return None;
      }
      ghost var mid := input.start;
      var found, ok, min, max, reluctant := ParseBounds();
      if !ok {
        return None;
      }
      if !found {
        AtomIsItem(input.mem, old(input.start), mid, input.start, flags, atom.value, atom.value);
        return atom;
      }
      var tree := atom.value;
      if flags.explicitCaptures && tree.CaptureNode? {
        DropTop(tree.capture, Captures(tree.child), old(nCaptures), nCaptures);
        deleted := true;
        if tree.capture == nCaptures - 1 {
          nCaptures := nCaptures - 1;
        }
        tree := tree.child;
      }
      node := Some(RepeatNode(min, max, reluctant, tree));
      AtomIsItem(input.mem, old(input.start), mid, input.start, flags, atom.value, node.value);
    }

    /** re_parse_branch. The branch ends at m; a failure after an atom leaves the input further on, at a brace. */
    method ParseBranch() returns (node: Node, ghost m: nat)
      requires Valid()
      modifies this, input`start
      decreases input.end - input.start, 2
      ensures Valid() && old(input.start) <= m <= input.start
      ensures flags == old(flags) && (old(deleted) ==> deleted)
      ensures Increasing(Captures(node), old(nCaptures), nCaptures)
      ensures !deleted && m == input.start ==> Consecutive(Captures(node), old(nCaptures), nCaptures)
      ensures IsBranch(input.mem, old(input.start), m, flags, node) && Stops(input.mem, m, input.start, flags)
    {
      hide Increasing, Consecutive, CapturesOf, IsItems, IsItem, IsBranch, NoAtom, Stops;
      ghost var i := input.start;
      m := i;
      var children: seq<Node> := [];
      NoCaptures(nCaptures);
      NoItems(input.mem, i, flags);
      var more := true;
      while more && input.Ok()
        invariant Valid() && i <= m <= input.start && (more ==> m == input.start)
        invariant flags == old(flags) && (old(deleted) ==> deleted)
        invariant Increasing(CapturesOf(children), old(nCaptures), nCaptures)
        invariant !deleted && m == input.start ==> Consecutive(CapturesOf(children), old(nCaptures), nCaptures)
        invariant IsItems(input.mem, i, m, flags, children)
        invariant !more ==> Stops(input.mem, m, input.start, flags)
        decreases more, input.end - input.start
      {
        ghost var mid := nCaptures;
        var atom := ParsePostfix();
        if atom.None? {
          Widen(CapturesOf(children), old(nCaptures), old(nCaptures), mid, nCaptures);
          more := false;
        } else {
          CapturesOfPush(children, atom.value);
          Append(CapturesOf(children), Captures(atom.value), old(nCaptures), mid, nCaptures);
          ItemsPush(input.mem, i, m, input.start, flags, children, atom.value);
          children := children + [atom.value];
          m := input.start;
        }
      }
      if more {
        NoAtomAt(input.mem, m, flags);
      }
      CapturesOfList(children);
      ItemsAreBranch(input.mem, i, m, flags, children);
      if |children| == 1 {
        assert children == [children[0]];
        CapturesOfOne(children[0]);
        return children[0], m;
      }
      return BranchNode(children), m;
    }

    /** re_parse_pattern. The pattern ends at m; a failure after an atom leaves the input further on, at a brace. */
    method ParsePattern() returns (node: Node, ghost m: nat)
      requires Valid()
      modifies this, input`start
      decreases input.end - input.start, 3
      ensures Valid() && old(input.start) <= m <= input.start
      ensures flags == old(flags) && (old(deleted) ==> deleted)
      ensures Increasing(Captures(node), old(nCaptures), nCaptures)
      ensures !deleted && m == input.start ==> Consecutive(Captures(node), old(nCaptures), nCaptures)
      ensures Ends(input.mem, old(input.start), m, input.start, flags, node)
    {
      hide Increasing, Consecutive, CapturesOf, IsBranch, IsAlternatives, IsPattern, NoAtom, Stops;
      ghost var i := input.start;
      var branch;
      branch, m := ParseBranch();
      OneAlternative(input.mem, i, m, flags, branch);
      StopsNoBar(input.mem, m, input.start, flags);
      var bar := Match('|');
      if !bar {
        return branch, m;
      }
      var children := [branch];
      CapturesOfOne(branch);
      while bar
        invariant Valid() && i <= m && if bar then input.start == m + 1 && Is(input.mem, m, '|') else m <= input.start
        invariant flags == old(flags) && (old(deleted) ==> deleted)
        invariant Increasing(CapturesOf(children), old(nCaptures), nCaptures)
        invariant !deleted && (bar || m == input.start) ==> Consecutive(CapturesOf(children), old(nCaptures), nCaptures)
        invariant IsAlternatives(input.mem, i, m, flags, children)
        invariant !bar ==> Stops(input.mem, m, input.start, flags) && !Is(input.mem, input.start, '|')
        invariant |children| >= if bar then 1 else 2
        decreases bar, input.end - input.start
      {
        ghost var mid, at := nCaptures, m;
        var rest;
        rest, m := ParseBranch();
        CapturesOfPush(children, rest);
        Append(CapturesOf(children), Captures(rest), old(nCaptures), mid, nCaptures);
        AlternativesPush(input.mem, i, at, m, flags, children, rest);
        StopsNoBar(input.mem, m, input.start, flags);
        children := children + [rest];
        bar := Match('|');
      }
      CapturesOfList(children);
      AlternativesArePattern(input.mem, i, m, flags, children);
      return AlternationNode(children), m;
    }
  }
}
