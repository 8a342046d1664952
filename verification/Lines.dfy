/** The resumable line splitter (stringslice.c). */
module Lines {
  import opened Bytes
  import opened StringSlice

  const LF: Byte := 10
  const CR: Byte := 13

  /** Index of the first CR or LF, or |s|. */
  function FirstBreak(s: seq<Byte>): (j: nat)
    ensures j <= |s| && (j < |s| ==> s[j] == CR || s[j] == LF)
    ensures forall k :: 0 <= k < j ==> s[k] != CR && s[k] != LF
  {
    if s == [] || s[0] == CR || s[0] == LF then 0 else 1 + FirstBreak(s[1..])
  }

  lemma {:induction false} FirstBreakIs(s: seq<Byte>, j: nat)
    requires j <= |s| && (j < |s| ==> s[j] == CR || s[j] == LF)
    requires forall k :: 0 <= k < j ==> s[k] != CR && s[k] != LF
    ensures FirstBreak(s) == j
  {
  }

  /** Length of the line break at the front of s: CR, LF or CRLF. */
  function BreakLen(s: seq<Byte>): (n: nat)
    ensures n <= |s|
  {
    if s == [] then 0
    else if s[0] == CR then (if |s| > 1 && s[1] == LF then 2 else 1)
    else if s[0] == LF then 1
    else 0
  }

  /** What comes behind the first line and its break. */
  function AfterBreak(s: seq<Byte>): (rest: seq<Byte>)
    ensures FirstBreak(s) < |s| ==> |rest| < |s|
  {
    var j := FirstBreak(s);
    s[j + BreakLen(s[j..])..]
  }

  /** The whole stream, split on CR, LF and CRLF; a last line without a break counts if nonempty. */
  function Lines(s: seq<Byte>): seq<seq<Byte>>
    decreases |s|
  {
    if s == [] then []
    else if FirstBreak(s) == |s| then [s]
    else [s[..FirstBreak(s)]] + Lines(AfterBreak(s))
  }

  /** What is still to come when `s` follows, after a break that was a CR at the end if `state`. */
  function Pending(state: bool, s: seq<Byte>): seq<seq<Byte>> {
    Lines(if state && s != [] && s[0] == LF then s[1..] else s)
  }

  /** aem_stringslice_match_newline: bit 2 for a CR, bit 1 for an LF. */
  method MatchNewline(slice: Slice) returns (matched: nat)
    requires slice.Valid()
    modifies slice`start
    ensures slice.Valid() && slice.start == old(slice.start) + BreakLen(old(slice.Rest()))
    ensures match BreakLen(old(slice.Rest()))
            case 0 => matched == 0
            case 1 => matched == if old(slice.Rest())[0] == CR then 2 else 1
            case _ => matched == 3
  {
    matched := 0;
    var cr := slice.MatchPrefix([CR]);
    if cr {
      matched := 2;
    }
    var lf := slice.MatchPrefix([LF]);
    if lf {
      matched := matched + 1;
    }
  }

  /** The break at j is a CR at the very end, which may turn out to be half of a CRLF. */
  predicate HalfBreak(s: seq<Byte>, j: nat)
    requires j < |s|
  {
    s[j] == CR && j + 1 == |s|
  }

  lemma BreakThen(u: seq<Byte>, future: seq<Byte>)
    requires u != [] && (u[0] == CR || u[0] == LF)
    ensures 0 < BreakLen(u) <= 2 && (u == [CR] ==> BreakLen(u) == 1)
    ensures u == [CR] && future != [] && future[0] == LF ==> BreakLen(u + future) == 2
    ensures u != [CR] || future == [] || future[0] != LF ==> BreakLen(u + future) == BreakLen(u)
  {
  }

  lemma LinesStep(t: seq<Byte>, j: nat)
    requires j == FirstBreak(t) < |t|
    ensures Lines(t) == [t[..j]] + Lines(AfterBreak(t))
  {
    hide FirstBreak, AfterBreak;
  }

  lemma AfterBreakIs(t: seq<Byte>, j: nat)
    requires j == FirstBreak(t)
    ensures AfterBreak(t) == t[j + BreakLen(t[j..])..]
  {
  }

  lemma DropConcat(s: seq<Byte>, future: seq<Byte>, k: nat)
    requires k <= |s|
    ensures (s + future)[k..] == s[k..] + future && (s + future)[..k] == s[..k]
  {
  }

  lemma FirstBreakConcat(s: seq<Byte>, future: seq<Byte>)
    requires FirstBreak(s) < |s|
    ensures FirstBreak(s + future) == FirstBreak(s)
  {
    FirstBreakIs(s + future, FirstBreak(s));
  }

  lemma PendingWhole(s: seq<Byte>)
    ensures Pending(false, s) == Lines(s)
  {
  }

  lemma HalfExactly(s: seq<Byte>, j: nat)
    requires j < |s|
    ensures HalfBreak(s, j) <==> s[j..] == [CR]
  {
    assert s[j..][0] == s[j] && |s[j..]| == |s| - j;
  }

  lemma WholeBreak(s: seq<Byte>, j: nat, future: seq<Byte>)
    requires j == FirstBreak(s) < |s| && !HalfBreak(s, j)
    ensures BreakLen(s[j..] + future) == BreakLen(s[j..])
  {
    hide *;
    HalfExactly(s, j);
    BreakThen(s[j..], future);
  }

  lemma BreakInside(s: seq<Byte>, j: nat, future: seq<Byte>)
    requires j == FirstBreak(s) < |s| && !HalfBreak(s, j)
    ensures Lines(s + future) == [s[..j]] + Pending(false, s[j + BreakLen(s[j..])..] + future)
  {
    hide *;
    PendingWhole(s[j + BreakLen(s[j..])..] + future);
    FirstBreakConcat(s, future);
    WholeBreak(s, j, future);
    DropConcat(s, future, j);
    LinesStep(s + future, j);
    AfterBreakIs(s + future, j);
    DropConcat(s, future, j + BreakLen(s[j..]));
  }

  lemma PendingHalf(s: seq<Byte>, future: seq<Byte>)
    requires s != []
    ensures Pending(true, future)
      == Lines((s + future)[if future != [] && future[0] == LF then |s| + 1 else |s|..])
  {
    assert (s + future)[|s|..] == future;
    if future != [] {
      assert (s + future)[|s| + 1..] == future[1..];
    }
  }

  lemma BreakAtEnd(s: seq<Byte>, j: nat, future: seq<Byte>)
    requires j == FirstBreak(s) < |s| && HalfBreak(s, j)
    ensures BreakLen(s[j..]) == 1 && Lines(s + future) == [s[..j]] + Pending(true, s[j + 1..] + future)
  {
    hide Lines, Pending, FirstBreak, BreakLen;
    FirstBreakConcat(s, future);
    LinesStep(s + future, j);
    assert s[j..] == [CR] && s[j + 1..] == [];
    BreakThen([CR], future);
    DropConcat(s, future, j);
    assert [] + future == future;
    PendingHalf(s, future);
  }

  /** A break at j ends a line, whatever follows; a CR at the very end leaves the LF question open. */
  lemma BreakEndsLine(s: seq<Byte>, j: nat, future: seq<Byte>)
    requires j == FirstBreak(s) < |s|
    ensures BreakLen(s[j..]) > 0
    ensures Lines(s + future) == [s[..j]] + Pending(HalfBreak(s, j), s[j + BreakLen(s[j..])..] + future)
  {
    BreakThen(s[j..], future);
    if HalfBreak(s, j) {
      BreakAtEnd(s, j, future);
    } else {
      BreakInside(s, j, future);
    }
  }

  lemma NoBreakIsLast(s: seq<Byte>)
    requires s != [] && FirstBreak(s) == |s|
    ensures Lines(s) == [s]
  {
  }

  /** What MatchLineMulti promises about the bytes that come later. */
  ghost predicate Splits(state: bool, s: seq<Byte>, line: Option<seq<Byte>>, state': bool, s': seq<Byte>, finish: bool)
  {
    forall future :: (finish ==> future == []) ==>
      Pending(state, s + future) == (if line.Some? then [line.value] else []) + Pending(state', s' + future)
  }

  /** An LF after a split CR belongs to the line before. */
  lemma AfterSkip(state: bool, s: seq<Byte>, line: Option<seq<Byte>>, state': bool, s': seq<Byte>, finish: bool)
    requires state && s != [] && s[0] == LF && Splits(false, s[1..], line, state', s', finish)
    ensures Splits(state, s, line, state', s', finish)
  {
    forall future: seq<Byte> | finish ==> future == []
      ensures Pending(state, s + future) == Pending(false, s[1..] + future)
    {
      assert (s + future)[1..] == s[1..] + future;
    }
  }

  /** A pending CR means nothing when no LF follows. */
  lemma NoSkip(state: bool, s: seq<Byte>, line: Option<seq<Byte>>, state': bool, s': seq<Byte>, finish: bool)
    requires (state ==> s != [] && s[0] != LF) && Splits(false, s, line, state', s', finish)
    ensures Splits(state, s, line, state', s', finish)
  {
    forall future: seq<Byte>
      ensures Pending(state, s + future) == Pending(false, s + future)
    {
      assert s != [] ==> (s + future)[0] == s[0];
    }
  }

  lemma NothingToSplit(state: bool, finish: bool)
    ensures Splits(state, [], None, !finish && state, [], finish)
  {
    assert Pending(state, []) == Pending(false, []);
  }

  lemma SplitsAtBreak(s: seq<Byte>, j: nat, n: nat, state: bool, finish: bool)
    requires j == FirstBreak(s) < |s| && n == BreakLen(s[j..])
    requires state == HalfBreak(s, j)
    ensures Splits(false, s, Some(s[..j]), !finish && state, s[j + n..], finish)
  {
    forall future: seq<Byte> | finish ==> future == []
      ensures Pending(false, s + future) == [s[..j]] + Pending(!finish && state, s[j + n..] + future)
    {
      BreakEndsLine(s, j, future);
    }
  }

  lemma SplitsWithoutBreak(s: seq<Byte>, finish: bool)
    requires s != [] && FirstBreak(s) == |s|
    ensures finish ==> Splits(false, s, Some(s), false, [], true)
    ensures !finish ==> Splits(false, s, None, false, s, false)
  {
    if finish {
      NoBreakIsLast(s);
      assert s + [] == s;
    }
  }

  lemma Window(mem: seq<Byte>, start: nat, end: nat, j: nat)
    requires start <= end <= |mem| && j <= end - start
    ensures mem[start..end][j..] == mem[start + j..end] && mem[start..end][..j] == mem[start..start + j]
  {
  }

  predicate NoBreakBefore(s: seq<Byte>, j: nat) {
    j <= |s| && forall k :: 0 <= k < j ==> s[k] != CR && s[k] != LF
  }

  lemma NothingBefore(s: seq<Byte>)
    ensures NoBreakBefore(s, 0)
  {
  }

  lemma NeverBreaks(s: seq<Byte>)
    requires NoBreakBefore(s, |s|)
    ensures FirstBreak(s) == |s|
  {
    FirstBreakIs(s, |s|);
  }

  /** What a look at byte j says: it is no break, or the first, and a CR at the end if nothing follows it. */
  lemma LookAt(s: seq<Byte>, j: nat)
    requires NoBreakBefore(s, j) && j < |s|
    ensures BreakLen(s[j..]) == 0 ==> NoBreakBefore(s, j + 1)
    ensures BreakLen(s[j..]) != 0 ==> j == FirstBreak(s)
    ensures BreakLen(s[j..]) == 1 && s[j..][0] == CR && j + 1 == |s| <==> HalfBreak(s, j)
  {
    hide FirstBreak;
    assert s[j..][0] == s[j] && |s[j..]| == |s| - j;
    if BreakLen(s[j..]) != 0 {
      FirstBreakIs(s, j);
    }
  }

  /** Nothing from start to pos is a break. */
  predicate Unbroken(mem: seq<Byte>, start: nat, pos: nat) {
    start <= pos <= |mem| && NoBreakBefore(mem[start..pos], pos - start)
  }

  lemma UnbrokenSo(mem: seq<Byte>, start: nat, pos: nat, end: nat)
    requires start <= pos <= end <= |mem|
    ensures Unbroken(mem, start, pos) <==> NoBreakBefore(mem[start..end], pos - start)
  {
    var a, b := mem[start..pos], mem[start..end];
    assert forall k :: 0 <= k < pos - start ==> a[k] == mem[start + k] == b[k];
  }

  lemma StartsUnbroken(mem: seq<Byte>, start: nat)
    requires start <= |mem|
    ensures Unbroken(mem, start, start)
  {
  }

  /** A look at one byte of a slice, where the line that begins at start goes on or ends. */
  lemma LookInSlice(mem: seq<Byte>, start: nat, pos: nat, end: nat, n: nat, state: bool, finish: bool)
    requires Unbroken(mem, start, pos) && pos < end <= |mem| && n == BreakLen(mem[pos..end])
    requires state == (n == 1 && mem[pos..end][0] == CR && pos + n >= end)
    ensures n == 0 ==> Unbroken(mem, start, pos + 1)
    ensures n != 0 ==>
      Splits(false, mem[start..end], Some(mem[start..pos]), !finish && state, mem[pos + n..end], finish)
  {
    var s, j := mem[start..end], pos - start;
    hide *;
    UnbrokenSo(mem, start, pos, end);
    Window(mem, start, end, j);
    assert |s| == end - start;
    LookAt(s, j);
    if n == 0 {
      UnbrokenSo(mem, start, pos + 1, end);
    } else {
      Window(mem, start, end, j + n);
      SplitsAtBreak(s, j, n, state, finish);
    }
  }

  lemma NeverInSlice(mem: seq<Byte>, start: nat, end: nat, finish: bool)
    requires Unbroken(mem, start, end) && start < end
    ensures FirstBreak(mem[start..end]) == end - start
    ensures if finish then Splits(false, mem[start..end], Some(mem[start..end]), false, [], true)
            else Splits(false, mem[start..end], None, false, mem[start..end], false)
  {
    hide Splits, FirstBreak, NoBreakBefore;
    NeverBreaks(mem[start..end]);
    SplitsWithoutBreak(mem[start..end], finish);
  }

  /** The lines of one slice after the LF of a split CRLF has been dealt with. */
  method NextLine(slice: Slice, finish: bool) returns (line: Option<seq<Byte>>, state: bool)
    requires slice.Valid() && slice.Ok()
    modifies slice`start
    ensures slice.Valid() && slice.start >= old(slice.start)
    ensures line.Some? ==> slice.start > old(slice.start)
    ensures Splits(false, old(slice.Rest()), line, state, slice.Rest(), finish)
    ensures line.None? ==> !finish && FirstBreak(slice.Rest()) == |slice.Rest()|
  {
    hide Splits, BreakLen, FirstBreak, HalfBreak, Unbroken;
    StartsUnbroken(slice.mem, slice.start);
    var p := new Slice(slice.mem);
    p.start, p.end := slice.start, slice.end;
    state := false;
    while p.Ok()
      invariant p.Valid() && p.mem == slice.mem && p.end == slice.end && slice.start <= p.start
      invariant slice.start == old(slice.start) && !state
      invariant Unbroken(slice.mem, slice.start, p.start)
      decreases p.end - p.start
    {
      var lineEnd := p.start;
      ghost var n := BreakLen(p.Rest());
      var newline := MatchNewline(p);
      state := newline == 2 && !p.Ok();
      LookInSlice(slice.mem, slice.start, lineEnd, slice.end, n, state, finish);
      if newline != 0 {
        line := Some(slice.mem[slice.start..lineEnd]);
        slice.start := p.start;
        state := !finish && state;
        return;
      }
      var _ := p.Getc();
    }
    NeverInSlice(slice.mem, slice.start, slice.end, finish);
    if finish {
      line := Some(slice.mem[slice.start..p.start]);
      slice.start := p.start;
      assert slice.Rest() == [];
    } else {
      line := None;
    }
  }

  /**
   aem_stringslice_match_line_multi. None stands for the slice with null pointers. Whatever bytes
   come later (none, if finish is set), the lines still to come are the one returned and then those
   that the new state and remainder yield; and no line is held back.
   */
  method MatchLineMulti(slice: Slice, state: bool, finish: bool) returns (line: Option<seq<Byte>>, state': bool)
    requires slice.Valid()
    modifies slice`start
    ensures slice.Valid() && slice.start >= old(slice.start)
    ensures line.Some? ==> slice.start > old(slice.start)
    ensures Splits(state, old(slice.Rest()), line, state', slice.Rest(), finish)
    ensures line.None? ==> FirstBreak(slice.Rest()) == |slice.Rest()| && (finish ==> slice.Rest() == [] && !state')
  {
    hide Splits;
    state' := state;
    ghost var s, skipped := slice.Rest(), false;
    if state {
      var lf := slice.MatchPrefix([LF]);
      if lf {
        state', skipped := false, true;
      }
    }
    if !slice.Ok() {
      NothingToSplit(state', finish);
      if skipped {
        AfterSkip(state, s, None, !finish && state', [], finish);
      }
      return None, !finish && state';
    }
    line, state' := NextLine(slice, finish);
    if skipped {
      AfterSkip(state, s, line, state', slice.Rest(), finish);
    } else {
      NoSkip(state, s, line, state', slice.Rest(), finish);
    }
  }

  /** A caller: append a chunk to what was carried over, and take lines until there are none. */
  method Feed(carried: seq<Byte>, state: bool, chunk: seq<Byte>, finish: bool)
    returns (lines: seq<seq<Byte>>, carried': seq<Byte>, state': bool)
    ensures forall future :: (finish ==> future == []) ==>
      Pending(state, carried + chunk + future) == lines + Pending(state', carried' + future)
    ensures FirstBreak(carried') == |carried'| && (finish ==> carried' == [] && !state')
  {
    hide Pending, Lines;
    var slice := new Slice(carried + chunk);
    ghost var all := slice.Rest();
    var more := true;
    lines, state' := [], state;
    while more
      invariant slice.Valid()
      invariant forall future :: (finish ==> future == []) ==>
        Pending(state, all + future) == lines + Pending(state', slice.Rest() + future)
      invariant !more ==> FirstBreak(slice.Rest()) == |slice.Rest()| && (finish ==> slice.Rest() == [] && !state')
      decreases slice.end - slice.start, more
    {
      ghost var before, st, rest := lines, state', slice.Rest();
      var line, next := MatchLineMulti(slice, state', finish);
      state' := next;
      if line.Some? {
        lines := lines + [line.value];
      } else {
        more := false;
      }
      forall future: seq<Byte> | finish ==> future == []
        ensures Pending(state, all + future) == lines + Pending(state', slice.Rest() + future)
      {
        assert Pending(state, all + future) == before + Pending(st, rest + future);
        Concat(before, if line.Some? then [line.value] else [], Pending(state', slice.Rest() + future));
      }
    }
    carried' := slice.mem[slice.start..slice.end];
  }

  ghost function Joined(chunks: seq<seq<Byte>>): seq<Byte> {
    if chunks == [] then [] else Joined(chunks[..|chunks| - 1]) + chunks[|chunks| - 1]
  }

  lemma JoinedStep(chunks: seq<seq<Byte>>, i: nat)
    requires i < |chunks|
    ensures Joined(chunks[..i + 1]) == Joined(chunks[..i]) + chunks[i]
  {
    assert chunks[..i + 1][..i] == chunks[..i];
  }

  lemma PendingNone(s: seq<Byte>)
    ensures Pending(false, s) == Lines(s) && Pending(false, []) == []
  {
  }

  /** However a stream is cut into chunks, the lines are those of the whole stream. */
  method SplitStream(chunks: seq<seq<Byte>>) returns (lines: seq<seq<Byte>>)
    ensures lines == Lines(Joined(chunks))
  {
    PendingNone(Joined(chunks));
    assert Joined(chunks[..0]) == [];
    PendingNone([]);
    hide Pending, Lines, Joined;
    var carried, state := [], false;
    lines := [];
    var i := 0;
    while i < |chunks|
      invariant i <= |chunks|
      invariant forall future :: (i > 0 && i == |chunks| ==> future == []) ==>
        Pending(false, Joined(chunks[..i]) + future) == lines + Pending(state, carried + future)
      invariant i > 0 && i == |chunks| ==> carried == [] && !state
    {
      ghost var before, st, rest := lines, state, carried;
      var last := i + 1 == |chunks|;
      var new_: seq<seq<Byte>>;
      new_, carried, state := Feed(carried, state, chunks[i], last);
      lines := lines + new_;
      forall future: seq<Byte> | last ==> future == []
        ensures Pending(false, Joined(chunks[..i + 1]) + future) == lines + Pending(state, carried + future)
      {
        JoinedStep(chunks, i);
        Concat(Joined(chunks[..i]), chunks[i], future);
        Concat(rest, chunks[i], future);
        Concat(before, new_, Pending(state, carried + future));
        assert Pending(false, Joined(chunks[..i]) + (chunks[i] + future))
          == before + Pending(st, rest + (chunks[i] + future));
      }
      i := i + 1;
    }
    assert chunks[..|chunks|] == chunks;
    assert Pending(false, Joined(chunks) + []) == lines + Pending(false, [] + []);
    assert Joined(chunks) + [] == Joined(chunks);
  }

  /** A line break cut in two by the end of a chunk is one line break. */
  lemma CutCrlf(a: seq<Byte>, b: seq<Byte>)
    requires FirstBreak(a) == |a|
    ensures Lines(a + [CR] + ([LF] + b)) == [a] + Lines(b)
  {
    var s := a + [CR];
    FirstBreakIs(s, |a|);
    BreakEndsLine(s, |a|, [LF] + b);
    assert s[..|a|] == a;
    assert s[|a| + 1..] + ([LF] + b) == [LF] + b && ([LF] + b)[1..] == b;
  }

  lemma {:induction false} LinesHaveNoBreaks(s: seq<Byte>, k: nat)
    requires k < |Lines(s)|
    ensures FirstBreak(Lines(s)[k]) == |Lines(s)[k]|
    decreases |s|
  {
    var j := FirstBreak(s);
    if j < |s| {
      LinesStep(s, j);
      FirstBreakIs(s[..j], j);
      hide *;
      var rest := Lines(AfterBreak(s));
      if k > 0 {
        LinesHaveNoBreaks(AfterBreak(s), k - 1);
        assert ([s[..j]] + rest)[k] == rest[k - 1];
      }
    }
  }
}
