/**
 What the captures of a match are: the last position at which a group was entered and the last at which it
 was left, and between them the content of the group matches.
 */
module CaptureSpans {
  import opened Bytes
  import opened NfaSemantics
  import opened Ast
  import opened CompiledTree
  import opened NfaVm

  // ----- the last event of a kind -----

  predicate IsEvent(e: Event, end: bool, n: nat) {
    e.end == end && e.n == n
  }

  predicate NoEvent(ev: seq<Event>, end: bool, n: nat) {
    forall k :: 0 <= k < |ev| ==> !IsEvent(ev[k], end, n)
  }

  /** The last event of capture n on this side stands at k. */
  predicate LastAt(ev: seq<Event>, end: bool, n: nat, k: nat) {
    k < |ev| && IsEvent(ev[k], end, n) && NoEvent(ev[k + 1..], end, n)
  }

  /** The position of that event. */
  ghost predicate Last(ev: seq<Event>, end: bool, n: nat, pos: Option<nat>) {
    match pos
    case None => NoEvent(ev, end, n)
    case Some(p) => exists k: nat :: LastAt(ev, end, n, k) && ev[k].pos == p
  }

  lemma LastSnoc(ev: seq<Event>, e: Event, end: bool, n: nat, pos: Option<nat>)
    requires Last(ev, end, n, pos)
    ensures Last(ev + [e], end, n, if IsEvent(e, end, n) then Some(e.pos) else pos)
  {
    var all := ev + [e];
    if IsEvent(e, end, n) {
      assert LastAt(all, end, n, |ev|);
    } else if pos.Some? {
      var k: nat :| LastAt(ev, end, n, k) && ev[k].pos == pos.value;
      assert all[k + 1..] == ev[k + 1..] + [e];
      assert LastAt(all, end, n, k);
    }
  }

  /** A capture array holds, for every capture, where it was last begun and where it was last ended. */
  lemma {:induction false} ReplayIsLast(nc: nat, ev: seq<Event>, n: nat)
    requires n < nc
    ensures Last(ev, false, n, Replay(nc, ev)[n].start) && Last(ev, true, n, Replay(nc, ev)[n].end)
  {
    if ev != [] {
      var front, e := ev[..|ev| - 1], ev[|ev| - 1];
      var span := Replay(nc, front)[n];
      assert ev == front + [e];
      ReplayIsLast(nc, front, n);
      LastSnoc(front, e, false, n, span.start);
      LastSnoc(front, e, true, n, span.end);
      hide Last, NoEvent, LastAt;
    }
  }

  lemma OneLast(ev: seq<Event>, end: bool, n: nat, k: nat, l: nat)
    requires LastAt(ev, end, n, k) && LastAt(ev, end, n, l)
    ensures k == l
  {
    var after := ev[k + 1..];
    assert forall m :: 0 <= m < |after| ==> after[m] == ev[k + 1 + m];
  }

  /** There is only one such position. */
  lemma LastUnique(ev: seq<Event>, end: bool, n: nat, p: Option<nat>, q: Option<nat>)
    requires Last(ev, end, n, p) && Last(ev, end, n, q)
    ensures p == q
  {
    if p.Some? && q.Some? {
      var k: nat :| LastAt(ev, end, n, k) && ev[k].pos == p.value;
      var l: nat :| LastAt(ev, end, n, l) && ev[l].pos == q.value;
      OneLast(ev, end, n, k, l);
    }
  }

  lemma LastConcat(e1: seq<Event>, e2: seq<Event>, end: bool, n: nat, p1: Option<nat>, p2: Option<nat>)
    requires Last(e1, end, n, p1) && Last(e2, end, n, p2)
    ensures Last(e1 + e2, end, n, if p2.Some? then p2 else p1)
  {
    var ev := e1 + e2;
    if p2.Some? {
      var k: nat :| LastAt(e2, end, n, k) && e2[k].pos == p2.value;
      assert ev[|e1| + k + 1..] == e2[k + 1..];
      assert LastAt(ev, end, n, |e1| + k);
    } else if p1.Some? {
      var k: nat :| LastAt(e1, end, n, k) && e1[k].pos == p1.value;
      assert ev[k + 1..] == e1[k + 1..] + e2;
      assert LastAt(ev, end, n, k);
    }
  }

  // ----- what a group matched -----

  /** Capture n in t is a group with the given content, in which n does not occur again; or n does not occur at all. */
  predicate GroupIs(t: Node, n: nat, content: Option<Node>) {
    match t
    case RangeNode(_, _) => true
    case AtomNode(_) => true
    case ClassNode(_, _, _) => true
    case CaptureNode(c, child) =>
      if c == n then content == Some(child) && GroupIs(child, n, None) else GroupIs(child, n, content)
    case RepeatNode(_, _, _, child) => GroupIs(child, n, content)
    case BranchNode(children) => forall k :: 0 <= k < |children| ==> GroupIs(children[k], n, content)
    case AlternationNode(children) => forall k :: 0 <= k < |children| ==> GroupIs(children[k], n, content)
  }

  /** Either nothing was captured, or the content matches between the two ends. */
  ghost predicate Fits(content: Option<Node>, s: seq<Byte>, i: nat, j: nat, span: Span) {
    match (span.start, span.end)
    case (None, None) => true
    case (Some(a), Some(b)) =>
      content.Some? && i <= a <= b <= j && exists inner :: Matches(content.value, s, a, b, inner)
    case _ => false
  }

  /** The events leave capture n in such a state. */
  ghost predicate Captured(content: Option<Node>, n: nat, s: seq<Byte>, i: nat, j: nat, ev: seq<Event>) {
    exists span: Span :: Last(ev, false, n, span.start) && Last(ev, true, n, span.end) && Fits(content, s, i, j, span)
  }

  lemma NothingCaptured(content: Option<Node>, n: nat, s: seq<Byte>, i: nat, j: nat)
    ensures Captured(content, n, s, i, j, [])
  {
    var span := Span(None, None);
    assert Last([], false, n, span.start) && Last([], true, n, span.end) && Fits(content, s, i, j, span);
  }

  lemma FitsWider(content: Option<Node>, s: seq<Byte>, i: nat, j: nat, i': nat, j': nat, span: Span)
    requires Fits(content, s, i, j, span) && i' <= i && j <= j'
    ensures Fits(content, s, i', j', span)
  {
  }

  /** A later capture replaces an earlier one. */
  lemma CapturedTwice(
      content: Option<Node>, n: nat, s: seq<Byte>, i: nat, m: nat, j: nat, e1: seq<Event>, e2: seq<Event>)
    requires Captured(content, n, s, i, m, e1) && Captured(content, n, s, m, j, e2) && i <= m <= j
    ensures Captured(content, n, s, i, j, e1 + e2)
  {
    var a: Span :| Last(e1, false, n, a.start) && Last(e1, true, n, a.end) && Fits(content, s, i, m, a);
    var b: Span :| Last(e2, false, n, b.start) && Last(e2, true, n, b.end) && Fits(content, s, m, j, b);
    LastConcat(e1, e2, false, n, a.start, b.start);
    LastConcat(e1, e2, true, n, a.end, b.end);
    FitsWider(content, s, i, m, i, j, a);
    FitsWider(content, s, m, j, i, j, b);
    hide Last;
    var span := if b.start.Some? then b else a;
    assert Last(e1 + e2, false, n, span.start) && Last(e1 + e2, true, n, span.end) && Fits(content, s, i, j, span);
  }

  lemma NoneInside(n: nat, s: seq<Byte>, i: nat, j: nat, ev: seq<Event>)
    requires Captured(None, n, s, i, j, ev)
    ensures Last(ev, false, n, None) && Last(ev, true, n, None)
  {
    hide Last;
  }

  lemma OwnEvents(m: nat, i: nat, j: nat, inner: seq<Event>, end: bool, n: nat, pos: Option<nat>)
    requires Last(inner, end, n, pos) && (m == n ==> pos == None)
    ensures Last([Event(false, m, i)] + inner + [Event(true, m, j)], end, n,
                 if m != n then pos else Some(if end then j else i))
  {
    var open := [Event(false, m, i)];
    LastSnoc([], Event(false, m, i), end, n, None);
    assert [] + open == open;
    var before: Option<nat> := if !end && m == n then Some(i) else None;
    assert Last(open, end, n, before);
    LastConcat(open, inner, end, n, before, pos);
    LastSnoc(open + inner, Event(true, m, j), end, n, if pos.Some? then pos else before);
    hide Last;
  }

  lemma GroupCaptured(
      content: Option<Node>, n: nat, m: nat, child: Node, s: seq<Byte>, i: nat, j: nat, inner: seq<Event>)
    requires Matches(child, s, i, j, inner) && i <= j
    requires if m == n then content == Some(child) && Captured(None, n, s, i, j, inner)
             else Captured(content, n, s, i, j, inner)
    ensures Captured(content, n, s, i, j, [Event(false, m, i)] + inner + [Event(true, m, j)])
  {
    var span: Span;
    if m == n {
      span := Span(None, None);
      NoneInside(n, s, i, j, inner);
    } else {
      span :| Last(inner, false, n, span.start) && Last(inner, true, n, span.end) && Fits(content, s, i, j, span);
    }
    OwnEvents(m, i, j, inner, false, n, span.start);
    OwnEvents(m, i, j, inner, true, n, span.end);
    hide Last, Matches;
    var ev := [Event(false, m, i)] + inner + [Event(true, m, j)];
    var result := if m == n then Span(Some(i), Some(j)) else span;
    assert Last(ev, false, n, result.start) && Last(ev, true, n, result.end) && Fits(content, s, i, j, result);
  }

  /** Whatever a tree matches, the events leave every capture with something that its group matches, or with nothing. */
  lemma {:induction false} GroupsMatch(
      t: Node, n: nat, content: Option<Node>, s: seq<Byte>, i: nat, j: nat, ev: seq<Event>)
    requires GroupIs(t, n, content) && Matches(t, s, i, j, ev) && i <= |s|
    ensures Captured(content, n, s, i, j, ev)
    decreases t, 0
  {
    hide Captured;
    match t
    case CaptureNode(m, child) =>
      var inner :| Matches(child, s, i, j, inner) && ev == [Event(false, m, i)] + inner + [Event(true, m, j)];
      GroupsMatch(child, n, if m == n then None else content, s, i, j, inner);
      MatchesInRange(child, s, i, j, inner);
      GroupCaptured(content, n, m, child, s, i, j, inner);
    case RepeatNode(_, _, _, child) =>
      var k: nat :| MatchesTimes(child, s, i, j, ev, k);
      TimesMatch(child, n, content, s, i, j, ev, k);
    case BranchNode(children) => SeqMatches(children, n, content, s, i, j, ev);
    case AlternationNode(children) =>
      var k :| 0 <= k < |children| && Matches(children[k], s, i, j, ev);
      GroupsMatch(children[k], n, content, s, i, j, ev);
    case _ => NothingCaptured(content, n, s, i, j);
  }

  lemma {:induction false} TimesMatch(
      t: Node, n: nat, content: Option<Node>, s: seq<Byte>, i: nat, j: nat, ev: seq<Event>, k: nat)
    requires GroupIs(t, n, content) && MatchesTimes(t, s, i, j, ev, k) && i <= |s|
    ensures Captured(content, n, s, i, j, ev)
    decreases t, 1, k
  {
    hide Captured, GroupIs;
    if k == 0 {
      NothingCaptured(content, n, s, i, j);
    } else {
      var m: nat, e1, e2 :| MatchesTimes(t, s, i, m, e1, k - 1) && Matches(t, s, m, j, e2) && ev == e1 + e2;
      MatchesTimesInRange(t, s, i, m, e1, k - 1);
      MatchesInRange(t, s, m, j, e2);
      TimesMatch(t, n, content, s, i, m, e1, k - 1);
      GroupsMatch(t, n, content, s, m, j, e2);
      CapturedTwice(content, n, s, i, m, j, e1, e2);
    }
  }

  lemma {:induction false} SeqMatches(
      ts: seq<Node>, n: nat, content: Option<Node>, s: seq<Byte>, i: nat, j: nat, ev: seq<Event>)
    requires (forall k :: 0 <= k < |ts| ==> GroupIs(ts[k], n, content)) && MatchesSeq(ts, s, i, j, ev) && i <= |s|
    ensures Captured(content, n, s, i, j, ev)
    decreases ts, 0
  {
    hide Captured, GroupIs;
    if ts == [] {
      NothingCaptured(content, n, s, i, j);
    } else {
      var front, last := ts[..|ts| - 1], ts[|ts| - 1];
      var m: nat, e1, e2 :| MatchesSeq(front, s, i, m, e1) && Matches(last, s, m, j, e2) && ev == e1 + e2;
      MatchesSeqInRange(front, s, i, m, e1);
      MatchesInRange(last, s, m, j, e2);
      SeqMatches(front, n, content, s, i, m, e1);
      GroupsMatch(last, n, content, s, m, j, e2);
      CapturedTwice(content, n, s, i, m, j, e1, e2);
    }
  }

  // ----- groups that are always captured -----

  /** Capture n lies on every way through t. */
  predicate Always(t: Node, n: nat) {
    match t
    case RangeNode(_, _) => false
    case AtomNode(_) => false
    case ClassNode(_, _, _) => false
    case CaptureNode(c, child) => c == n || Always(child, n)
    case RepeatNode(rmin, _, _, child) => rmin > 0 && Always(child, n)
    case BranchNode(children) => exists k :: 0 <= k < |children| && Always(children[k], n)
    case AlternationNode(children) => forall k :: 0 <= k < |children| ==> Always(children[k], n)
  }

  lemma EventsConcat(e1: seq<Event>, e2: seq<Event>, end: bool, n: nat)
    ensures NoEvent(e1 + e2, end, n) <==> NoEvent(e1, end, n) && NoEvent(e2, end, n)
  {
    var ev := e1 + e2;
    assert forall k :: 0 <= k < |e1| ==> ev[k] == e1[k];
    assert forall k :: 0 <= k < |e2| ==> e2[k] == ev[|e1| + k];
  }

  lemma Begun(n: nat, i: nat)
    ensures !NoEvent([Event(false, n, i)], false, n)
  {
    assert IsEvent([Event(false, n, i)][0], false, n);
  }

  lemma {:induction false} AlwaysBegins(t: Node, n: nat, s: seq<Byte>, i: nat, j: nat, ev: seq<Event>)
    requires Always(t, n) && Matches(t, s, i, j, ev)
    ensures !NoEvent(ev, false, n)
    decreases t, 0
  {
    hide NoEvent;
    match t
    case CaptureNode(m, child) =>
      var inner :| Matches(child, s, i, j, inner) && ev == [Event(false, m, i)] + inner + [Event(true, m, j)];
      var open, close := [Event(false, m, i)], [Event(true, m, j)];
      EventsConcat(open, inner, false, n);
      EventsConcat(open + inner, close, false, n);
      if m == n {
        Begun(n, i);
      } else {
        AlwaysBegins(child, n, s, i, j, inner);
      }
    case RepeatNode(_, _, _, child) =>
      var k: nat :| MatchesTimes(child, s, i, j, ev, k) && t.rmin <= k;
      TimesBegin(child, n, s, i, j, ev, k);
    case BranchNode(children) =>
      var k :| 0 <= k < |children| && Always(children[k], n);
      SeqBegins(children, k, n, s, i, j, ev);
    case AlternationNode(children) =>
      var k :| 0 <= k < |children| && Matches(children[k], s, i, j, ev);
      AlwaysBegins(children[k], n, s, i, j, ev);
  }

  lemma {:induction false} TimesBegin(t: Node, n: nat, s: seq<Byte>, i: nat, j: nat, ev: seq<Event>, k: nat)
    requires Always(t, n) && k > 0 && MatchesTimes(t, s, i, j, ev, k)
    ensures !NoEvent(ev, false, n)
    decreases t, 1
  {
    hide NoEvent, Always;
    var m: nat, e1, e2 :| MatchesTimes(t, s, i, m, e1, k - 1) && Matches(t, s, m, j, e2) && ev == e1 + e2;
    EventsConcat(e1, e2, false, n);
    AlwaysBegins(t, n, s, m, j, e2);
  }

  lemma {:induction false} SeqBegins(ts: seq<Node>, k: nat, n: nat, s: seq<Byte>, i: nat, j: nat, ev: seq<Event>)
    requires k < |ts| && Always(ts[k], n) && MatchesSeq(ts, s, i, j, ev)
    ensures !NoEvent(ev, false, n)
    decreases ts, 0
  {
    hide NoEvent, Always;
    var front, last := ts[..|ts| - 1], ts[|ts| - 1];
    var m: nat, e1, e2 :| MatchesSeq(front, s, i, m, e1) && Matches(last, s, m, j, e2) && ev == e1 + e2;
    EventsConcat(e1, e2, false, n);
    if k == |front| {
      AlwaysBegins(last, n, s, m, j, e2);
    } else {
      SeqBegins(front, k, n, s, i, m, e1);
    }
  }

  // ----- what a run returns -----

  /** The span of capture n is where its group last matched; the group is captured if it lies on every way. */
  lemma SpanFits(nc: nat, t: Node, n: nat, content: Option<Node>, s: seq<Byte>, i: nat, j: nat, ev: seq<Event>)
    requires n < nc && GroupIs(t, n, content) && Matches(t, s, i, j, ev) && i <= |s|
    ensures Fits(content, s, i, j, Replay(nc, ev)[n])
    ensures Always(t, n) ==> Replay(nc, ev)[n].start.Some?
  {
    var r := Replay(nc, ev)[n];
    GroupsMatch(t, n, content, s, i, j, ev);
    ReplayIsLast(nc, ev, n);
    if Always(t, n) {
      AlwaysBegins(t, n, s, i, j, ev);
    }
    hide Replay, Matches, GroupIs, Always, Fits;
    var span: Span :| Last(ev, false, n, span.start) && Last(ev, true, n, span.end) && Fits(content, s, i, j, span);
    LastUnique(ev, false, n, span.start, r.start);
    LastUnique(ev, true, n, span.end, r.end);
    assert span == r;
  }

  /** In particular, a pattern that is one group captures all that it matches. */
  lemma WholeSpan(nc: nat, n: nat, child: Node, s: seq<Byte>, i: nat, j: nat, ev: seq<Event>)
    requires n < nc && GroupIs(child, n, None) && Matches(CaptureNode(n, child), s, i, j, ev) && i <= |s|
    ensures Replay(nc, ev)[n] == Span(Some(i), Some(j)) && i <= j && exists inner :: Matches(child, s, i, j, inner)
  {
    var r := Replay(nc, ev)[n];
    var inner :| Matches(child, s, i, j, inner) && ev == [Event(false, n, i)] + inner + [Event(true, n, j)];
    hide *;
    MatchesInRange(child, s, i, j, inner);
    GroupsMatch(child, n, None, s, i, j, inner);
    ReplayIsLast(nc, ev, n);
    NoneInside(n, s, i, j, inner);
    OwnEvents(n, i, j, inner, false, n, None);
    OwnEvents(n, i, j, inner, true, n, None);
    LastUnique(ev, false, n, Some(i), r.start);
    LastUnique(ev, true, n, Some(j), r.end);
  }

  function EffectiveContent(content: Option<Node>, sc: bool): Option<Node> {
    match content
    case None => None
    case Some(t) => Some(Effective(t, sc))
  }

  /** Where the compiler puts another tree in place of one, the groups stay the same, up to the same. */
  lemma {:induction false} EffectiveGroups(t: Node, n: nat, content: Option<Node>, sc: bool)
    requires GroupIs(t, n, content)
    ensures GroupIs(Effective(t, sc), n, EffectiveContent(content, sc))
  {
    match t
    case AtomNode(c) =>
    case CaptureNode(c, child) => EffectiveGroups(child, n, if c == n then None else content, sc);
    case RepeatNode(_, _, _, child) => EffectiveGroups(child, n, content, sc);
    case BranchNode(children) =>
      forall k | 0 <= k < |children| { EffectiveGroups(children[k], n, content, sc); }
    case AlternationNode(children) =>
      forall k | 0 <= k < |children| { EffectiveGroups(children[k], n, content, sc); }
    case _ =>
  }

  /**
   What the captures of a match of t are: of every group, a span in which its content matches, or none, and
   not none if the group lies on every way; of a pattern that is one group, all of the match.
   */
  ghost predicate GroupsFit(t: Node, sc: bool, s: seq<Byte>, end: nat, captures: seq<Span>) {
    && (forall n: nat, content :: n < |captures| && GroupIs(t, n, content) ==>
          Fits(EffectiveContent(content, sc), s, 0, end, captures[n]))
    && (forall n: nat, content :: n < |captures| && GroupIs(t, n, content) ==>
          Always(Effective(t, sc), n) ==> captures[n].start.Some?)
    && (t.CaptureNode? && t.capture < |captures| && GroupIs(t.child, t.capture, None) ==>
          captures[t.capture] == Span(Some(0), Some(end)))
  }

  lemma OneGroupFits(nc: nat, n: nat, child: Node, sc: bool, s: seq<Byte>, end: nat, ev: seq<Event>)
    requires n < nc && GroupIs(child, n, None) && Matches(Effective(CaptureNode(n, child), sc), s, 0, end, ev)
    ensures Replay(nc, ev)[n] == Span(Some(0), Some(end))
  {
    hide Replay, Matches, GroupIs;
    EffectiveGroups(child, n, None, sc);
    WholeSpan(nc, n, Effective(child, sc), s, 0, end, ev);
  }

  lemma ReplayFits(nc: nat, t: Node, sc: bool, s: seq<Byte>, end: nat, ev: seq<Event>)
    requires Matches(Effective(t, sc), s, 0, end, ev)
    ensures GroupsFit(t, sc, s, end, Replay(nc, ev))
  {
    hide Replay, Matches, GroupIs, Always, Fits, Effective, EffectiveContent;
    forall n: nat, content | n < nc && GroupIs(t, n, content)
      ensures Fits(EffectiveContent(content, sc), s, 0, end, Replay(nc, ev)[n])
      ensures Always(Effective(t, sc), n) ==> Replay(nc, ev)[n].start.Some?
    {
      EffectiveGroups(t, n, content, sc);
      SpanFits(nc, Effective(t, sc), n, EffectiveContent(content, sc), s, 0, end, ev);
    }
    if t.CaptureNode? && t.capture < nc && GroupIs(t.child, t.capture, None) {
      OneGroupFits(nc, t.capture, t.child, sc, s, end, ev);
    }
  }
}
