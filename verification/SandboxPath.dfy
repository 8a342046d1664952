/** Joining a path below a base directory, resolving "." and ".." (pathutil.c). */
module SandboxPath {
  import opened Bytes
  import opened StringSlice
  import opened StringBuffer

  const SLASH: Byte := 47
  const DOT: Byte := 46

  // ----- components -----

  datatype Component = Component(name: seq<Byte>, slash: bool)

  function FirstSlash(s: seq<Byte>): (j: nat)
    ensures j <= |s| && (j < |s| ==> s[j] == SLASH) && SLASH !in s[..j]
  {
    if s == [] || s[0] == SLASH then 0 else 1 + FirstSlash(s[1..])
  }

  /** How many slashes s begins with. */
  function Slashes(s: seq<Byte>): (k: nat)
    ensures k <= |s| && (s != [] && s[0] == SLASH ==> k > 0)
  {
    if s == [] || s[0] != SLASH then 0 else 1 + Slashes(s[1..])
  }

  /** The bytes up to the first slash, and whether there is one. */
  function Front(s: seq<Byte>): Component {
    var j := FirstSlash(s);
    Component(s[..j], Slashes(s[j..]) > 0)
  }

  /** What comes behind them and the slashes that follow. */
  function AfterFront(s: seq<Byte>): (rest: seq<Byte>)
    ensures s != [] ==> |rest| < |s|
  {
    var j := FirstSlash(s);
    s[j + Slashes(s[j..])..]
  }

  function Components(s: seq<Byte>): seq<Component>
    decreases |s|
  {
    if s == [] then [] else [Front(s)] + Components(AfterFront(s))
  }

  // ----- a stack of components -----

  datatype Walk = Walk(stack: seq<seq<Byte>>, open: bool, above: bool)

  /**
   What one component does: nothing, drop the last name, or add a name. `open` says that the last
   name has no slash after it, `above` that some ".." found nothing to drop.
   */
  function Step(w: Walk, c: Component): Walk {
    if c.name == [] || c.name == [DOT] then w
    else if c.name == [DOT, DOT] then
      if w.stack == [] then w.(above := true) else Walk(w.stack[..|w.stack| - 1], false, w.above)
    else Walk(w.stack + [c.name], !c.slash, w.above)
  }

  function Steps(w: Walk, cs: seq<Component>): Walk
    decreases |cs|
  {
    if cs == [] then w else Steps(Step(w, cs[0]), cs[1..])
  }

  function Resolve(subpath: seq<Byte>): Walk {
    Steps(Walk([], false, false), Components(subpath))
  }

  /** The names, each followed by a slash. */
  function Flat(stack: seq<seq<Byte>>): seq<Byte> {
    if stack == [] then [] else Flat(stack[..|stack| - 1]) + stack[|stack| - 1] + [SLASH]
  }

  function Render(w: Walk): seq<Byte> {
    if w.open && w.stack != [] then Flat(w.stack[..|w.stack| - 1]) + w.stack[|w.stack| - 1] else Flat(w.stack)
  }

  predicate Name(s: seq<Byte>) {
    s != [] && s != [DOT] && s != [DOT, DOT] && SLASH !in s
  }

  ghost predicate Names(w: Walk) {
    forall k :: 0 <= k < |w.stack| ==> Name(w.stack[k])
  }

  lemma {:induction false} StepsKeepNames(w: Walk, cs: seq<Component>)
    requires Names(w) && forall k :: 0 <= k < |cs| ==> SLASH !in cs[k].name
    ensures Names(Steps(w, cs))
    decreases |cs|
  {
    if cs != [] {
      StepsKeepNames(Step(w, cs[0]), cs[1..]);
    }
  }

  /** Only the last component can lack a slash, and it is empty only if there is one. */
  lemma FrontShape(s: seq<Byte>)
    requires s != []
    ensures SLASH !in Front(s).name && (AfterFront(s) != [] || Front(s).name == [] ==> Front(s).slash)
  {
    hide FirstSlash, Slashes;
    var j := FirstSlash(s);
    assert |s[j..]| == |s| - j;
  }

  lemma {:induction false} ComponentsHaveNoSlash(s: seq<Byte>)
    ensures forall k :: 0 <= k < |Components(s)| ==> SLASH !in Components(s)[k].name
    decreases |s|
  {
    if s != [] {
      FrontShape(s);
      ComponentsHaveNoSlash(AfterFront(s));
    }
  }

  /** Nothing that means "here" or "up" survives. */
  lemma ResolveKeepsNames(subpath: seq<Byte>)
    ensures Names(Resolve(subpath))
  {
    ComponentsHaveNoSlash(subpath);
    StepsKeepNames(Walk([], false, false), Components(subpath));
  }

  // ----- when a path climbs above its base -----

  function Change(c: Component): int {
    if c.name == [] || c.name == [DOT] then 0 else if c.name == [DOT, DOT] then -1 else 1
  }

  /** Names minus ".." components. */
  function Depth(cs: seq<Component>): int {
    if cs == [] then 0 else Change(cs[0]) + Depth(cs[1..])
  }

  lemma {:induction false} AboveSticks(w: Walk, cs: seq<Component>)
    requires w.above
    ensures Steps(w, cs).above
    decreases |cs|
  {
    if cs != [] {
      AboveSticks(Step(w, cs[0]), cs[1..]);
    }
  }

  ghost predicate Climbs(d: nat, cs: seq<Component>) {
    exists k: nat :: k <= |cs| && d + Depth(cs[..k]) < 0
  }

  lemma ClimbsNext(d: nat, cs: seq<Component>)
    requires cs != [] && d + Change(cs[0]) >= 0
    ensures Climbs(d, cs) <==> Climbs(d + Change(cs[0]), cs[1..])
  {
    if Climbs(d, cs) {
      var k: nat :| k <= |cs| && d + Depth(cs[..k]) < 0;
      assert cs[..k][1..] == cs[1..][..k - 1];
    }
    if Climbs(d + Change(cs[0]), cs[1..]) {
      var k: nat :| k <= |cs[1..]| && d + Change(cs[0]) + Depth(cs[1..][..k]) < 0;
      assert cs[..k + 1][1..] == cs[1..][..k];
    }
  }

  /** Some ".." meets an empty stack exactly when some prefix goes up more often than down. */
  lemma {:induction false} AboveMeans(w: Walk, cs: seq<Component>)
    requires !w.above
    ensures Steps(w, cs).above <==> Climbs(|w.stack|, cs)
    decreases |cs|
  {
    if cs == [] {
    } else if Step(w, cs[0]).above {
      AboveSticks(Step(w, cs[0]), cs[1..]);
      assert cs[..1][1..] == [];
      assert 0 + Depth(cs[..1]) < 0;
    } else {
      AboveMeans(Step(w, cs[0]), cs[1..]);
      ClimbsNext(|w.stack|, cs);
    }
  }

  lemma ResolveAbove(subpath: seq<Byte>)
    ensures Resolve(subpath).above <==> Climbs(0, Components(subpath))
  {
    AboveMeans(Walk([], false, false), Components(subpath));
  }

  // ----- a resolved path resolves to itself -----

  function Rendered(stack: seq<seq<Byte>>, open: bool): seq<Component> {
    seq(|stack|, i requires 0 <= i < |stack| => Component(stack[i], !(open && i == |stack| - 1)))
  }

  lemma {:induction false} FlatFront(stack: seq<seq<Byte>>)
    requires stack != []
    ensures Flat(stack) == stack[0] + [SLASH] + Flat(stack[1..])
  {
    if |stack| > 1 {
      var init, last := stack[..|stack| - 1], stack[|stack| - 1];
      FlatFront(init);
      assert stack[1..][..|stack[1..]| - 1] == init[1..];
    } else {
      assert Flat(stack[..0]) == [] && Flat(stack[1..]) == [];
    }
  }

  lemma {:induction false} FirstSlashAfter(name: seq<Byte>, rest: seq<Byte>)
    requires SLASH !in name && (rest != [] ==> rest[0] == SLASH)
    ensures FirstSlash(name + rest) == |name|
  {
    if name == [] {
      assert name + rest == rest;
    } else {
      FirstSlashAfter(name[1..], rest);
      assert (name + rest)[1..] == name[1..] + rest;
    }
  }

  /** The first component of a name, a slash and something that does not begin with one. */
  lemma ComponentsStep(name: seq<Byte>, rest: seq<Byte>)
    requires Name(name) && (rest != [] ==> rest[0] != SLASH)
    ensures Components(name + [SLASH] + rest) == [Component(name, true)] + Components(rest)
  {
    var s := name + [SLASH] + rest;
    FirstSlashAfter(name, [SLASH] + rest);
    assert s == name + ([SLASH] + rest);
    assert s[..|name|] == name && s[|name|..] == [SLASH] + rest;
    assert s[|name|..][1..] == rest && s[|name| + 1..] == rest;
    assert Slashes(rest) == 0 && Slashes(s[|name|..]) == 1;
  }

  lemma RenderFront(stack: seq<seq<Byte>>, open: bool)
    requires stack != [] && (open ==> |stack| > 1)
    ensures Render(Walk(stack, open, false)) == stack[0] + [SLASH] + Render(Walk(stack[1..], open, false))
  {
    hide Flat;
    if open {
      var init, last, tail := stack[..|stack| - 1], stack[|stack| - 1], stack[1..];
      FlatFront(init);
      assert tail[..|tail| - 1] == init[1..];
      Concat(stack[0] + [SLASH], Flat(init[1..]), last);
    } else {
      FlatFront(stack);
    }
  }

  lemma RenderedFront(stack: seq<seq<Byte>>, open: bool)
    requires stack != [] && (open ==> |stack| > 1)
    ensures Rendered(stack, open) == [Component(stack[0], true)] + Rendered(stack[1..], open)
  {
  }

  lemma RenderLast(name: seq<Byte>)
    ensures Render(Walk([name], true, false)) == name
    ensures Rendered([name], true) == [Component(name, false)]
  {
    assert [name][..0] == [];
  }

  lemma RenderFirst(stack: seq<seq<Byte>>, open: bool)
    requires stack != [] && Name(stack[0])
    ensures Render(Walk(stack, open, false)) != [] && Render(Walk(stack, open, false))[0] != SLASH
  {
    if open && |stack| == 1 {
      RenderLast(stack[0]);
      assert stack == [stack[0]];
    } else {
      RenderFront(stack, open);
    }
  }

  lemma ComponentsOfName(name: seq<Byte>)
    requires name != [] && SLASH !in name
    ensures Components(name) == [Component(name, false)]
  {
    FirstSlashAfter(name, []);
    assert name + [] == name && name[..|name|] == name && name[|name|..] == [];
  }

  lemma RenderNothing(open: bool)
    ensures Render(Walk([], open, false)) == []
  {
  }

  /** Reading a rendered stack gives the stack back. */
  lemma {:induction false} ComponentsOfRender(stack: seq<seq<Byte>>, open: bool)
    requires (open ==> stack != []) && forall k :: 0 <= k < |stack| ==> Name(stack[k])
    ensures Components(Render(Walk(stack, open, false))) == Rendered(stack, open)
    decreases |stack|
  {
    if stack == [] {
    } else if open && |stack| == 1 {
      RenderLast(stack[0]);
      ComponentsOfName(stack[0]);
      assert stack == [stack[0]];
    } else {
      hide Components, Render, Rendered;
      ComponentsOfRender(stack[1..], open);
      RenderFront(stack, open);
      RenderedFront(stack, open);
      var rest := Render(Walk(stack[1..], open, false));
      if |stack| > 1 {
        RenderFirst(stack[1..], open);
      } else {
        RenderNothing(open);
      }
      ComponentsStep(stack[0], rest);
    }
  }

  lemma {:induction false} StepsOfRendered(pre: seq<seq<Byte>>, stack: seq<seq<Byte>>, open: bool)
    requires (open ==> stack != []) && forall k :: 0 <= k < |stack| ==> Name(stack[k])
    ensures Steps(Walk(pre, false, false), Rendered(stack, open)) == Walk(pre + stack, open, false)
    decreases |stack|
  {
    var cs := Rendered(stack, open);
    if stack == [] {
      assert pre + stack == pre;
    } else if |stack| == 1 {
      assert cs == [Component(stack[0], !open)] && cs[1..] == [];
      assert pre + stack == pre + [stack[0]];
    } else {
      StepsOfRendered(pre + [stack[0]], stack[1..], open);
      assert cs[1..] == Rendered(stack[1..], open);
      assert pre + [stack[0]] + stack[1..] == pre + stack;
    }
  }

  lemma {:induction false} StepsOpen(w: Walk, cs: seq<Component>)
    requires w.open ==> w.stack != []
    ensures Steps(w, cs).open ==> Steps(w, cs).stack != []
    decreases |cs|
  {
    if cs != [] {
      StepsOpen(Step(w, cs[0]), cs[1..]);
    }
  }

  /** Resolving what was rendered changes nothing, and nothing climbs above the base any more. */
  lemma ResolveTwice(subpath: seq<Byte>)
    ensures Resolve(Render(Resolve(subpath))) == Resolve(subpath).(above := false)
  {
    var w := Resolve(subpath);
    ResolveKeepsNames(subpath);
    StepsOpen(Walk([], false, false), Components(subpath));
    ComponentsOfRender(w.stack, w.open);
    StepsOfRendered([], w.stack, w.open);
    assert [] + w.stack == w.stack;
  }

  // ----- when there is no file name -----

  /** Whether the last component has a slash after it. */
  predicate TrailingSlash(cs: seq<Component>) {
    cs != [] && cs[|cs| - 1].slash
  }

  /** What the code takes for a sign that there is no file name. */
  predicate NoNameSeen(subpath: seq<Byte>) {
    TrailingSlash(Components(subpath)) || Resolve(subpath).stack == []
  }

  /** The path ends in "." or "..", with no slash after it, and something is left of it. */
  predicate EndsInDots(subpath: seq<Byte>) {
    var cs := Components(subpath);
    && Resolve(subpath).stack != []
    && cs != [] && !cs[|cs| - 1].slash && (cs[|cs| - 1].name == [DOT] || cs[|cs| - 1].name == [DOT, DOT])
  }

  lemma {:induction false} StepsSnoc(w: Walk, cs: seq<Component>, c: Component)
    ensures Steps(w, cs + [c]) == Step(Steps(w, cs), c)
    decreases |cs|
  {
    if cs == [] {
      assert [] + [c] == [c];
    } else {
      StepsSnoc(Step(w, cs[0]), cs[1..], c);
      assert (cs + [c])[1..] == cs[1..] + [c];
    }
  }

  lemma {:induction false} SlashesCloseNames(w: Walk, cs: seq<Component>)
    requires !w.open && forall k :: 0 <= k < |cs| ==> cs[k].slash
    ensures !Steps(w, cs).open
    decreases |cs|
  {
    if cs != [] {
      SlashesCloseNames(Step(w, cs[0]), cs[1..]);
    }
  }

  lemma NoComponent(s: seq<Byte>)
    ensures Components(s) == [] <==> s == []
  {
    hide Front, AfterFront;
  }

  lemma FirstComponent(s: seq<Byte>)
    requires s != []
    ensures Components(s) == [Front(s)] + Components(AfterFront(s))
    ensures Components(AfterFront(s)) == [] <==> AfterFront(s) == []
  {
    hide Front, AfterFront;
    NoComponent(AfterFront(s));
  }

  /** Only the last component can lack a slash, and it is empty only if the path is nothing but slashes. */
  lemma {:induction false} OnlyLastIsOpen(s: seq<Byte>)
    ensures forall k :: 0 <= k < |Components(s)| - 1 ==> Components(s)[k].slash
    ensures forall c :: c in Components(s) && c.name == [] ==> c.slash
    decreases |s|
  {
    if s != [] {
      hide *;
      var c, rest := Front(s), AfterFront(s);
      FirstComponent(s);
      FrontShape(s);
      OnlyLastIsOpen(rest);
    }
  }

  lemma StepsOfNone(w: Walk)
    ensures Steps(w, []) == w
  {
  }

  /**
   The code notices that there is no file name to carry an extension, and only then says so, except where
   the path ends in dots: there is none then, and it is not noticed.
   */
  lemma NoNameExactly(subpath: seq<Byte>)
    ensures (NoNameSeen(subpath) <==> !Resolve(subpath).open) <==> !EndsInDots(subpath)
    ensures EndsInDots(subpath) ==> !NoNameSeen(subpath)
  {
    var w, cs := Walk([], false, false), Components(subpath);
    OnlyLastIsOpen(subpath);
    hide Components, Steps;
    if cs == [] {
      StepsOfNone(w);
    } else {
      var front, last := cs[..|cs| - 1], cs[|cs| - 1];
      assert cs == front + [last];
      StepsSnoc(w, front, last);
      SlashesCloseNames(w, front);
      assert last in cs;
    }
  }

  lemma ConsComponent(w: Walk, c: Component, rest: seq<Component>)
    ensures Steps(w, [c] + rest) == Steps(Step(w, c), rest)
    ensures TrailingSlash([c] + rest) == if rest == [] then c.slash else TrailingSlash(rest)
  {
    assert ([c] + rest)[1..] == rest;
  }

  /** Two steps of a walk over names and the step back. */
  lemma UpAgain(a: seq<Byte>, b: seq<Byte>)
    requires Name(a) && Name(b)
    ensures var up := Component([DOT, DOT], false);
            Steps(Walk([], false, false), [Component(a, true)] + ([Component(b, true)] + [up]))
            == Walk([a], false, false)
  {
    var up := Component([DOT, DOT], false);
    hide Steps;
    ConsComponent(Walk([], false, false), Component(a, true), [Component(b, true)] + [up]);
    ConsComponent(Walk([a], false, false), Component(b, true), [up]);
    assert [] + [a] == [a] && [a] + [b] == [a, b] && [a, b][..1] == [a];
    StepsSnoc(Walk([a, b], false, false), [], up);
    StepsOfNone(Walk([a, b], false, false));
    assert [] + [up] == [up];
  }

  lemma RenderOne(name: seq<Byte>)
    ensures Render(Walk([name], false, false)) == name + [SLASH]
  {
    RenderFront([name], false);
    RenderNothing(false);
    assert [name][1..] == [];
    hide *;
  }

  predicate EndsWith(s: seq<Byte>, end: seq<Byte>) {
    |end| <= |s| && s[|s| - |end|..] == end
  }

  lemma NotTheSlash(text: seq<Byte>, e: seq<Byte>)
    requires e != [] && e[|e| - 1] != SLASH
    ensures !EndsWith(text + [SLASH], e)
  {
    var all := text + [SLASH];
    assert all[|all| - 1] == SLASH;
  }

  lemma DotsLeaveDirectory(a: seq<Byte>, b: seq<Byte>)
    requires Name(a) && Name(b)
    ensures var subpath := a + [SLASH] + (b + [SLASH] + [DOT, DOT]);
            && EndsInDots(subpath) && Resolve(subpath) == Walk([a], false, false)
            && Render(Resolve(subpath)) == a + [SLASH]
  {
    var up := b + [SLASH] + [DOT, DOT];
    assert up[0] == b[0] && b[0] != SLASH;
    ComponentsStep(a, up);
    ComponentsStep(b, [DOT, DOT]);
    ComponentsOfName([DOT, DOT]);
    UpAgain(a, b);
    RenderOne(a);
    var cs := [Component(a, true)] + ([Component(b, true)] + [Component([DOT, DOT], false)]);
    assert cs[|cs| - 1] == Component([DOT, DOT], false);
    hide Components, Steps, Render;
    assert Components(a + [SLASH] + up) == cs;
  }

  /** What an extension adds. */
  function Suffix(text: seq<Byte>, ext: Option<seq<Byte>>): seq<Byte> {
    match ext
    case None => []
    case Some(e) => if EndsWith(text, e) then [] else e
  }

  /** Any path "a/b/.." is left with the directory a and its slash, and an extension goes behind that slash. */
  lemma DotsCarryExtension(a: seq<Byte>, b: seq<Byte>, root: seq<Byte>, e: seq<Byte>)
    requires Name(a) && Name(b)
    ensures var subpath := a + [SLASH] + (b + [SLASH] + [DOT, DOT]);
            && EndsInDots(subpath) && Render(Resolve(subpath)) == a + [SLASH]
            && (e != [] && e[|e| - 1] != SLASH ==>
                  var text := root + Render(Resolve(subpath));
                  text + Suffix(text, Some(e)) == root + a + [SLASH] + e)
  {
    DotsLeaveDirectory(a, b);
    Concat(root, a, [SLASH]);
    if e != [] && e[|e| - 1] != SLASH {
      NotTheSlash(root + a, e);
    }
    hide EndsWith, Render, Resolve, EndsInDots;
  }

  /** A path that is one name is that name, and there is a file to carry the extension. */
  lemma PlainFile(name: seq<Byte>)
    requires Name(name)
    ensures Render(Resolve(name)) == name && !Resolve(name).above && !NoNameSeen(name)
  {
    ComponentsOfName(name);
    RenderLast(name);
    var w, c := Walk([], false, false), Component(name, false);
    StepsSnoc(w, [], c);
    StepsOfNone(w);
    assert [] + [c] == [c] && [] + [name] == [name];
    hide Render, Steps, Components;
  }

  // ----- the code -----

  /** Eat all slashes. */
  method SkipSlashes(slice: Slice) returns (any: bool)
    requires slice.Valid()
    modifies slice`start
    ensures slice.Valid() && slice.start == old(slice.start) + Slashes(old(slice.Rest()))
    ensures any == (Slashes(old(slice.Rest())) > 0)
  {
    any := false;
    ghost var k: nat := 0;
    var more := true;
    while more
      invariant slice.Valid() && slice.start == old(slice.start) + k
      invariant any == (k > 0)
      invariant Slashes(old(slice.Rest())) == k + if more then Slashes(slice.Rest()) else 0
      decreases slice.end - slice.start, more
    {
      more := slice.MatchPrefix([SLASH]);
      if more {
        any := true;
        k := k + 1;
      }
    }
  }

  /** aem_stringslice_match_pathcomponent. */
  method MatchPathComponent(slice: Slice) returns (component: seq<Byte>, trailingSlash: bool)
    requires slice.Valid()
    modifies slice`start
    ensures slice.Valid()
    ensures component == old(slice.Rest())[..FirstSlash(old(slice.Rest()))]
    ensures trailingSlash == (Slashes(old(slice.Rest())[|component|..]) > 0)
    ensures slice.start == old(slice.start) + |component| + Slashes(old(slice.Rest())[|component|..])
  {
    ghost var s := slice.Rest();
    var first := slice.start;
    while slice.Ok() && slice.mem[slice.start] != SLASH
      invariant slice.Valid() && first <= slice.start
      invariant SLASH !in s[..slice.start - first]
      decreases slice.end - slice.start
    {
      assert s[slice.start - first] == slice.mem[slice.start];
      slice.start := slice.start + 1;
    }
    component := slice.mem[first..slice.start];
    ghost var j := slice.start - first;
    assert component == s[..j] && slice.Rest() == s[j..];
    assert s == s[..j] + s[j..];
    FirstSlashAfter(s[..j], s[j..]);
    hide FirstSlash, Slashes;
    trailingSlash := SkipSlashes(slice);
  }

  /** Back up until the previous slash. */
  method DropName(out: StringBuf, base: nat, ghost front: seq<Byte>, ghost name: seq<Byte>)
    requires out.text == front + name && SLASH !in name
    requires base <= |front| && (base < |front| ==> front[|front| - 1] == SLASH)
    modifies out
    ensures out.text == front
  {
    ghost var m: nat := |name|;
    assert name[..m] == name;
    while |out.text| > base && out.text[|out.text| - 1] != SLASH
      invariant m <= |name| && out.text == front + name[..m]
      invariant m > 0 ==> |out.text| > base && out.text[|out.text| - 1] != SLASH
      decreases m
    {
      assert m > 0;
      out.text := out.text[..|out.text| - 1];
      m := m - 1;
    }
  }

  lemma FlatLast(stack: seq<seq<Byte>>)
    ensures stack == [] ==> Flat(stack) == []
    ensures stack != [] ==> Flat(stack) == Flat(stack[..|stack| - 1]) + stack[|stack| - 1] + [SLASH]
    ensures stack != [] ==> Flat(stack) != [] && Flat(stack)[|Flat(stack)| - 1] == SLASH
  {
  }

  /** Drop the last name and the slash after it. */
  method DropLast(out: StringBuf, ghost root: seq<Byte>, base: nat, ghost stack: seq<seq<Byte>>) returns (dropped: bool)
    requires base == |root| && out.text == root + Flat(stack)
    requires forall k :: 0 <= k < |stack| ==> Name(stack[k])
    modifies out
    ensures dropped == (stack != [])
    ensures out.text == root + Flat(if dropped then stack[..|stack| - 1] else stack)
  {
    ghost var init := if stack == [] then [] else stack[..|stack| - 1];
    ghost var last := if stack == [] then [] else stack[|stack| - 1];
    FlatLast(stack);
    FlatLast(init);
    hide Flat;
    if |out.text| > base {
      // the name that is dropped has its slash
      assert out.text[|out.text| - 1] == SLASH;
      out.text := out.text[..|out.text| - 1];
    }
    var n := |out.text|;
    assert out.text == root + Flat(init) + last;
    DropName(out, base, root + Flat(init), last);
    dropped := n != |out.text|;
  }

  /** The body of the loop of aem_sandbox_path; true when a ".." finds nothing to drop. */
  method Apply(out: StringBuf, ghost root: seq<Byte>, base: nat, ghost w: Walk, c: Component) returns (up: bool)
    requires base == |root| && out.text == root + Render(w) && !w.open && Names(w)
    modifies out
    ensures out.text == root + Render(Step(w, c))
    ensures up == (c.name == [DOT, DOT] && w.stack == [])
    ensures Step(w, c).above == (w.above || up)
  {
    up := false;
    if c.name == [] {
      // a leading slash
    } else if c.name == [DOT] {
    } else if c.name == [DOT, DOT] {
      var dropped := DropLast(out, root, base, w.stack);
      up := !dropped;
    } else {
      var stack := w.stack + [c.name];
      assert stack[..|stack| - 1] == w.stack && stack[|stack| - 1] == c.name;
      Concat(root, Flat(w.stack), c.name);
      out.Puts(c.name);
      if c.slash {
        Concat(root, Flat(w.stack) + c.name, [SLASH]);
        out.Putc(SLASH);
      }
    }
  }

  lemma NoText(w: Walk)
    requires Names(w)
    ensures Render(w) == [] <==> w.stack == []
  {
  }

  /** One step of Components, and what it means for the steps and the slash at the end. */
  lemma NextComponent(s: seq<Byte>, w: Walk)
    requires s != []
    ensures Steps(w, Components(s)) == Steps(Step(w, Front(s)), Components(AfterFront(s)))
    ensures TrailingSlash(Components(s)) ==
            if AfterFront(s) == [] then Front(s).slash else TrailingSlash(Components(AfterFront(s)))
  {
    hide *;
    FirstComponent(s);
    ConsComponent(w, Front(s), Components(AfterFront(s)));
  }

  /** The text that a base directory contributes: itself or ".", and a slash unless it ends with one. */
  function Root(before: seq<Byte>, base: seq<Byte>): (root: seq<Byte>)
    ensures root != [] && root[|root| - 1] == SLASH
  {
    var dir := before + if base == [] then [DOT] else base;
    if dir[|dir| - 1] == SLASH then dir else dir + [SLASH]
  }

  /** A base directory is copied as it is, or "." if it is empty, and one slash is added where it has none. */
  lemma RootExactly(before: seq<Byte>, base: seq<Byte>)
    ensures var dir := if base == [] then [DOT] else base;
      Root(before, base) == if dir[|dir| - 1] == SLASH then before + dir else before + (dir + [SLASH])
  {
    var dir := if base == [] then [DOT] else base;
    Concat(before, dir, [SLASH]);
    assert (before + dir)[|before + dir| - 1] == dir[|dir| - 1];
  }

  lemma EndsExactly(s: seq<Byte>, end: seq<Byte>)
    ensures EndsWith(s, end) <==> exists front :: s == front + end
  {
    if EndsWith(s, end) {
      assert s == s[..|s| - |end|] + end;
    }
  }

  /**
   What asking for an extension is for: without one the text stays as it is; with one the text then ends with
   it, and it is added, as a whole, exactly where the text did not end with it.
   */
  ghost predicate Extended(text: seq<Byte>, ext: Option<seq<Byte>>, result: seq<Byte>) {
    match ext
    case None => result == text
    case Some(e) =>
      && text <= result && (exists front :: result == front + e)
      && (if exists front :: text == front + e then result == text else |result| == |text| + |e|)
  }

  lemma SuffixExtends(text: seq<Byte>, ext: Option<seq<Byte>>)
    ensures Extended(text, ext, text + Suffix(text, ext))
  {
    match ext {
      case None =>
      case Some(e) =>
        EndsExactly(text, e);
        hide EndsWith;
        assert text + [] == text;
    }
  }

  /** There is only one such text. */
  lemma ExtendedUnique(text: seq<Byte>, ext: Option<seq<Byte>>, result: seq<Byte>, result': seq<Byte>)
    requires Extended(text, ext, result) && Extended(text, ext, result')
    ensures result' == result
  {
    if ext.Some? && result != text && result' != text {
      var e := ext.value;
      var front :| result == front + e;
      var front' :| result' == front' + e;
      assert front == result[..|text|] == text && front' == result'[..|text|] == text;
    }
  }

  method AddBase(out: StringBuf, base: seq<Byte>)
    modifies out
    ensures out.text == Root(old(out.text), base)
  {
    if base != [] {
      out.Puts(base);
    } else {
      out.Puts([DOT]);
    }
    if out.text[|out.text| - 1] != SLASH {
      out.Putc(SLASH);
    }
  }

  method AddExtension(out: StringBuf, ext: Option<seq<Byte>>)
    modifies out
    ensures out.text == old(out.text) + Suffix(old(out.text), ext)
    ensures Extended(old(out.text), ext, out.text)
  {
    SuffixExtends(out.text, ext);
    hide Extended;
    match ext {
      case None =>
      case Some(e) =>
        if !(|e| <= |out.text| && out.text[|out.text| - |e|..] == e) {
          out.Puts(e);
        }
    }
  }

  lemma NoComponents()
    ensures Resolve([]).stack == [] && !TrailingSlash(Components([]))
  {
  }

  lemma StepKeeps(w: Walk, c: Component)
    requires Names(w) && SLASH !in c.name && !w.open
    ensures Names(Step(w, c)) && (Step(w, c).open ==> !c.slash)
  {
  }

  lemma StepsOfNothing(w: Walk)
    ensures Steps(w, Components([])) == w
  {
  }

  /**
   The loop of aem_sandbox_path. Without a component the flag for the trailing slash keeps whatever
   value it had.
   */
  method AddComponents(out: StringBuf, subpath: Slice) returns (above: bool, trailingSlash: bool)
    requires subpath.Valid()
    modifies out, subpath`start
    ensures out.text == old(out.text) + Render(Resolve(old(subpath.Rest())))
    ensures above == Resolve(old(subpath.Rest())).above
    ensures old(subpath.Rest()) != [] ==> trailingSlash == TrailingSlash(Components(old(subpath.Rest())))
  {
    hide Components, Render, Step, TrailingSlash;
    ghost var root, all := out.text, subpath.Rest();
    var base := |out.text|;
    above, trailingSlash := false, *;
    ghost var w := Walk([], false, false);
    RenderNothing(false);
    while subpath.Ok()
      invariant subpath.Valid()
      invariant out.text == root + Render(w) && above == w.above && Names(w)
      invariant w.open ==> subpath.Rest() == []
      invariant Steps(w, Components(subpath.Rest())) == Resolve(all)
      invariant subpath.Rest() != [] ==> TrailingSlash(Components(subpath.Rest())) == TrailingSlash(Components(all))
      invariant subpath.Rest() == [] && all != [] ==> trailingSlash == TrailingSlash(Components(all))
      decreases subpath.end - subpath.start
    {
      ghost var rest := subpath.Rest();
      var name, slash := MatchPathComponent(subpath);
      trailingSlash := slash;
      NextComponent(rest, w);
      FrontShape(rest);
      assert Component(name, slash) == Front(rest) && subpath.Rest() == AfterFront(rest);
      StepKeeps(w, Component(name, slash));
      var up := Apply(out, root, base, w, Component(name, slash));
      above := above || up;
      w := Step(w, Component(name, slash));
    }
    StepsOfNothing(w);
  }

  /**
   aem_sandbox_path. Bit 1 of the result says that the path climbed above the base, bit 2 that an
   extension was asked for and the path ends with a slash or nothing is left of it.
   */
  method Join(out: StringBuf, base: seq<Byte>, subpath: Slice, ext: Option<seq<Byte>>) returns (rc: nat)
    requires subpath.Valid()
    modifies out, subpath`start
    ensures var root := Root(old(out.text), base); var w := Resolve(old(subpath.Rest()));
      out.text == root + Render(w) + Suffix(root + Render(w), ext)
    ensures Extended(Root(old(out.text), base) + Render(Resolve(old(subpath.Rest()))), ext, out.text)
    ensures var s := old(subpath.Rest());
      rc == (if Resolve(s).above then 1 else 0) + (if ext.Some? && NoNameSeen(s) then 2 else 0)
  {
    hide Root, Render, Components, Suffix, Extended, TrailingSlash;
    AddBase(out, base);
    var baseLen := |out.text|;
    ghost var root, all := out.text, subpath.Rest();
    var above, trailingSlash := AddComponents(out, subpath);
    ResolveKeepsNames(all);
    NoText(Resolve(all));
    NoComponents();
    var noName := false;
    if ext.Some? {
      if trailingSlash {
        noName := true;
      }
      if |out.text| == baseLen {
        noName := true;
      }
    }
    AddExtension(out, ext);
    rc := (if above then 1 else 0) + (if noName then 2 else 0);
  }
}
