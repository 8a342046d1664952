/** The mark/sweep collector (gc.c, iter_gen.h, linked_list.h). */
module Gc {
  import opened Bytes

  class GcObject {
    var ctxNext: GcObject        // circular list through the context's sentinel
    var gen: int                 // struct aem_iter_gen
    var id: int
    var refs: nat
    var children: seq<GcObject>  // the objects its mark callback marks

    constructor ()
      ensures children == [] && refs == 0 && ctxNext == this && gen == 0 && id == 0
    {
      ctxNext, gen, id, refs, children := this, 0, 0, 0, [];
    }
  }

  class GcRoot {
    var prev: GcRoot
    var next: GcRoot
    var children: seq<GcObject>  // the objects its mark callback marks

    constructor ()
      ensures children == [] && prev == this && next == this
    {
      prev, next, children := this, this, [];
    }
  }

  // ----- reachability, on a snapshot of the object graph -----

  type Graph = map<GcObject, seq<GcObject>>

  ghost predicate Path(g: Graph, from: set<GcObject>, o: GcObject, n: nat)
    decreases n
  {
    if n == 0 then o in from else exists p :: p in g && Path(g, from, p, n - 1) && o in g[p]
  }

  ghost predicate Reach(g: Graph, from: set<GcObject>, o: GcObject) {
    exists n: nat :: Path(g, from, o, n)
  }

  lemma ReachStart(g: Graph, from: set<GcObject>, o: GcObject)
    requires o in from
    ensures Reach(g, from, o)
  {
    assert Path(g, from, o, 0);
  }

  lemma ReachStep(g: Graph, from: set<GcObject>, p: GcObject, o: GcObject)
    requires Reach(g, from, p) && p in g && o in g[p]
    ensures Reach(g, from, o)
  {
    var n: nat :| Path(g, from, p, n);
    assert Path(g, from, o, n + 1);
  }

  /** A set that holds the start and is closed under children holds everything reachable. */
  lemma {:induction false} ReachStaysIn(g: Graph, from: set<GcObject>, s: set<GcObject>, o: GcObject, n: nat)
    requires from <= s && Path(g, from, o, n)
    requires forall p, c :: p in s && p in g && c in g[p] ==> c in s
    ensures o in s
    decreases n
  {
    if n > 0 {
      var p :| p in g && Path(g, from, p, n - 1) && o in g[p];
      ReachStaysIn(g, from, s, p, n - 1);
    }
  }

  // ----- sequences of objects -----

  function Elements<T>(s: seq<T>): set<T> {
    set x | x in s
  }

  ghost predicate Distinct<T>(s: seq<T>) {
    forall j, k :: 0 <= j < k < |s| ==> s[j] != s[k]
  }

  /** The elements of s that are in keep, in order. */
  ghost function Filter(s: seq<GcObject>, keep: set<GcObject>): seq<GcObject> {
    if s == [] then []
    else Filter(s[..|s| - 1], keep) + if s[|s| - 1] in keep then [s[|s| - 1]] else []
  }

  lemma ElementsAppend<T>(s: seq<T>, x: T)
    ensures Elements(s + [x]) == Elements(s) + {x}
  {
    assert (s + [x])[|s|] == x;
  }

  lemma {:induction false} FilterElements(s: seq<GcObject>, keep: set<GcObject>)
    ensures Elements(Filter(s, keep)) == Elements(s) * keep
  {
    if s != [] {
      var init, last := s[..|s| - 1], s[|s| - 1];
      FilterElements(init, keep);
      assert s == init + [last];
      ElementsAppend(init, last);
      if last in keep {
        ElementsAppend(Filter(init, keep), last);
      } else {
        assert Filter(s, keep) == Filter(init, keep);
      }
    }
  }

  /** The first i elements of s, filtered. */
  ghost function Part(s: seq<GcObject>, i: nat, keep: set<GcObject>): seq<GcObject>
    requires i <= |s|
  {
    Filter(s[..i], keep)
  }

  /** One more element: it joins the end of the filtered sequence, or not. */
  lemma PartStep(s: seq<GcObject>, i: nat, keep: set<GcObject>)
    requires i < |s|
    ensures s[i] in keep ==> Part(s, i + 1, keep) == Part(s, i, keep) + [s[i]]
    ensures s[i] !in keep ==> Part(s, i + 1, keep) == Part(s, i, keep)
  {
    var t := s[..i + 1];
    assert t[..|t| - 1] == s[..i];
  }

  lemma PartElements(s: seq<GcObject>, i: nat, keep: set<GcObject>)
    requires i <= |s|
    ensures Elements(Part(s, i, keep)) == Elements(s[..i]) * keep
  {
    FilterElements(s[..i], keep);
  }

  lemma PartEnds(s: seq<GcObject>, keep: set<GcObject>)
    ensures Part(s, 0, keep) == [] && Part(s, |s|, keep) == Filter(s, keep)
  {
    assert s[..|s|] == s;
  }

  /** What the collector does to dead objects, in the order it does it. */
  datatype Action = Destruct(obj: GcObject) | Free(obj: GcObject)

  ghost function Destructions(s: seq<GcObject>): seq<Action> {
    seq(|s|, i requires 0 <= i < |s| => Destruct(s[i]))
  }

  lemma DestructionsStep(s: seq<GcObject>, o: GcObject)
    ensures Destructions(s + [o]) == Destructions(s) + [Destruct(o)]
  {
  }

  ghost function Frees(s: seq<GcObject>): seq<Action> {
    seq(|s|, i requires 0 <= i < |s| => Free(s[i]))
  }

  lemma FreesStep(s: seq<GcObject>, o: GcObject)
    ensures Frees(s + [o]) == Frees(s) + [Free(o)]
  {
  }

  lemma {:induction false} FilterDistinct(s: seq<GcObject>, keep: set<GcObject>)
    requires Distinct(s)
    ensures Distinct(Filter(s, keep))
  {
    if s != [] {
      var init, last := s[..|s| - 1], s[|s| - 1];
      FilterDistinct(init, keep);
      assert last !in init by {
        assert forall j :: 0 <= j < |init| ==> init[j] == s[j];
      }
      FilterElements(init, keep);
      forall o | o in Filter(init, keep)
        ensures o in init
      {
        assert o in Elements(Filter(init, keep));
      }
    }
  }

  lemma {:induction false} CountDestructions(s: seq<GcObject>, o: GcObject)
    requires Distinct(s)
    ensures multiset(Destructions(s))[Destruct(o)] == (if o in s then 1 else 0)
    ensures multiset(Destructions(s))[Free(o)] == 0
  {
    if s != [] {
      var init, last := s[..|s| - 1], s[|s| - 1];
      CountDestructions(init, o);
      DestructionsStep(init, last);
      assert s == init + [last];
    }
  }

  lemma {:induction false} CountFrees(s: seq<GcObject>, o: GcObject)
    requires Distinct(s)
    ensures multiset(Frees(s))[Free(o)] == (if o in s then 1 else 0)
    ensures multiset(Frees(s))[Destruct(o)] == 0
  {
    if s != [] {
      var init, last := s[..|s| - 1], s[|s| - 1];
      CountFrees(init, o);
      FreesStep(init, last);
      assert s == init + [last];
    }
  }

  /** What a run logs: each dead object destructed once and freed once, destructors first. */
  lemma OnceEach(all: seq<GcObject>, dead: set<GcObject>, log: seq<Action>, o: GcObject)
    requires Distinct(all) && log == Destructions(Filter(all, dead)) + Frees(Filter(all, dead))
    ensures multiset(log)[Destruct(o)] == multiset(log)[Free(o)] == if o in all && o in dead then 1 else 0
    ensures forall i, j :: 0 <= i < |log| && 0 <= j < |log| && log[i].Destruct? && log[j].Free? ==> i < j
  {
    var s := Filter(all, dead);
    FilterDistinct(all, dead);
    FilterElements(all, dead);
    assert o in s <==> o in Elements(s);
    CountDestructions(s, o);
    CountFrees(s, o);
  }

  // ----- circular lists with a sentinel -----

  /** The k-th node of the circle, counting the sentinel as the 0-th. */
  function Node<T>(sentinel: T, list: seq<T>, k: nat): T
    requires k <= |list|
  {
    if k == 0 then sentinel else list[k - 1]
  }

  /** The node after the k-th. */
  function After<T>(sentinel: T, list: seq<T>, k: nat): T
    requires k <= |list|
  {
    if k == |list| then sentinel else list[k]
  }

  ghost predicate Circular(sentinel: GcObject, list: seq<GcObject>)
    reads sentinel`ctxNext, (set o | o in list)`ctxNext
  {
    && sentinel !in list && Distinct(list)
    && forall k :: 0 <= k <= |list| ==> Node(sentinel, list, k).ctxNext == After(sentinel, list, k)
  }

  /** The doubly linked list of the roots. */
  ghost predicate CircularRoots(sentinel: GcRoot, list: seq<GcRoot>)
    reads sentinel, set r | r in list
  {
    && sentinel !in list && Distinct(list)
    && forall k :: 0 <= k <= |list| ==>
         && Node(sentinel, list, k).next == After(sentinel, list, k)
         && After(sentinel, list, k).prev == Node(sentinel, list, k)
  }

  /** The ids of the n members of s are distinct and below n. */
  ghost predicate DistinctIds(s: set<GcObject>, n: int)
    reads s`id
  {
    && |s| == n
    && (forall o :: o in s ==> 0 <= o.id < n)
    && (forall o, p :: o in s && p in s && o.id == p.id ==> o == p)
  }

  function UpTo(n: nat): set<nat> {
    if n == 0 then {} else UpTo(n - 1) + {n - 1}
  }

  lemma {:induction false} UpToSize(n: nat)
    ensures |UpTo(n)| == n && forall j: nat :: j in UpTo(n) <==> j < n
  {
    if n > 0 {
      UpToSize(n - 1);
    }
  }

  /** Distinct ids need as many values. */
  lemma {:induction false} TooManyIds(s: set<GcObject>, values: set<nat>)
    requires forall o :: o in s ==> o.id in values
    requires forall o, p :: o in s && p in s && o.id == p.id ==> o == p
    ensures |s| <= |values|
  {
    if s != {} {
      var o :| o in s;
      TooManyIds(s - {o}, values - {o.id});
    }
  }

  /** The ids are 0..n-1, each used once. */
  lemma {:induction false} IdsAreDense(s: set<GcObject>, n: nat, k: nat)
    requires DistinctIds(s, n) && k < n
    ensures exists o :: o in s && o.id == k
  {
    if !exists o :: o in s && o.id == k {
      UpToSize(n);
      assert |UpTo(n) - {k}| == n - 1;
      TooManyIds(s, UpTo(n) - {k});
    }
  }

  lemma OneMoreId(s: set<GcObject>, o: GcObject, n: int)
    requires DistinctIds(s, n) && o !in s && o.id == n
    ensures DistinctIds(s + {o}, n + 1)
  {
  }

  /** A path stays a path in the part of the graph it cannot leave. */
  lemma {:induction false} PathSurvives(g: Graph, g': Graph, from: set<GcObject>, s: set<GcObject>, o: GcObject, n: nat)
    requires Path(g, from, o, n) && from <= s
    requires forall x :: x in s ==> x in g && x in g' && g'[x] == g[x]
    requires forall x, c :: x in s && c in g[x] ==> c in s
    ensures o in s && Path(g', from, o, n)
    decreases n
  {
    if n > 0 {
      var p :| p in g && Path(g, from, p, n - 1) && o in g[p];
      PathSurvives(g, g', from, s, p, n - 1);
    }
  }

  lemma {:induction false} PathWiden(g: Graph, from: set<GcObject>, from': set<GcObject>, o: GcObject, n: nat)
    requires Path(g, from, o, n) && from <= from'
    ensures Path(g, from', o, n)
    decreases n
  {
    if n > 0 {
      var p :| p in g && Path(g, from, p, n - 1) && o in g[p];
      PathWiden(g, from, from', p, n - 1);
    }
  }

  lemma ReachWiden(g: Graph, from: set<GcObject>, from': set<GcObject>, o: GcObject)
    requires Reach(g, from, o) && from <= from'
    ensures Reach(g, from', o)
  {
    var n: nat :| Path(g, from, o, n);
    PathWiden(g, from, from', o, n);
  }

  lemma {:induction false} PathThrough(g: Graph, p: GcObject, c: GcObject, o: GcObject, n: nat)
    requires p in g && c in g[p] && Path(g, {c}, o, n)
    ensures Reach(g, {p}, o)
    decreases n
  {
    if n == 0 {
      ReachStart(g, {p}, p);
      ReachStep(g, {p}, p, o);
    } else {
      var q :| q in g && Path(g, {c}, q, n - 1) && o in g[q];
      PathThrough(g, p, c, q, n - 1);
      ReachStep(g, {p}, q, o);
    }
  }

  /** What a child reaches, its parent reaches. */
  lemma ReachThrough(g: Graph, p: GcObject, c: GcObject, o: GcObject)
    requires p in g && c in g[p] && Reach(g, {c}, o)
    ensures Reach(g, {p}, o)
  {
    var n: nat :| Path(g, {c}, o, n);
    PathThrough(g, p, c, o, n);
  }

  class Context {
    const objects: GcObject      // sentinel of the objects; its iter is the master
    const roots: GcRoot          // sentinel of the roots
    ghost var objs: seq<GcObject>
    ghost var rootList: seq<GcRoot>
    var log: seq<Action>

    ghost function Objs(): set<GcObject>
      reads `objs
    {
      Elements(objs)
    }

    ghost predicate RootsClosed()
      reads `objs, `rootList, (set r | r in rootList)`children
    {
      forall r, c :: r in rootList && c in r.children ==> c in Objs()
    }

    /** The objects stamped with the master's generation. */
    ghost function Stamped(): set<GcObject>
      reads `objs, objects`gen, Objs()`gen
    {
      set o | o in Objs() && o.gen == objects.gen
    }

    /** Stamped objects have distinct ids below the master's id, which counts them. */
    ghost predicate IdsOk()
      reads `objs, objects`gen, objects`id, Objs()`gen, Objs()`id
    {
      DistinctIds(Stamped(), objects.id)
    }

    ghost predicate Closed()
      reads `objs, Objs()`children
    {
      forall o, c :: o in Objs() && c in o.children ==> c in Objs()
    }

    /**
     Between calls: the lists are well linked and all objects are stamped, with distinct ids below their
     number. Objects and roots may still point to objects that are to be registered before the next run.
     */
    ghost predicate Valid()
      reads `objs, `rootList, objects, Objs(), roots, set r | r in rootList
    {
      && Circular(objects, objs) && CircularRoots(roots, rootList)
      && Stamped() == Objs() && IdsOk()
    }

    /** aem_gc_init. */
    constructor ()
      ensures Valid() && objs == [] && rootList == [] && log == []
    {
      objects := new GcObject();
      roots := new GcRoot();
      objs, rootList, log := [], [], [];
    }

    /** The object graph as the mark callbacks see it. */
    ghost function Snapshot(): Graph
      reads `objs, Objs()`children
    {
      map o | o in Objs() :: o.children
    }

    /** aem_iter_gen_id: stamp obj with the next id, or -1 if it is stamped already. */
    method IterGenId(obj: GcObject) returns (id: int)
      requires obj in Objs() && objects !in Objs() && IdsOk()
      modifies objects`id, obj`gen, obj`id
      ensures IdsOk() && Stamped() == old(Stamped()) + {obj}
      ensures if obj in old(Stamped()) then id == -1 && obj.id == old(obj.id) else 0 <= id == obj.id == old(objects.id)
      ensures obj.gen == objects.gen
    {
      if obj.gen == objects.gen {
        return -1;
      }
      ghost var before := Stamped();
      obj.gen := objects.gen;
      obj.id := objects.id;
      objects.id := objects.id + 1;
      OneMoreId(before, obj, obj.id);
      assert Stamped() == before + {obj};
      id := obj.id;
    }

    /** aem_gc_mark: stamp obj and everything below it that is not stamped yet. */
    method Mark(obj: GcObject)
      requires obj in Objs() && objects !in Objs() && Closed() && IdsOk()
      modifies objects`id, Objs()`gen, Objs()`id
      ensures objects.gen == old(objects.gen) && IdsOk()
      ensures old(Stamped()) + {obj} <= Stamped()
      ensures forall o :: o in Objs() - Stamped() ==> o.gen == old(o.gen)
      ensures forall o :: o in Stamped() - old(Stamped()) ==> Reach(Snapshot(), {obj}, o)
      ensures forall o, c :: o in Stamped() - old(Stamped()) && c in o.children ==> c in Stamped()
      decreases Objs() - Stamped()
    {
      hide IdsOk, Reach;
      ReachStart(Snapshot(), {obj}, obj);
      ghost var before := Stamped();
      var id := IterGenId(obj);
      if id < 0 {
        assert Stamped() == before;
        return;
      }
      for i := 0 to |obj.children|
        invariant objects.gen == old(objects.gen) && IdsOk()
        invariant before + {obj} <= Stamped()
        invariant forall o :: o in Objs() - Stamped() ==> o.gen == old(o.gen)
        invariant forall o :: o in Stamped() - before ==> Reach(Snapshot(), {obj}, o)
        invariant forall o, c :: o in Stamped() - before - {obj} && c in o.children ==> c in Stamped()
        invariant forall k :: 0 <= k < i ==> obj.children[k] in Stamped()
      {
        var child := obj.children[i];
        ghost var s := Stamped();
        assert child in obj.children;
        Mark(child);
        forall o | o in Stamped() - s
          ensures Reach(Snapshot(), {obj}, o)
        {
          ReachThrough(Snapshot(), obj, child, o);
        }
      }
    }

    ghost predicate IsStart(o: GcObject)
      reads `rootList, o`refs, (set r | r in rootList)`children
    {
      o.refs > 0 || exists r :: r in rootList && o in r.children
    }

    /** Where marking starts: objects with references, and the children of the roots. */
    ghost function Starts(): set<GcObject>
      reads `objs, `rootList, Objs()`refs, (set r | r in rootList)`children
    {
      set o | o in Objs() && IsStart(o)
    }

    ghost function Live(): set<GcObject>
      reads `objs, `rootList, Objs()`refs, Objs()`children, (set r | r in rootList)`children
    {
      set o | o in Objs() && Reach(Snapshot(), Starts(), o)
    }

    /** Marking has been sound so far and has left no half-marked object behind. */
    ghost predicate MarkedSoFar()
      reads `objs, `rootList, objects`gen, objects`id, Objs(), (set r | r in rootList)`children
    {
      && IdsOk()
      && (forall o :: o in Stamped() ==> Reach(Snapshot(), Starts(), o))
      && (forall o, c :: o in Stamped() && c in o.children ==> c in Stamped())
    }

    /** Mark one of the starting objects. */
    method MarkStart(obj: GcObject)
      requires obj in Starts() && objects !in Objs() && Closed() && MarkedSoFar()
      modifies objects`id, Objs()`gen, Objs()`id
      ensures MarkedSoFar() && objects.gen == old(objects.gen)
      ensures old(Stamped()) + {obj} <= Stamped()
    {
      hide IdsOk, Reach;
      ghost var before := Stamped();
      Mark(obj);
      forall o | o in Stamped() - before
        ensures Reach(Snapshot(), Starts(), o)
      {
        ReachWiden(Snapshot(), {obj}, Starts(), o);
      }
    }

    lemma NoneStamped()
      requires Stamped() == {} && objects.id == 0
      ensures MarkedSoFar()
    {
    }

    lemma StartRefs(o: GcObject)
      requires o in Objs() && o.refs > 0
      ensures o in Starts()
    {
    }

    lemma StartRoot(r: GcRoot, o: GcObject)
      requires r in rootList && o in r.children && RootsClosed()
      ensures o in Starts()
    {
    }

    /** When every start is stamped, the stamped objects are the live ones. */
    lemma MarkedAll()
      requires MarkedSoFar() && Starts() <= Stamped()
      ensures Stamped() == Live()
    {
      forall o | o in Live()
        ensures o in Stamped()
      {
        var n: nat :| Path(Snapshot(), Starts(), o, n);
        ReachStaysIn(Snapshot(), Starts(), Stamped(), o, n);
      }
    }

    /** The first loop of aem_gc_run: mark what is referenced from outside. */
    method MarkReferenced()
      requires Circular(objects, objs) && Closed() && MarkedSoFar()
      modifies objects`id, Objs()`gen, Objs()`id
      ensures objects.gen == old(objects.gen) && MarkedSoFar()
      ensures forall o :: o in Objs() && o.refs > 0 ==> o in Stamped()
    {
      hide IdsOk, Reach, Starts;
      ghost var i := 0;
      var curr := objects.ctxNext;
      assert Node(objects, objs, 0) == objects;
      while curr != objects
        invariant i <= |objs| && curr == After(objects, objs, i)
        invariant objects.gen == old(objects.gen) && MarkedSoFar()
        invariant forall k :: 0 <= k < i && objs[k].refs > 0 ==> objs[k] in Stamped()
        decreases |objs| - i
      {
        if curr.refs > 0 {
          StartRefs(curr);
          MarkStart(curr);
        }
        i := i + 1;
        assert curr == Node(objects, objs, i);
        curr := curr.ctxNext;
      }
    }

    /** The second loop of aem_gc_run: call the mark callback of every root. */
    method MarkRoots()
      requires CircularRoots(roots, rootList) && RootsClosed() && objects !in Objs() && Closed() && MarkedSoFar()
      modifies objects`id, Objs()`gen, Objs()`id
      ensures objects.gen == old(objects.gen) && MarkedSoFar() && old(Stamped()) <= Stamped()
      ensures forall r, o :: r in rootList && o in r.children ==> o in Stamped()
    {
      hide IdsOk, Reach, Starts;
      ghost var i := 0;
      var root := roots.next;
      assert Node(roots, rootList, 0) == roots;
      while root != roots
        invariant i <= |rootList| && root == After(roots, rootList, i)
        invariant objects.gen == old(objects.gen) && MarkedSoFar() && old(Stamped()) <= Stamped()
        invariant forall k, o :: 0 <= k < i && o in rootList[k].children ==> o in Stamped()
        decreases |rootList| - i
      {
        for j := 0 to |root.children|
          invariant objects.gen == old(objects.gen) && MarkedSoFar() && old(Stamped()) <= Stamped()
          invariant forall k, o :: 0 <= k < i && o in rootList[k].children ==> o in Stamped()
          invariant forall k :: 0 <= k < j ==> root.children[k] in Stamped()
        {
          StartRoot(root, root.children[j]);
          MarkStart(root.children[j]);
        }
        i := i + 1;
        assert root == Node(roots, rootList, i);
        root := root.next;
      }
    }

    lemma AtEnd(k: nat)
      requires Circular(objects, objs) && k <= |objs| && After(objects, objs, k) == objects
      ensures k == |objs|
    {
    }

    /** The third loop: destruct every object that was not marked. */
    method DestructDead()
      requires Circular(objects, objs)
      modifies this`log
      ensures log == old(log) + Destructions(Filter(objs, Objs() - Stamped()))
      ensures Stamped() == old(Stamped())
    {
      ghost var i, dead := 0, Objs() - Stamped();
      PartEnds(objs, dead);
      assert Destructions([]) == [];
      hide Part, Destructions;
      var curr := objects.ctxNext;
      assert Node(objects, objs, 0) == objects;
      while curr != objects
        invariant i <= |objs| && curr == After(objects, objs, i)
        invariant log == old(log) + Destructions(Part(objs, i, dead))
        decreases |objs| - i
      {
        PartStep(objs, i, dead);
        DestructionsStep(Part(objs, i, dead), curr);
        if curr.gen != objects.gen {
          assert curr in dead;
          Concat(old(log), Destructions(Part(objs, i, dead)), [Destruct(curr)]);
          log := log + [Destruct(curr)];
        }
        i := i + 1;
        assert curr == Node(objects, objs, i);
        curr := curr.ctxNext;
      }
      AtEnd(i);
    }

    /** The links at the k-th position of the circle. */
    lemma LinkAt(k: nat)
      requires Circular(objects, objs) && k <= |objs|
      ensures Node(objects, objs, k).ctxNext == After(objects, objs, k)
      ensures objects !in objs && Distinct(objs)
    {
    }

    /** What the sweep keeps true: the list is the kept part of `all` up to i, and the rest of it. */
    ghost predicate Sweeping(all: seq<GcObject>, live: set<GcObject>, i: nat, prev: GcObject)
      reads `objs, objects`ctxNext, Objs()`ctxNext
    {
      && Circular(objects, objs) && Distinct(all) && objects !in all && i <= |all|
      && objs == Part(all, i, live) + all[i..]
      && prev == Node(objects, objs, |Part(all, i, live)|)
    }

    lemma SweepStart()
      requires Circular(objects, objs)
      ensures Sweeping(objs, Stamped(), 0, objects)
    {
      assert objs[..0] == [] && [] + objs == objs;
    }

    /** The node before the cursor and the node at the cursor have not been freed. */
    lemma SweepAt(all: seq<GcObject>, live: set<GcObject>, dead: set<GcObject>, i: nat, prev: GcObject)
      requires Sweeping(all, live, i, prev) && live !! dead
      ensures prev == objects || prev in Elements(all)
      ensures prev !in Elements(Part(all, i, dead)) && prev.ctxNext !in Elements(Part(all, i, dead))
      ensures prev.ctxNext == After(objects, all, i)
      ensures i == |all| ==> objs == Filter(all, live)
      ensures i < |all| ==>
        |Part(all, i, live)| < |objs| && objs[|Part(all, i, live)|] == all[i] && all[i] != objects
    {
      hide Part, Circular;
      var kept := Part(all, i, live);
      LinkAt(|kept|);
      PartElements(all, i, live);
      PartElements(all, i, dead);
      if kept != [] {
        assert prev == objs[|kept| - 1] == kept[|kept| - 1];
        assert prev in Elements(kept);
      }
      if i == |all| {
        PartEnds(all, live);
      } else {
        assert all[i] !in all[..i];
      }
    }

    /** Keeping the object at the cursor. */
    lemma SweepKeep(all: seq<GcObject>, live: set<GcObject>, i: nat, prev: GcObject)
      requires Sweeping(all, live, i, prev) && i < |all| && all[i] in live
      ensures Sweeping(all, live, i + 1, all[i])
    {
      hide Part, Circular;
      PartStep(all, i, live);
      var kept := Part(all, i, live);
      assert kept + all[i..] == kept + [all[i]] + all[i + 1..];
    }

    /** Dropping it. */
    lemma SweepDrop(all: seq<GcObject>, live: set<GcObject>, i: nat, prev: GcObject, was: seq<GcObject>)
      requires Distinct(all) && objects !in all && i < |all| && all[i] !in live
      requires was == Part(all, i, live) + all[i..]
      requires prev == Node(objects, was, |Part(all, i, live)|)
      requires objs == was[..|Part(all, i, live)|] + was[|Part(all, i, live)| + 1..] && Circular(objects, objs)
      ensures Sweeping(all, live, i + 1, prev)
    {
      hide Part, Circular;
      PartStep(all, i, live);
      var kept := Part(all, i, live);
      assert was[..|kept|] == kept && was[|kept| + 1..] == all[i + 1..];
      assert Part(all, i + 1, live) == kept;
      if kept != [] {
        assert was[|kept| - 1] == kept[|kept| - 1];
      }
    }

    lemma SweepingParts(all: seq<GcObject>, live: set<GcObject>, i: nat, prev: GcObject)
      requires Sweeping(all, live, i, prev)
      ensures Circular(objects, objs) && Distinct(all) && objects !in all
      ensures objs == Part(all, i, live) + all[i..] && prev == Node(objects, objs, |Part(all, i, live)|)
    {
    }

    /** Remove the k-th object from the list, given the node before and the node after it. */
    method Unlink(prev: GcObject, next: GcObject, ghost k: nat)
      requires Circular(objects, objs) && k < |objs|
      requires prev == Node(objects, objs, k) && next == objs[k].ctxNext
      modifies this`objs, prev`ctxNext
      ensures objs == old(objs[..k] + objs[k + 1..]) && Circular(objects, objs)
    {
      ghost var all := objs;
      assert objs[k] == Node(objects, objs, k + 1);
      prev.ctxNext := next;
      objs := objs[..k] + objs[k + 1..];
      forall j | 0 <= j <= |objs|
        ensures Node(objects, objs, j).ctxNext == After(objects, objs, j)
      {
        if j <= k {
          assert Node(objects, objs, j) == Node(objects, all, j);
        } else {
          assert Node(objects, objs, j) == Node(objects, all, j + 1);
        }
      }
    }

    /**
     One round of that loop; false when the cursor is back at the sentinel. The two nodes whose links it
     reads, the one at the cursor and the one behind it, have not been freed in an earlier round.
     */
    method SweepOne(ghost all: seq<GcObject>, ghost live: set<GcObject>, ghost dead: set<GcObject>,
                    ghost i: nat, cursor: GcObject)
      returns (more: bool, prev: GcObject)
      requires Sweeping(all, live, i, cursor) && i <= |all| && live !! dead
      requires forall o :: o in Elements(all) ==> (o in live <==> o.gen == objects.gen) && (o in dead <==> o !in live)
      modifies this`log, this`objs, objects`ctxNext, Elements(all)`ctxNext
      ensures cursor !in Elements(Part(all, i, dead)) && old(cursor.ctxNext) !in Elements(Part(all, i, dead))
      ensures more <==> i < |all|
      ensures !more ==> log == old(log) && objs == Filter(all, live) && Circular(objects, objs)
      ensures more ==> Sweeping(all, live, i + 1, prev)
      ensures more ==> log == old(log) + if all[i] in dead then [Free(all[i])] else []
    {
      hide Part, Circular, Distinct, Node, Sweeping, Filter;
      SweepAt(all, live, dead, i, cursor);
      SweepingParts(all, live, i, cursor);
      ghost var freed := Elements(Part(all, i, dead));
      // neither node read here has been freed
      assert cursor !in freed && cursor.ctxNext !in freed;
      var next := cursor.ctxNext.ctxNext;
      var curr := cursor.ctxNext;
      if curr == objects {
        return false, cursor;
      }
      assert curr == all[i] && curr in Elements(all);
      if curr.gen == objects.gen {
        SweepKeep(all, live, i, cursor);
        return true, curr;
      }
      ghost var was := objs;
      log := log + [Free(curr)];
      Unlink(cursor, next, |Part(all, i, live)|);
      SweepDrop(all, live, i, cursor, was);
      return true, cursor;
    }

    method Sweep(ghost all: seq<GcObject>, ghost live: set<GcObject>, ghost dead: set<GcObject>)
      requires Sweeping(all, live, 0, objects) && live !! dead
      requires forall o :: o in Elements(all) ==> (o in live <==> o.gen == objects.gen) && (o in dead <==> o !in live)
      modifies this`log, this`objs, objects`ctxNext, Elements(all)`ctxNext
      ensures Circular(objects, objs) && objs == Filter(all, live)
      ensures log == old(log) + Frees(Filter(all, dead))
    {
      PartEnds(all, dead);
      assert Frees([]) == [];
      hide Part, Frees, Circular, Sweeping, Filter;
      ghost var i := 0;
      var more, prev := true, objects;
      while more
        invariant i <= |all| && (more ==> Sweeping(all, live, i, prev))
        invariant !more ==> i == |all| && objs == Filter(all, live) && Circular(objects, objs)
        invariant log == old(log) + Frees(Part(all, i, dead))
        decreases |all| - i, more
      {
        more, prev := SweepOne(all, live, dead, i, prev);
        if more {
          PartStep(all, i, dead);
          FreesStep(Part(all, i, dead), all[i]);
          Concat(old(log), Frees(Part(all, i, dead)), [Free(all[i])]);
          i := i + 1;
        }
      }
    }

    /** The fourth loop (AEM_LL_FILTER_ALL): free every dead object and unlink it. */
    method FreeDead()
      requires Circular(objects, objs)
      modifies this`log, this`objs, objects`ctxNext, Objs()`ctxNext
      ensures Circular(objects, objs) && objs == Filter(old(objs), old(Stamped()))
      ensures log == old(log) + Frees(Filter(old(objs), old(Objs() - Stamped())))
    {
      SweepStart();
      hide Circular, Sweeping, Filter, Frees;
      Sweep(objs, Stamped(), Objs() - Stamped());
    }

    lemma StartsStamped()
      requires forall o :: o in Objs() && o.refs > 0 ==> o in Stamped()
      requires forall r, o :: r in rootList && o in r.children ==> o in Stamped()
      ensures Starts() <= Stamped()
    {
    }

    lemma LiveParts()
      ensures Starts() <= Live() <= Objs()
      ensures forall o :: o in Live() ==> Reach(Snapshot(), Starts(), o)
      ensures forall o :: o in Live() ==> (o in Starts() <==> IsStart(o))
    {
      hide Reach;
      forall o | o in Starts()
        ensures o in Live()
      {
        ReachStart(Snapshot(), Starts(), o);
      }
    }

    lemma NotInObjs()
      requires Circular(objects, objs)
      ensures objects !in Objs()
    {
    }

    /** The marking half of aem_gc_run. */
    method MarkAll()
      requires Valid() && Closed() && RootsClosed()
      modifies objects`gen, objects`id, Objs()`gen, Objs()`id
      ensures forall o :: o in Live() ==> o.gen == objects.gen
      ensures IdsOk() && Stamped() == Live() == old(Live()) && objects.gen == old(objects.gen) + 1
    {
      hide Reach, Circular, CircularRoots, Starts, IsStart, Live;
      LiveParts();
      ghost var live := Live();
      assert forall o :: o in Objs() ==> o in Stamped();
      objects.gen := objects.gen + 1;
      objects.id := 0;
      NotInObjs();
      NoneStamped();
      assert Live() == live;
      MarkReferenced();
      assert Live() == live;
      MarkRoots();
      assert Live() == live;
      StartsStamped();
      MarkedAll();
    }

    /** What is live keeps its children and the children of the roots in the list. */
    lemma LiveIsClosed()
      requires Closed() && RootsClosed()
      ensures forall o, c :: o in Live() && c in o.children ==> c in Live()
      ensures forall r, c :: r in rootList && c in r.children ==> c in Live()
    {
      hide Reach;
      forall o, c | o in Live() && c in o.children
        ensures c in Live()
      {
        ReachStep(Snapshot(), Starts(), o, c);
      }
      forall r, c | r in rootList && c in r.children
        ensures c in Live()
      {
        ReachStart(Snapshot(), Starts(), c);
      }
    }

    /** Nothing that was live becomes unreachable when the dead objects leave. */
    lemma AllLive(g: Graph, from: set<GcObject>)
      requires Closed() && from <= Objs() && forall o :: o in Objs() ==> (o in from <==> IsStart(o))
      requires forall o :: o in Objs() ==> o in g && g[o] == o.children && Reach(g, from, o)
      ensures Live() == Objs()
    {
      assert Starts() == from;
      hide Starts;
      forall o | o in Objs()
        ensures Reach(Snapshot(), from, o)
      {
        var n: nat :| Path(g, from, o, n);
        PathSurvives(g, Snapshot(), from, Objs(), o, n);
      }
    }

    lemma Collected(all: seq<GcObject>, live: set<GcObject>)
      requires objs == Filter(all, live) && live <= Elements(all)
      requires forall o :: o in live ==> o.gen == objects.gen
      ensures Stamped() == Objs() == live
    {
      FilterElements(all, live);
    }

    /**
     aem_gc_run. Exactly the objects reachable from a referenced object or a root stay, in their
     old order; every other object is destructed once, in list order, and after all of those freed
     once, in list order. By now everything that is pointed to has to be registered.
     */
    method Run()
      requires Valid() && Closed() && RootsClosed()
      modifies this`log, this`objs, objects, Objs()`gen, Objs()`id, Objs()`ctxNext
      ensures Valid() && Closed() && RootsClosed() && objects.gen == old(objects.gen) + 1
      ensures objs == Filter(old(objs), old(Live()))
      ensures Objs() == old(Live()) == Live()
      ensures log == old(log) + Destructions(Filter(old(objs), old(Objs() - Live())))
                     + Frees(Filter(old(objs), old(Objs() - Live())))
    {
      hide Circular, CircularRoots, Starts, IsStart, Live, Reach, Filter, Destructions, Frees, DistinctIds;
      LiveParts();
      ghost var all, live, graph, starts := objs, Live(), Snapshot(), Starts();
      LiveIsClosed();
      assert forall o, c :: o in live && c in o.children ==> c in live;
      assert forall r, c :: r in rootList && c in r.children ==> c in live;
      MarkAll();
      assert DistinctIds(live, objects.id);
      DestructDead();
      FreeDead();
      Collected(all, live);
      assert Closed() && RootsClosed() && IdsOk();
      AllLive(graph, starts);
    }

    /** aem_iter_gen_init: a new object counts as stamped. */
    method IterGenInit(obj: GcObject)
      requires obj !in Objs() && obj != objects && IdsOk()
      modifies objects`id, obj`gen, obj`id
      ensures obj.gen == objects.gen && obj.id == old(objects.id)
      ensures DistinctIds(old(Stamped()) + {obj}, objects.id)
    {
      hide DistinctIds;
      obj.gen := objects.gen;
      obj.id := objects.id;
      OneMoreId(Stamped(), obj, objects.id);
      objects.id := objects.id + 1;
    }

    /** AEM_LL1_INSERT_AFTER, behind the sentinel. */
    method InsertAfter(obj: GcObject)
      requires Circular(objects, objs) && obj !in objs && obj != objects
      modifies this`objs, objects`ctxNext, obj`ctxNext
      ensures Circular(objects, objs) && objs == [obj] + old(objs)
    {
      ghost var all := objs;
      assert objects == Node(objects, all, 0);
      obj.ctxNext := objects.ctxNext;
      objects.ctxNext := obj;
      objs := [obj] + objs;
      forall k | 0 <= k <= |objs|
        ensures Node(objects, objs, k).ctxNext == After(objects, objs, k)
      {
        if k > 1 {
          assert Node(objects, objs, k) == Node(objects, all, k - 1);
        }
      }
    }

    /** aem_gc_register: the object starts with one reference, at the head of the list. */
    method Register(obj: GcObject)
      requires Valid() && obj !in Objs() && obj != objects
      modifies this`objs, objects`id, objects`ctxNext, obj`gen, obj`id, obj`refs, obj`ctxNext
      ensures Valid() && objs == [obj] + old(objs) && obj.refs == 1 && obj.id == old(objects.id)
    {
      hide Circular, CircularRoots, DistinctIds;
      NotInObjs();
      ghost var before := Objs();
      assert before == Stamped();
      IterGenInit(obj);
      obj.refs := 1;
      InsertAfter(obj);
      assert Objs() == before + {obj};
      assert Stamped() == Objs();
    }

    /** aem_gc_ref. */
    method Ref(obj: GcObject)
      requires Valid()
      modifies obj`refs
      ensures Valid() && obj.refs == old(obj.refs) + 1
    {
      obj.refs := obj.refs + 1;
    }

    /** aem_gc_unref, which insists that there is a reference to drop. */
    method Unref(obj: GcObject)
      requires Valid() && obj.refs > 0
      modifies obj`refs
      ensures Valid() && obj.refs == old(obj.refs) - 1
    {
      obj.refs := obj.refs - 1;
    }

    /** aem_gc_root_register: the root joins the end of the list. */
    method RootRegister(root: GcRoot)
      requires Valid() && root !in rootList && root != roots
      modifies this`rootList, root`next, root`prev, roots`prev, roots.prev`next
      ensures Valid() && rootList == old(rootList) + [root]
    {
      hide Circular, Closed, IdsOk;
      ghost var n, all := |rootList|, rootList;
      assert After(roots, rootList, n) == roots;
      assert roots.prev == Node(roots, rootList, n);
      root.next := roots;
      root.prev := roots.prev;
      roots.prev.next := root;
      roots.prev := root;
      rootList := rootList + [root];
      forall k | 0 <= k <= |rootList|
        ensures Node(roots, rootList, k).next == After(roots, rootList, k)
        ensures After(roots, rootList, k).prev == Node(roots, rootList, k)
      {
        if k <= n {
          assert Node(roots, rootList, k) == Node(roots, all, k);
          if k < n {
            assert After(roots, rootList, k) == After(roots, all, k);
          }
        }
      }
    }

    /** aem_gc_root_deregister: the k-th root leaves the list and is linked to itself again. */
    method RootDeregister(root: GcRoot, ghost k: nat)
      requires Valid() && k < |rootList| && rootList[k] == root
      modifies this`rootList, root.next`prev, root.prev`next, root`next, root`prev
      ensures Valid() && rootList == old(rootList[..k] + rootList[k + 1..])
      ensures root.next == root.prev == root
    {
      hide Circular, Closed, IdsOk;
      ghost var all := rootList;
      assert root == Node(roots, all, k + 1) == After(roots, all, k);
      root.next.prev := root.prev;
      root.prev.next := root.next;
      root.next := root;
      root.prev := root;
      rootList := rootList[..k] + rootList[k + 1..];
      forall j | 0 <= j <= |rootList|
        ensures Node(roots, rootList, j).next == After(roots, rootList, j)
        ensures After(roots, rootList, j).prev == Node(roots, rootList, j)
      {
        assert Node(roots, rootList, j) == Node(roots, all, if j <= k then j else j + 1);
        assert After(roots, rootList, j) == After(roots, all, if j < k then j else j + 1);
      }
    }

    lemma FirstRoot()
      requires CircularRoots(roots, rootList) && roots.next != roots
      ensures rootList != [] && rootList[0] == roots.next && rootList[0].prev == roots
      ensures rootList[0].next == roots || rootList[0].next in rootList
    {
      assert Node(roots, rootList, 0).next == After(roots, rootList, 0);
      assert Node(roots, rootList, 1).next == After(roots, rootList, 1);
    }

    ghost function Referenced(): set<GcObject>
      reads `objs, Objs()`refs
    {
      set o | o in Objs() && o.refs > 0
    }

    /** The objects reachable from an object that has references. */
    ghost function KeptByRefs(): set<GcObject>
      reads `objs, Objs()`refs, Objs()`children
    {
      set o | o in Objs() && Reach(Snapshot(), Referenced(), o)
    }

    lemma NoRoots()
      requires CircularRoots(roots, rootList) && roots.next == roots
      ensures rootList == [] && Live() == KeptByRefs()
    {
      assert Node(roots, rootList, 0).next == After(roots, rootList, 0);
      assert Starts() == Referenced();
    }

    /** aem_gc_dtor: with every root gone, only what references keep alive survives. */
    method Dtor()
      requires Valid() && Closed()
      modifies this`log, this`objs, this`rootList, objects, Objs()`gen, Objs()`id, Objs()`ctxNext
      modifies roots, set r | r in rootList
      ensures Valid() && Closed() && rootList == []
      ensures objs == Filter(old(objs), old(KeptByRefs()))
      ensures log == old(log) + Destructions(Filter(old(objs), old(Objs() - KeptByRefs())))
                     + Frees(Filter(old(objs), old(Objs() - KeptByRefs())))
    {
      while roots.next != roots
        invariant Valid() && Closed() && objs == old(objs) && log == old(log)
        invariant forall r :: r in rootList ==> r in old(rootList)
        invariant KeptByRefs() == old(KeptByRefs())
        decreases |rootList|
      {
        hide Circular, Closed, IdsOk, KeptByRefs;
        FirstRoot();
        RootDeregister(roots.next, 0);
      }
      NoRoots();
      Run();
    }
  }
}
