/** Stored objects are never aliased by objects that callers hold, so callers cannot change a store by mutating
    what they passed in or were handed. */
module Aliasing {
  import opened JsonTrees
  import opened Objects
  import opened Heaps

  // ---- Stores and callers ----

  /** The objects of one kind in the stores of one engine, or in the view cache. */
  datatype Area = Area(owner: nat, gvk: GVK)

  datatype Slot = Slot(area: Area, key: string)

  /** The heap, the stored objects, and the objects callers and event handlers hold. */
  datatype World = World(heap: Heap, stored: map<Slot, Ref>, held: set<Ref>)

  ghost predicate Edge(h: Heap, x: Ref, y: Ref) {
    x in h.nodes && y in Children(h.nodes[x])
  }

  ghost predicate Path(h: Heap, p: seq<Ref>) {
    |p| > 0 && forall i :: 0 <= i < |p| - 1 ==> Edge(h, p[i], p[i + 1])
  }

  ghost predicate Reaches(h: Heap, roots: set<Ref>, x: Ref) {
    exists p :: Path(h, p) && p[0] in roots && p[|p| - 1] == x
  }

  /** No node is reachable both from a stored object and from an object a caller holds. */
  ghost predicate Unaliased(w: World) {
    forall x :: !(Reaches(w.heap, w.stored.Values, x) && Reaches(w.heap, w.held, x))
  }

  /** The elementary steps. A caller's object is copied into a slot; a stored object, or one a caller holds,
      is copied for a caller; a slot is cleared; an object a caller can reach is passed on as it is. Between
      them callers do what they like with the nodes they can reach. */
  datatype Action =
    | CopyIn(slot: Slot, obj: Ref, copy: Ref)
    | HandOut(obj: Ref, copy: Ref)
    | Clear(slot: Slot)
    | PassOn(ref: Ref)
    | CallerWrite(at: Ref, node: Node)
    | CallerNew(node: Node)
    | CallerDrop(ref: Ref)

  ghost predicate OwnNode(w: World, n: Node) {
    forall y :: y in Children(n) ==> Reaches(w.heap, w.held, y)
  }

  ghost predicate CopiedTo(h: Heap, r: Ref, h': Heap, c: Ref) {
    exists j :: Denotes(h, r, j) && IsCopy(h, j, h', c)
  }

  ghost predicate Next(w: World, a: Action, w': World) {
    match a
    case CopyIn(slot, r, c) =>
      r in w.held && exists h' :: CopiedTo(w.heap, r, h', c) && w' == World(h', w.stored[slot := c], w.held)
    case HandOut(r, c) =>
      (r in w.stored.Values || r in w.held)
      && exists h' :: CopiedTo(w.heap, r, h', c) && w' == World(h', w.stored, w.held + {c})
    case Clear(slot) => w' == w.(stored := w.stored - {slot})
    case PassOn(x) => Reaches(w.heap, w.held, x) && w' == w.(held := w.held + {x})
    case CallerWrite(x, n) =>
      Reaches(w.heap, w.held, x) && OwnNode(w, n) && w' == w.(heap := w.heap.(nodes := w.heap.nodes[x := n]))
    case CallerNew(n) =>
      OwnNode(w, n) && w' == World(Allocate(w.heap, n).0, w.stored, w.held + {Allocate(w.heap, n).1})
    case CallerDrop(x) => w' == w.(held := w.held - {x})
  }

  /** `mine` separates the heap: stored roots inside, held roots outside, and no edge crosses. */
  ghost predicate Separated(w: World, mine: set<Ref>) {
    && WfHeap(w.heap) && mine <= w.heap.nodes.Keys
    && w.stored.Values <= mine && w.held <= w.heap.nodes.Keys - mine
    && forall x, y :: Edge(w.heap, x, y) ==> (x in mine <==> y in mine)
  }

  lemma {:induction false} PathStaysOnItsSide(w: World, mine: set<Ref>, p: seq<Ref>, i: nat)
    requires Separated(w, mine) && Path(w.heap, p) && i < |p| && p[0] in w.heap.nodes
    ensures p[i] in w.heap.nodes && (p[i] in mine <==> p[0] in mine)
  {
    if i > 0 {
      PathStaysOnItsSide(w, mine, p, i - 1);
      assert Edge(w.heap, p[i - 1], p[i]);
    }
  }

  lemma ReachesOwnSide(w: World, mine: set<Ref>, x: Ref)
    requires Separated(w, mine)
    ensures Reaches(w.heap, w.stored.Values, x) ==> x in mine
    ensures Reaches(w.heap, w.held, x) ==> x in w.heap.nodes && x !in mine
  {
    if Reaches(w.heap, w.stored.Values, x) {
      var p :| Path(w.heap, p) && p[0] in w.stored.Values && p[|p| - 1] == x;
      PathStaysOnItsSide(w, mine, p, |p| - 1);
    }
    if Reaches(w.heap, w.held, x) {
      var p :| Path(w.heap, p) && p[0] in w.held && p[|p| - 1] == x;
      PathStaysOnItsSide(w, mine, p, |p| - 1);
    }
  }

  lemma SeparatedIsUnaliased(w: World, mine: set<Ref>)
    requires Separated(w, mine)
    ensures Unaliased(w)
  {
    forall x ensures !(Reaches(w.heap, w.stored.Values, x) && Reaches(w.heap, w.held, x)) {
      ReachesOwnSide(w, mine, x);
    }
  }

  /** The region of the store after an action: nodes that were copied in join it. */
  ghost function Region(w: World, a: Action, w': World, mine: set<Ref>): set<Ref> {
    if a.CopyIn? then mine + (w'.heap.nodes.Keys - w.heap.nodes.Keys) else mine
  }

  lemma CopySeparates(w: World, a: Action, w': World, mine: set<Ref>)
    requires Separated(w, mine) && Next(w, a, w') && (a.CopyIn? || a.HandOut?)
    ensures Separated(w', Region(w, a, w', mine))
  {
    hide Denotes;
    var h, h' := w.heap, w'.heap;
    var mine' := Region(w, a, w', mine);
    assert Grown(h, h');
    forall x, y | Edge(h', x, y) ensures x in mine' <==> y in mine' {
      if x in h.nodes { assert Edge(h, x, y); }
    }
    if a.CopyIn? {
      forall r | r in w'.stored.Values ensures r in mine' {
        var k :| k in w'.stored && w'.stored[k] == r;
        if k != a.slot { assert w.stored[k] in w.stored.Values; }
      }
    }
  }

  lemma CallerSeparates(w: World, a: Action, w': World, mine: set<Ref>)
    requires Separated(w, mine) && Next(w, a, w') && !a.CopyIn? && !a.HandOut?
    ensures Separated(w', mine)
  {
    forall x ensures Reaches(w.heap, w.held, x) ==> x in w.heap.nodes && x !in mine { ReachesOwnSide(w, mine, x); }
    hide Reaches;
    match a
    case Clear(slot) =>
      forall r | r in w'.stored.Values ensures r in mine {
        var k :| k in w'.stored && w'.stored[k] == r;
        assert w.stored[k] in w.stored.Values;
      }
    case CallerWrite(x, n) =>
      forall s, t | Edge(w'.heap, s, t) ensures s in mine <==> t in mine {
        if s != x { assert Edge(w.heap, s, t); }
      }
    case CallerNew(n) =>
      var c := Allocate(w.heap, n).1;
      forall s, t | Edge(w'.heap, s, t) ensures s in mine <==> t in mine {
        if s != c { assert Edge(w.heap, s, t); }
      }
    case _ =>
  }

  /** A tree inside a region on which two heaps agree spells the same values in both. */
  lemma {:induction false} DenotesInRegion(h: Heap, h': Heap, mine: set<Ref>, r: Ref, j: Json)
    requires r in mine && mine <= h.nodes.Keys && mine <= h'.nodes.Keys
    requires forall x :: x in mine ==> h.nodes[x] == h'.nodes[x] && Children(h.nodes[x]) <= mine
    ensures Denotes(h, r, j) <==> Denotes(h', r, j)
    decreases j
  {
    match j
    case List(items) =>
      if h.nodes[r].ListNode? && |h.nodes[r].refs| == |items| {
        forall i | 0 <= i < |items|
          ensures Denotes(h, h.nodes[r].refs[i], items[i]) <==> Denotes(h', h.nodes[r].refs[i], items[i])
        {
          assert h.nodes[r].refs[i] in Children(h.nodes[r]);
          DenotesInRegion(h, h', mine, h.nodes[r].refs[i], items[i]);
        }
      }
    case Obj(fields) =>
      if h.nodes[r].MapNode? && h.nodes[r].fields.Keys == fields.Keys {
        forall k | k in fields
          ensures Denotes(h, h.nodes[r].fields[k], fields[k]) <==> Denotes(h', h.nodes[r].fields[k], fields[k])
        {
          assert h.nodes[r].fields[k] in Children(h.nodes[r]);
          DenotesInRegion(h, h', mine, h.nodes[r].fields[k], fields[k]);
        }
      }
    case _ =>
  }

  /** Only copying into a slot or clearing it changes what is stored there: whatever callers do, and whatever
      is read, every other stored object keeps its value. */
  lemma StoredValuesAreStable(w: World, a: Action, w': World, mine: set<Ref>, slot: Slot, j: Json)
    requires Separated(w, mine) && Next(w, a, w') && slot in w.stored
    requires !((a.CopyIn? || a.Clear?) && a.slot == slot)
    ensures slot in w'.stored && w'.stored[slot] == w.stored[slot]
    ensures Denotes(w.heap, w.stored[slot], j) <==> Denotes(w'.heap, w'.stored[slot], j)
  {
    var h, h', r := w.heap, w'.heap, w.stored[slot];
    assert r in w.stored.Values;
    forall x ensures Reaches(h, w.held, x) ==> x !in mine { ReachesOwnSide(w, mine, x); }
    hide Reaches, Denotes;
    forall x | x in mine ensures Children(h.nodes[x]) <= mine {
      forall y | y in Children(h.nodes[x]) ensures y in mine { assert Edge(h, x, y); }
    }
    DenotesInRegion(h, h', mine, r, j);
  }

  // ---- The invariant ----

  /** Stored objects are finite trees, apart from everything callers can reach. */
  ghost predicate Sound(w: World) {
    (exists mine :: Separated(w, mine)) && forall s :: s in w.stored ==> Tree(w.heap, w.stored[s])
  }

  lemma EmptyIsSound()
    ensures Sound(World(Heap(map[], 0), map[], {}))
  {
    assert Separated(World(Heap(map[], 0), map[], {}), {});
  }

  lemma SoundIsUnaliased(w: World)
    requires Sound(w)
    ensures Unaliased(w)
  {
    hide Unaliased, Separated;
    var mine :| Separated(w, mine);
    SeparatedIsUnaliased(w, mine);
  }

  lemma StepKeepsSound(w: World, a: Action, w': World)
    requires Sound(w) && Next(w, a, w')
    ensures Sound(w')
  {
    hide Separated, Denotes;
    var mine :| Separated(w, mine);
    if a.CopyIn? || a.HandOut? {
      CopySeparates(w, a, w', mine);
    } else {
      CallerSeparates(w, a, w', mine);
    }
    forall s | s in w'.stored ensures Tree(w'.heap, w'.stored[s]) {
      if !(a.CopyIn? && a.slot == s) {
        var j :| Denotes(w.heap, w.stored[s], j);
        StoredValuesAreStable(w, a, w', mine, s, j);
      }
    }
  }

  /** The steps of `actions`, one after the other. */
  ghost predicate Runs(w: World, actions: seq<Action>, w': World) {
    if actions == [] then w' == w
    else
      var pre, last := actions[..|actions| - 1], actions[|actions| - 1];
      exists u :: Runs(w, pre, u) && Next(u, last, w')
  }

  lemma {:induction false} RunKeepsSound(w: World, actions: seq<Action>, w': World)
    requires Sound(w) && Runs(w, actions, w')
    ensures Sound(w')
  {
    hide Sound, Next;
    if actions != [] {
      var u :| Runs(w, actions[..|actions| - 1], u) && Next(u, actions[|actions| - 1], w');
      RunKeepsSound(w, actions[..|actions| - 1], u);
      StepKeepsSound(u, actions[|actions| - 1], w');
    }
  }

  lemma RunsNext(w: World, actions: seq<Action>, u: World, a: Action, w': World)
    requires Runs(w, actions, u) && Next(u, a, w')
    ensures Runs(w, actions + [a], w')
  {
    hide Next;
    assert (actions + [a])[..|actions|] == actions;
  }

  lemma {:induction false} RunsConcat(w: World, xs: seq<Action>, u: World, ys: seq<Action>, w': World)
    requires Runs(w, xs, u) && Runs(u, ys, w')
    ensures Runs(w, xs + ys, w')
  {
    hide Next;
    if ys == [] {
      assert xs + ys == xs;
    } else {
      var pre, last := ys[..|ys| - 1], ys[|ys| - 1];
      var v :| Runs(u, pre, v) && Next(v, last, w');
      RunsConcat(w, xs, u, pre, v);
      RunsNext(w, xs + pre, v, last, w');
      assert xs + ys == (xs + pre) + [last];
    }
  }
}
