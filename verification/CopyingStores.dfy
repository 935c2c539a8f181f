/** The operations of the deep-copying store, of the view cache and of its informers on the heap, with the
    order in which the program copies and shares objects. Each is a run of elementary steps; along every run of
    operations no stored object is aliased. */
module CopyingStores {
  import opened JsonTrees
  import opened ViewCaches
  import opened Heaps
  import opened Aliasing

  // ---- The steps of each operation ----

  /** The slots of an area, each once, in some order. */
  ghost predicate ListsSlots(w: World, area: Area, slots: seq<Slot>) {
    && (forall i, j :: 0 <= i < j < |slots| ==> slots[i] != slots[j])
    && forall s :: s in slots <==> s in w.stored && s.area == area
  }

  /** `n` copies of one object are handed out. */
  ghost predicate Copies(actions: seq<Action>, obj: Ref, n: nat) {
    |actions| == n && forall a :: a in actions ==> a.HandOut? && a.obj == obj
  }

  datatype Operation =
    | StoreAdd(slot: Slot, obj: Ref)
    | StoreDelete(slot: Slot)
    | StoreGet(slot: Slot)
    | StoreList(area: Area)
    | CacheAdd(slot: Slot, obj: Ref, handlers: set<HandlerId>)
    | CacheUpdate(slot: Slot, oldObj: Ref, newObj: Ref, handlers: set<HandlerId>)
    | CacheDelete(slot: Slot, obj: Ref, handlers: set<HandlerId>)
    | CacheGet(slot: Slot, target: Ref)
    | CacheList(area: Area)
    | ReplayTo(area: Area, handlers: set<HandlerId>)
    | CallerStep(action: Action)

  function Concat(parts: seq<seq<Action>>): seq<Action> {
    if parts == [] then [] else Concat(parts[..|parts| - 1]) + parts[|parts| - 1]
  }

  /** The elementary steps of an operation. An added or updated object is copied once, and the stored copy is
      what every handler's copy is made from; an update passes the old object on as it is; a delete makes the
      handlers' copies from the caller's object; a listing of the cache copies every copy once more. */
  ghost predicate StepsOf(w: World, op: Operation, actions: seq<Action>) {
    match op
    case StoreAdd(s, r) => |actions| == 1 && actions[0].CopyIn? && actions[0].slot == s && actions[0].obj == r
    case StoreDelete(s) => actions == [Clear(s)]
    case StoreGet(s) => if s in w.stored then Copies(actions, w.stored[s], 1) else actions == []
    case StoreList(g) =>
      exists slots :: ListsSlots(w, g, slots) && |actions| == |slots|
        && forall i :: 0 <= i < |slots| ==> actions[i].HandOut? && actions[i].obj == w.stored[slots[i]]
    case CacheAdd(s, r, hs) =>
      && |actions| > 0 && actions[0].CopyIn? && actions[0].slot == s && actions[0].obj == r
      && Copies(actions[1..], actions[0].copy, |hs|)
    case CacheUpdate(s, old', r, hs) =>
      actions == [] || exists parts :: UpdateSteps(s, old', r, hs, actions, parts)
    case CacheDelete(s, r, hs) => |actions| > 0 && actions[0] == Clear(s) && Copies(actions[1..], r, |hs|)
    case CacheGet(s, target) =>
      if s !in w.stored then actions == []
      else
        && |actions| == 2 && Copies(actions[..1], w.stored[s], 1)
        && actions[1].CallerWrite? && actions[1].at == target
    case CacheList(g) => exists slots, parts :: ListSteps(w, g, actions, slots, parts)
    case ReplayTo(g, hs) => exists slots, parts :: ReplaySteps(w, g, hs, actions, slots, parts)
    case CallerStep(a) => actions == [a] && (a.CallerWrite? || a.CallerNew? || a.CallerDrop? || a.PassOn?)
  }

  ghost predicate UpdateSteps(slot: Slot, old': Ref, r: Ref, hs: set<HandlerId>, actions: seq<Action>,
                              parts: seq<seq<Action>>) {
    && |actions| > 0 && actions[0].CopyIn? && actions[0].slot == slot && actions[0].obj == r
    && actions[1..] == Concat(parts) && |parts| == |hs|
    && forall p :: p in parts ==> UpdatePart(old', actions[0].copy, p)
  }

  /** What one handler is given for an update. */
  ghost predicate UpdatePart(old': Ref, stored: Ref, p: seq<Action>) {
    |p| == 2 && p[0] == PassOn(old') && p[1].HandOut? && p[1].obj == stored
  }

  ghost predicate ListSteps(w: World, area: Area, actions: seq<Action>, slots: seq<Slot>, parts: seq<seq<Action>>) {
    && ListsSlots(w, area, slots) && actions == Concat(parts) && |parts| == |slots|
    && forall i :: 0 <= i < |slots| ==> TwoCopies(w.stored[slots[i]], parts[i])
  }

  /** A copy of an object, and a copy of the copy. */
  ghost predicate TwoCopies(r: Ref, p: seq<Action>) {
    |p| == 2 && p[0].HandOut? && p[0].obj == r && p[1].HandOut? && p[1].obj == p[0].copy
  }

  ghost predicate ReplaySteps(w: World, area: Area, hs: set<HandlerId>, actions: seq<Action>, slots: seq<Slot>,
                              parts: seq<seq<Action>>) {
    && ListsSlots(w, area, slots) && actions == Concat(parts) && |parts| == |slots|
    && forall i :: 0 <= i < |slots| ==> Copies(parts[i], w.stored[slots[i]], |hs|)
  }

  ghost predicate Performs(w: World, op: Operation, w': World) {
    exists actions :: StepsOf(w, op, actions) && Runs(w, actions, w')
  }

  /** Along every run of store and cache operations, event delivery and arbitrary caller behaviour, no node is
      ever reachable both from a stored object and from an object a caller holds. */
  lemma {:induction false} StoredNeverAliased(worlds: seq<World>, ops: seq<Operation>)
    requires |worlds| == |ops| + 1 && worlds[0] == World(Heap(map[], 0), map[], {})
    requires forall i :: 0 <= i < |ops| ==> Performs(worlds[i], ops[i], worlds[i + 1])
    ensures Sound(worlds[|ops|]) && Unaliased(worlds[|ops|])
  {
    hide StepsOf, Runs, Sound, Unaliased;
    if ops == [] {
      EmptyIsSound();
    } else {
      var n := |ops| - 1;
      StoredNeverAliased(worlds[..n + 1], ops[..n]);
      assert Performs(worlds[n], ops[n], worlds[n + 1]);
      var actions :| StepsOf(worlds[n], ops[n], actions) && Runs(worlds[n], actions, worlds[n + 1]);
      RunKeepsSound(worlds[n], actions, worlds[n + 1]);
    }
    SoundIsUnaliased(worlds[|ops|]);
  }

  // ---- Copies ----

  /** An object that can be copied: a stored one, or a caller's finite tree. */
  ghost predicate Copyable(w: World, r: Ref) {
    r in w.stored.Values || (r in w.held && Tree(w.heap, r))
  }

  lemma CopyableIsTree(w: World, r: Ref)
    requires Sound(w) && Copyable(w, r)
    ensures Tree(w.heap, r) && WfHeap(w.heap)
  {
    if r in w.stored.Values {
      var s :| s in w.stored && w.stored[s] == r;
    }
  }

  /** Old objects are as they were, and callers have lost nothing. */
  ghost predicate Extends(w: World, w': World) {
    && w'.stored == w.stored && w.held <= w'.held
    && forall r, j :: Denotes(w.heap, r, j) ==> Denotes(w'.heap, r, j)
  }

  lemma ExtendsKeepsCopyable(w: World, w': World, r: Ref)
    requires Extends(w, w') && Copyable(w, r)
    ensures Copyable(w', r)
  {
    hide Denotes;
  }

  /** `object.DeepCopy` of an object for a caller. */
  method CopyFor(w: World, r: Ref) returns (w': World, c: Ref)
    requires Sound(w) && Copyable(w, r)
    ensures Next(w, HandOut(r, c), w') && Sound(w') && Extends(w, w')
    ensures c in w'.held && CopiedTo(w.heap, r, w'.heap, c)
    ensures forall j :: Denotes(w.heap, r, j) ==> Denotes(w'.heap, c, j)
  {
    hide Sound;
    CopyableIsTree(w, r);
    ghost var j :| Denotes(w.heap, r, j);
    var h, x := DeepCopy(w.heap, r, j);
    c := x;
    w' := World(h, w.stored, w.held + {c});
    assert CopiedTo(w.heap, r, h, c);
    StepKeepsSound(w, HandOut(r, c), w');
    CopyExtends(w.heap, r, j, h, c);
  }

  lemma CopyExtends(h: Heap, r: Ref, j: Json, h': Heap, c: Ref)
    requires Denotes(h, r, j) && IsCopy(h, j, h', c)
    ensures forall x, i :: Denotes(h, x, i) ==> Denotes(h', x, i)
    ensures forall i :: Denotes(h, r, i) ==> Denotes(h', c, i)
  {
    forall x, i | Denotes(h, x, i) ensures Denotes(h', x, i) { DenotesExtended(h, h', x, i); }
    forall i | Denotes(h, r, i) ensures Denotes(h', c, i) { DenotesOnce(h, r, i, j); }
  }

  /** A tree spells one value. */
  lemma {:induction false} DenotesOnce(h: Heap, r: Ref, i: Json, j: Json)
    requires Denotes(h, r, i) && Denotes(h, r, j)
    ensures i == j
    decreases i
  {
    match i
    case List(items) =>
      forall k | 0 <= k < |items| ensures items[k] == j.items[k] {
        DenotesOnce(h, h.nodes[r].refs[k], items[k], j.items[k]);
      }
    case Obj(fields) =>
      forall k | k in fields ensures fields[k] == j.fields[k] {
        DenotesOnce(h, h.nodes[r].fields[k], fields[k], j.fields[k]);
      }
    case _ =>
  }

  // ---- The store ----

  /** `Store.Add` and `Store.Update`. */
  method AddToStore(w: World, slot: Slot, obj: Ref) returns (w': World, c: Ref)
    requires Sound(w) && obj in w.held && Tree(w.heap, obj)
    ensures Next(w, CopyIn(slot, obj, c), w') && Performs(w, StoreAdd(slot, obj), w') && Sound(w')
    ensures w'.stored == w.stored[slot := c] && w'.held == w.held
    ensures forall j :: Denotes(w.heap, obj, j) ==> Denotes(w'.heap, c, j)
    ensures forall r, j :: Denotes(w.heap, r, j) ==> Denotes(w'.heap, r, j)
  {
    hide Sound, Tree;
    CopyableIsTree(w, obj);
    ghost var j := SomeValue(w.heap, obj);
    var h, x := DeepCopy(w.heap, obj, j);
    c := x;
    w' := World(h, w.stored[slot := c], w.held);
    assert CopiedTo(w.heap, obj, h, c);
    StepKeepsSound(w, CopyIn(slot, obj, c), w');
    CopyExtends(w.heap, obj, j, h, c);
    RunsOne(w, CopyIn(slot, obj, c), w');
    assert StepsOf(w, StoreAdd(slot, obj), [CopyIn(slot, obj, c)]);
  }

  ghost function SomeValue(h: Heap, r: Ref): (j: Json)
    requires Tree(h, r)
    ensures Denotes(h, r, j)
  {
    var j :| Denotes(h, r, j);
    j
  }

  lemma RunsOne(w: World, a: Action, w': World)
    requires Next(w, a, w')
    ensures Runs(w, [a], w')
  {
    assert Runs(w, [], w);
    RunsNext(w, [], w, a, w');
    assert [] + [a] == [a];
  }

  method DeleteFromStore(w: World, slot: Slot) returns (w': World)
    requires Sound(w)
    ensures Performs(w, StoreDelete(slot), w') && Sound(w')
    ensures w' == w.(stored := w.stored - {slot})
  {
    w' := w.(stored := w.stored - {slot});
    StepKeepsSound(w, Clear(slot), w');
    RunsOne(w, Clear(slot), w');
    assert StepsOf(w, StoreDelete(slot), [Clear(slot)]);
  }

  /** `Store.Get`, `Store.GetByKey`, and `ViewCache.Get`, which copies into the caller's object. */
  method GetFromStore(w: World, slot: Slot) returns (w': World, r: Option<Ref>)
    requires Sound(w)
    ensures Performs(w, StoreGet(slot), w') && Sound(w') && Extends(w, w')
    ensures r.Some? <==> slot in w.stored
    ensures r.Some? ==>
              r.value in w'.held && forall j :: Denotes(w.heap, w.stored[slot], j) ==> Denotes(w'.heap, r.value, j)
  {
    hide Sound, Denotes;
    if slot in w.stored {
      var c;
      w', c := CopyFor(w, w.stored[slot]);
      r := Some(c);
      RunsOne(w, HandOut(w.stored[slot], c), w');
      assert StepsOf(w, StoreGet(slot), [HandOut(w.stored[slot], c)]);
    } else {
      w', r := w, None;
      assert Runs(w, [], w);
      assert StepsOf(w, StoreGet(slot), []);
    }
  }

  method ListSlots(w: World, area: Area) returns (slots: seq<Slot>)
    ensures ListsSlots(w, area, slots)
  {
    slots := [];
    var todo := w.stored.Keys;
    while todo != {}
      invariant todo <= w.stored.Keys
      invariant forall i, j :: 0 <= i < j < |slots| ==> slots[i] != slots[j]
      invariant forall s :: s in slots <==> s in w.stored && s !in todo && s.area == area
    {
      var s :| s in todo;
      if s.area == area { slots := slots + [s]; }
      todo := todo - {s};
    }
  }

  /** `Store.List`: one copy per object. */
  method ListOfStore(w: World, area: Area) returns (w': World, slots: seq<Slot>, objs: seq<Ref>)
    requires Sound(w)
    ensures Performs(w, StoreList(area), w') && Sound(w') && Extends(w, w')
    ensures ListsSlots(w, area, slots) && |objs| == |slots|
    ensures forall i :: 0 <= i < |objs| ==>
              objs[i] in w'.held && forall j :: Denotes(w.heap, w.stored[slots[i]], j) ==> Denotes(w'.heap, objs[i], j)
  {
    hide Sound, Denotes, Runs, Next, Copyable, Extends;
    slots := ListSlots(w, area);
    w', objs := w, [];
    ghost var done: seq<Action> := [];
    NothingDone(w);
    for n := 0 to |slots|
      invariant Sound(w') && Extends(w, w') && Runs(w, done, w') && |objs| == |done| == n
      invariant forall i :: 0 <= i < n ==> done[i] == HandOut(w.stored[slots[i]], objs[i])
      invariant forall i :: 0 <= i < n ==> Given(w, w.stored[slots[i]], w', objs[i])
    {
      var r := w.stored[slots[n]];
      StoredIsCopyable(w, w', slots[n]);
      var u, c := CopyFor(w', r);
      RunsNext(w, done, w', HandOut(r, c), u);
      forall i | 0 <= i < n ensures Given(w, w.stored[slots[i]], u, objs[i]) {
        GivenStays(w, w.stored[slots[i]], w', objs[i], u);
      }
      NowGiven(w, r, w', u, c);
      ExtendsTransitive(w, w', u);
      w', objs, done := u, objs + [c], done + [HandOut(r, c)];
    }
    assert StepsOf(w, StoreList(area), done);
    forall i | 0 <= i < |objs|
      ensures objs[i] in w'.held && forall j :: Denotes(w.heap, w.stored[slots[i]], j) ==> Denotes(w'.heap, objs[i], j)
    {
      assert Given(w, w.stored[slots[i]], w', objs[i]);
    }
  }

  /** A caller holds `c`, which spells what `r` spelled in `w`. */
  ghost predicate Given(w: World, r: Ref, w': World, c: Ref) {
    c in w'.held && forall j :: Denotes(w.heap, r, j) ==> Denotes(w'.heap, c, j)
  }

  lemma GivenStays(w: World, r: Ref, w': World, c: Ref, w'': World)
    requires Given(w, r, w', c) && Extends(w', w'')
    ensures Given(w, r, w'', c)
  {
    hide Denotes;
  }

  lemma NowGiven(w: World, r: Ref, w': World, w'': World, c: Ref)
    requires Extends(w, w') && c in w''.held && forall j :: Denotes(w'.heap, r, j) ==> Denotes(w''.heap, c, j)
    ensures Given(w, r, w'', c)
  {
    hide Denotes;
  }

  lemma ExtendsTransitive(w: World, w': World, w'': World)
    requires Extends(w, w') && Extends(w', w'')
    ensures Extends(w, w'')
  {
    hide Denotes;
  }

  lemma NothingDone(w: World)
    ensures Runs(w, [], w) && Extends(w, w)
  {
  }

  lemma StoredIsCopyable(w: World, w': World, slot: Slot)
    requires Extends(w, w') && slot in w.stored
    ensures Copyable(w', w.stored[slot])
  {
  }

  // ---- Event delivery ----

  /** The loop of `TriggerEvent` for adds and deletes: every handler gets its own copy of `obj`. */
  method TriggerEvent(w: World, handlers: set<HandlerId>, obj: Ref)
    returns (w': World, got: map<HandlerId, Ref>, ghost done: seq<Action>)
    requires Sound(w) && Copyable(w, obj)
    ensures Runs(w, done, w') && Copies(done, obj, |handlers|) && Sound(w') && Extends(w, w')
    ensures got.Keys == handlers && forall h :: h in got ==> Given(w, obj, w', got[h])
  {
    hide Sound, Denotes, Runs, Next, Copyable, Extends, Given;
    w', got, done := w, map[], [];
    NothingDone(w);
    var todo := handlers;
    while todo != {}
      invariant todo <= handlers && got.Keys == handlers - todo && |done| + |todo| == |handlers|
      invariant Sound(w') && Extends(w, w') && Runs(w, done, w')
      invariant forall a :: a in done ==> a.HandOut? && a.obj == obj
      invariant forall h :: h in got ==> Given(w, obj, w', got[h])
    {
      var h :| h in todo;
      ExtendsKeepsCopyable(w, w', obj);
      var u, c := CopyFor(w', obj);
      RunsNext(w, done, w', HandOut(obj, c), u);
      forall g | g in got ensures Given(w, obj, u, got[g]) { GivenStays(w, obj, w', got[g], u); }
      NowGiven(w, obj, w', u, c);
      ExtendsTransitive(w, w', u);
      w', got, done, todo := u, got[h := c], done + [HandOut(obj, c)], todo - {h};
    }
  }

  /** The same for an update: every handler is also given the old object as it is. */
  method TriggerUpdate(w: World, handlers: set<HandlerId>, oldObj: Ref, obj: Ref)
    returns (w': World, got: map<HandlerId, Ref>, ghost parts: seq<seq<Action>>)
    requires Sound(w) && Copyable(w, obj) && oldObj in w.held
    ensures Runs(w, Concat(parts), w') && |parts| == |handlers|
    ensures forall p :: p in parts ==> UpdatePart(oldObj, obj, p)
    ensures Sound(w') && Extends(w, w')
    ensures got.Keys == handlers && forall h :: h in got ==> Given(w, obj, w', got[h])
  {
    hide Sound, Denotes, Runs, Next, Copyable, Extends, Given, UpdatePart;
    w', got, parts := w, map[], [];
    NothingDone(w);
    var todo := handlers;
    while todo != {}
      invariant todo <= handlers && got.Keys == handlers - todo && |parts| + |todo| == |handlers|
      invariant Sound(w') && Extends(w, w') && Runs(w, Concat(parts), w')
      invariant forall p :: p in parts ==> UpdatePart(oldObj, obj, p)
      invariant forall h :: h in got ==> Given(w, obj, w', got[h])
    {
      var h :| h in todo;
      ExtendsKeepsCopyable(w, w', obj);
      var u, c := CopyFor(w', obj);
      ghost var part := [PassOn(oldObj), HandOut(obj, c)];
      assert Runs(w', part, u) by { HeldStays(w, w', oldObj); PassThenCopy(w', oldObj, obj, c, u); }
      ConcatNext(w, parts, w', part, u);
      assert UpdatePart(oldObj, obj, part) by { UpdatePartIs(oldObj, obj, c); }
      forall g | g in got ensures Given(w, obj, u, got[g]) { GivenStays(w, obj, w', got[g], u); }
      NowGiven(w, obj, w', u, c);
      ExtendsTransitive(w, w', u);
      w', got, parts, todo := u, got[h := c], parts + [part], todo - {h};
    }
  }

  lemma UpdatePartIs(old': Ref, obj: Ref, c: Ref)
    ensures UpdatePart(old', obj, [PassOn(old'), HandOut(obj, c)])
  {
  }

  lemma HeldStays(w: World, w': World, r: Ref)
    requires Extends(w, w') && r in w.held
    ensures r in w'.held
  {
  }

  /** Passing on an object a caller holds changes nothing. */
  lemma PassThenCopy(w: World, old': Ref, obj: Ref, c: Ref, w': World)
    requires old' in w.held && Next(w, HandOut(obj, c), w')
    ensures Runs(w, [PassOn(old'), HandOut(obj, c)], w')
  {
    assert Next(w, PassOn(old'), w) by {
      assert Path(w.heap, [old']);
      assert w.held + {old'} == w.held;
    }
    RunsOne(w, PassOn(old'), w);
    RunsNext(w, [PassOn(old')], w, HandOut(obj, c), w');
    assert [PassOn(old')] + [HandOut(obj, c)] == [PassOn(old'), HandOut(obj, c)];
  }

  lemma NoParts()
    ensures Concat([]) == []
  {
  }

  lemma ConcatNext(w: World, parts: seq<seq<Action>>, u: World, part: seq<Action>, w': World)
    requires Runs(w, Concat(parts), u) && Runs(u, part, w')
    ensures Runs(w, Concat(parts + [part]), w')
  {
    hide Runs;
    RunsConcat(w, Concat(parts), u, part, w');
    assert (parts + [part])[..|parts|] == parts;
  }

  // ---- The view cache ----

  /** `ViewCache.Add`: one copy goes into the cache, and the events are made from that very copy. */
  method AddToCache(w: World, slot: Slot, obj: Ref, handlers: set<HandlerId>)
    returns (w': World, got: map<HandlerId, Ref>)
    requires Sound(w) && obj in w.held && Tree(w.heap, obj)
    ensures Performs(w, CacheAdd(slot, obj, handlers), w') && Sound(w')
    ensures w'.stored.Keys == w.stored.Keys + {slot}
    ensures forall s :: s in w.stored && s != slot ==> w'.stored[s] == w.stored[s]
    ensures forall j :: Denotes(w.heap, obj, j) ==> Denotes(w'.heap, w'.stored[slot], j)
    ensures got.Keys == handlers
    ensures forall h, j :: h in got && Denotes(w.heap, obj, j) ==> Denotes(w'.heap, got[h], j)
  {
    hide Sound, Denotes, Tree, Next;
    var u, c := AddToStore(w, slot, obj);
    assert slot in u.stored;
    ghost var done;
    w', got, done := TriggerEvent(u, handlers, c);
    RunsOne(w, CopyIn(slot, obj, c), u);
    hide Runs;
    RunsConcat(w, [CopyIn(slot, obj, c)], u, done, w');
    ghost var all := [CopyIn(slot, obj, c)] + done;
    assert all[1..] == done;
    assert StepsOf(w, CacheAdd(slot, obj, handlers), all);
    forall h, j | h in got && Denotes(w.heap, obj, j) ensures Denotes(w'.heap, got[h], j) {
      assert Given(u, c, w', got[h]);
    }
  }

  /** `ViewCache.Update`: `same` is the outcome of comparing the two objects; equal updates are suppressed. */
  method UpdateCache(w: World, slot: Slot, oldObj: Ref, newObj: Ref, same: bool, handlers: set<HandlerId>)
    returns (w': World, got: map<HandlerId, Ref>)
    requires Sound(w) && oldObj in w.held && newObj in w.held && Tree(w.heap, newObj)
    requires same <==> forall j :: Denotes(w.heap, oldObj, j) <==> Denotes(w.heap, newObj, j)
    ensures Performs(w, CacheUpdate(slot, oldObj, newObj, handlers), w') && Sound(w')
    ensures same ==> w' == w
    ensures !same ==>
              && w'.stored.Keys == w.stored.Keys + {slot}
              && (forall s :: s in w.stored && s != slot ==> w'.stored[s] == w.stored[s])
              && (forall j :: Denotes(w.heap, newObj, j) ==> Denotes(w'.heap, w'.stored[slot], j))
              && got.Keys == handlers
              && forall h, j :: h in got && Denotes(w.heap, newObj, j) ==> Denotes(w'.heap, got[h], j)
  {
    hide Sound, Denotes, Tree, Next;
    if same {
      w', got := w, map[];
      assert StepsOf(w, CacheUpdate(slot, oldObj, newObj, handlers), []) && Runs(w, [], w);
      return;
    }
    var u, c := AddToStore(w, slot, newObj);
    assert slot in u.stored;
    ghost var parts;
    w', got, parts := TriggerUpdate(u, handlers, oldObj, c);
    RunsOne(w, CopyIn(slot, newObj, c), u);
    hide Runs, UpdatePart;
    RunsConcat(w, [CopyIn(slot, newObj, c)], u, Concat(parts), w');
    ghost var all := [CopyIn(slot, newObj, c)] + Concat(parts);
    assert all[1..] == Concat(parts);
    assert UpdateSteps(slot, oldObj, newObj, handlers, all, parts);
    assert StepsOf(w, CacheUpdate(slot, oldObj, newObj, handlers), all);
    forall h, j | h in got && Denotes(w.heap, newObj, j) ensures Denotes(w'.heap, got[h], j) {
      assert Given(u, c, w', got[h]);
    }
  }

  /** `ViewCache.Delete`: the events are made from the caller's object. */
  method DeleteFromCache(w: World, slot: Slot, obj: Ref, handlers: set<HandlerId>)
    returns (w': World, got: map<HandlerId, Ref>)
    requires Sound(w) && obj in w.held && Tree(w.heap, obj)
    ensures Performs(w, CacheDelete(slot, obj, handlers), w') && Sound(w')
    ensures w'.stored == w.stored - {slot}
    ensures got.Keys == handlers
    ensures forall h, j :: h in got && Denotes(w.heap, obj, j) ==> Denotes(w'.heap, got[h], j)
  {
    hide Sound, Denotes, Tree;
    var u := DeleteFromStore(w, slot);
    assert Next(w, Clear(slot), u);
    hide Next;
    ghost var done;
    w', got, done := TriggerEvent(u, handlers, obj);
    RunsOne(w, Clear(slot), u);
    hide Runs;
    RunsConcat(w, [Clear(slot)], u, done, w');
    ghost var all := [Clear(slot)] + done;
    assert all[1..] == done;
    assert StepsOf(w, CacheDelete(slot, obj, handlers), all);
    forall h, j | h in got && Denotes(w.heap, obj, j) ensures Denotes(w'.heap, got[h], j) {
      assert Given(u, obj, w', got[h]);
    }
  }

  /** `ViewCache.Get`: the content of the caller's object is replaced by that of a copy. */
  method GetFromCache(w: World, slot: Slot, target: Ref) returns (w': World, found: bool)
    requires Sound(w) && target in w.held
    ensures Performs(w, CacheGet(slot, target), w') && Sound(w') && w'.stored == w.stored
    ensures found == (slot in w.stored)
    ensures found ==> forall j :: Denotes(w.heap, w.stored[slot], j) ==> Denotes(w'.heap, target, j)
  {
    hide Sound, Denotes, Tree;
    found := slot in w.stored;
    if !found {
      w' := w;
      assert StepsOf(w, CacheGet(slot, target), []) && Runs(w, [], w);
      return;
    }
    var r := w.stored[slot];
    var u, c := CopyFor(w, r);
    var n := u.heap.nodes[c];
    w' := u.(heap := u.heap.(nodes := u.heap.nodes[target := n]));
    OwnChildren(u, c);
    HeldIsReached(u, target);
    assert Next(u, CallerWrite(target, n), w');
    StepKeepsSound(u, CallerWrite(target, n), w');
    assert target in w.heap.nodes by { HeldIsNode(w, target); }
    forall j | Denotes(w.heap, r, j) ensures Denotes(w'.heap, target, j) {
      CopiedInto(w.heap, r, j, u.heap, c, target);
    }
    RunsOne(w, HandOut(r, c), u);
    hide Next, Runs;
    RunsNext(w, [HandOut(r, c)], u, CallerWrite(target, n), w');
    ghost var all := [HandOut(r, c)] + [CallerWrite(target, n)];
    assert all[..1] == [HandOut(r, c)];
    assert StepsOf(w, CacheGet(slot, target), all);
  }

  lemma OwnChildren(w: World, c: Ref)
    requires c in w.held && c in w.heap.nodes
    ensures OwnNode(w, w.heap.nodes[c])
  {
    forall y | y in Children(w.heap.nodes[c]) ensures Reaches(w.heap, w.held, y) {
      var p := [c, y];
      assert Edge(w.heap, p[0], p[1]);
      assert Path(w.heap, p);
    }
  }

  lemma HeldIsReached(w: World, r: Ref)
    requires r in w.held
    ensures Reaches(w.heap, w.held, r)
  {
    assert Path(w.heap, [r]);
  }

  lemma HeldIsNode(w: World, r: Ref)
    requires Sound(w) && r in w.held
    ensures r in w.heap.nodes
  {
  }

  /** Replacing the content of an old object by that of a copy makes it spell the copied value. */
  lemma CopiedInto(h: Heap, r: Ref, j: Json, h': Heap, c: Ref, target: Ref)
    requires Denotes(h, r, j) && CopiedTo(h, r, h', c) && target in h.nodes
    ensures Denotes(h'.(nodes := h'.nodes[target := h'.nodes[c]]), target, j)
  {
    var h2 := h'.(nodes := h'.nodes[target := h'.nodes[c]]);
    var i :| Denotes(h, r, i) && IsCopy(h, i, h', c);
    DenotesOnce(h, r, i, j);
    var fresh' := h'.nodes.Keys - h.nodes.Keys;
    DenotesInRegion(h', h2, fresh', c, j);
    assert Denotes(h2, c, j);
    SameNodeSameValue(h2, c, target, j);
  }

  lemma SameNodeSameValue(h: Heap, r: Ref, r': Ref, j: Json)
    requires Denotes(h, r, j) && r' in h.nodes && h.nodes[r'] == h.nodes[r]
    ensures Denotes(h, r', j)
  {
  }

  /** `ViewCache.List`: every item is copied, and appending it to the list copies the copy. */
  method ListOfCache(w: World, area: Area) returns (w': World, slots: seq<Slot>, objs: seq<Ref>)
    requires Sound(w)
    ensures Performs(w, CacheList(area), w') && Sound(w') && Extends(w, w')
    ensures ListsSlots(w, area, slots) && |objs| == |slots|
    ensures forall i :: 0 <= i < |objs| ==> Given(w, w.stored[slots[i]], w', objs[i])
  {
    hide Sound, Denotes, Runs, Next, Copyable, Extends, Given, TwoCopies, Concat;
    slots := ListSlots(w, area);
    w', objs := w, [];
    ghost var parts: seq<seq<Action>> := [];
    NothingDone(w);
    assert Concat([]) == [] by { NoParts(); }
    for n := 0 to |slots|
      invariant Sound(w') && Extends(w, w') && Runs(w, Concat(parts), w') && |objs| == |parts| == n
      invariant forall i :: 0 <= i < n ==> TwoCopies(w.stored[slots[i]], parts[i])
      invariant forall i :: 0 <= i < n ==> Given(w, w.stored[slots[i]], w', objs[i])
    {
      var r := w.stored[slots[n]];
      StoredIsCopyable(w, w', slots[n]);
      var u, c, part := CopyTwice(w', r);
      ConcatNext(w, parts, w', part, u);
      forall i | 0 <= i < n ensures Given(w, w.stored[slots[i]], u, objs[i]) {
        GivenStays(w, w.stored[slots[i]], w', objs[i], u);
      }
      assert Given(w, r, u, c) by { NowGivenFrom(w, r, w', u, c); }
      ExtendsTransitive(w, w', u);
      w', objs, parts := u, objs + [c], parts + [part];
    }
    assert ListSteps(w, area, Concat(parts), slots, parts);
    assert StepsOf(w, CacheList(area), Concat(parts));
  }

  method CopyTwice(w: World, r: Ref) returns (w': World, c: Ref, ghost part: seq<Action>)
    requires Sound(w) && Copyable(w, r)
    ensures Runs(w, part, w') && TwoCopies(r, part) && Sound(w') && Extends(w, w') && Given(w, r, w', c)
  {
    hide Sound, Denotes, Next;
    var u, b := CopyFor(w, r);
    assert Tree(u.heap, b) by { CopyableIsTree(w, r); }
    w', c := CopyFor(u, b);
    part := [HandOut(r, b), HandOut(b, c)];
    RunsOne(w, HandOut(r, b), u);
    hide Runs;
    RunsNext(w, [HandOut(r, b)], u, HandOut(b, c), w');
    assert [HandOut(r, b)] + [HandOut(b, c)] == part;
  }

  lemma NowGivenFrom(w: World, r: Ref, w': World, w'': World, c: Ref)
    requires Extends(w, w') && Given(w', r, w'', c)
    ensures Given(w, r, w'', c)
  {
    hide Denotes;
  }

  /** `AddEventHandler`: the stored items themselves are passed to `TriggerEvent`, which copies them for every
      handler. */
  method ReplayCache(w: World, area: Area, handlers: set<HandlerId>)
    returns (w': World, slots: seq<Slot>, got: seq<map<HandlerId, Ref>>)
    requires Sound(w)
    ensures Performs(w, ReplayTo(area, handlers), w') && Sound(w') && Extends(w, w')
    ensures ListsSlots(w, area, slots) && |got| == |slots|
    ensures forall i, h :: 0 <= i < |got| && h in handlers ==>
              h in got[i] && Given(w, w.stored[slots[i]], w', got[i][h])
  {
    hide Sound, Denotes, Runs, Next, Copyable, Extends, Given, Copies, Concat;
    slots := ListSlots(w, area);
    w', got := w, [];
    ghost var parts: seq<seq<Action>> := [];
    NothingDone(w);
    assert Concat([]) == [] by { NoParts(); }
    for n := 0 to |slots|
      invariant Sound(w') && Extends(w, w') && Runs(w, Concat(parts), w') && |got| == |parts| == n
      invariant forall i :: 0 <= i < n ==> Copies(parts[i], w.stored[slots[i]], |handlers|)
      invariant forall i, h :: 0 <= i < n && h in handlers ==>
                  h in got[i] && Given(w, w.stored[slots[i]], w', got[i][h])
    {
      var r := w.stored[slots[n]];
      StoredIsCopyable(w, w', slots[n]);
      var u, copies, part := TriggerEvent(w', handlers, r);
      ConcatNext(w, parts, w', part, u);
      forall i, h | 0 <= i < n && h in handlers ensures Given(w, w.stored[slots[i]], u, got[i][h]) {
        GivenStays(w, w.stored[slots[i]], w', got[i][h], u);
      }
      forall h | h in handlers ensures Given(w, r, u, copies[h]) { NowGivenFrom(w, r, w', u, copies[h]); }
      ExtendsTransitive(w, w', u);
      w', got, parts := u, got + [copies], parts + [part];
    }
    assert ReplaySteps(w, area, handlers, Concat(parts), slots, parts);
    assert StepsOf(w, ReplayTo(area, handlers), Concat(parts));
  }
}
