/** The view cache with its informers: a keyed store per kind, replicated to event handlers. A handler is
    represented by the log of the events it has been given. */
module ViewCaches {
  import opened JsonTrees
  import opened Objects
  import opened Deltas

  datatype Event =
    | OnAdd(obj: Object)
    | OnUpdate(oldObj: Object, newObj: Object)
    | OnDelete(obj: Object)

  datatype HandlerId = HandlerId(n: int)

  datatype Informer = Informer(handlers: map<HandlerId, seq<Event>>, counter: int)

  datatype CacheState = CacheState(caches: map<GVK, Keyed>, informers: map<GVK, Informer>)

  // ---- What a handler knows ----

  function Observe(e: Event, v: Keyed): Keyed {
    match e
    case OnAdd(o) => v[KeyOf(o) := o]
    case OnUpdate(_, o) => v[KeyOf(o) := o]
    case OnDelete(o) => v - {KeyOf(o)}
  }

  function Fold(log: seq<Event>): Keyed {
    if log == [] then map[] else Observe(log[|log| - 1], Fold(log[..|log| - 1]))
  }

  function FoldFrom(v: Keyed, log: seq<Event>): Keyed {
    if log == [] then v else Observe(log[|log| - 1], FoldFrom(v, log[..|log| - 1]))
  }

  lemma {:induction false} FoldConcat(log: seq<Event>, more: seq<Event>)
    ensures Fold(log + more) == FoldFrom(Fold(log), more)
  {
    if more == [] {
      assert log + more == log;
    } else {
      FoldConcat(log, more[..|more| - 1]);
      assert (log + more)[..|log + more| - 1] == log + more[..|more| - 1];
    }
  }

  // ---- Operations on cache states ----

  const NEW_INFORMER := Informer(map[], 0)

  function CacheOf(s: CacheState, gvk: GVK): Keyed {
    if gvk in s.caches then s.caches[gvk] else map[]
  }

  function InformerOf(s: CacheState, gvk: GVK): Informer {
    if gvk in s.informers then s.informers[gvk] else NEW_INFORMER
  }

  /** Every registered handler is given the same events. */
  function Notify(inf: Informer, es: seq<Event>): Informer {
    inf.(handlers := map h | h in inf.handlers :: inf.handlers[h] + es)
  }

  function Register(inf: Informer): Informer {
    Informer(inf.handlers[HandlerId(inf.counter + 1) := []], inf.counter + 1)
  }

  function Unregister(inf: Informer, id: HandlerId): Informer {
    inf.(handlers := inf.handlers - {id})
  }

  function AddsFor(objs: seq<Object>): seq<Event> {
    if objs == [] then [] else AddsFor(objs[..|objs| - 1]) + [OnAdd(objs[|objs| - 1])]
  }

  datatype CacheOp =
    | AddObject(obj: Object)
    | UpdateObject(oldObj: Object, newObj: Object)
    | DeleteObject(obj: Object)
    | AddHandler(gvk: GVK, listed: seq<Object>)
    | RemoveHandler(gvk: GVK, id: HandlerId)

  /** `objs` lists the objects of a kind, one for each key, in some order. */
  ghost predicate Lists(v: Keyed, objs: seq<Object>) {
    |objs| == |v| && forall o :: o in objs <==> o in v.Values
  }

  /** A handler registration replays the objects that are in the cache. */
  ghost predicate Enabled(s: CacheState, op: CacheOp) {
    op.AddHandler? ==> Lists(CacheOf(s, op.gvk), op.listed)
  }

  /** New contents for one kind, and an event to its handlers. */
  function Record(s: CacheState, g: GVK, v: Keyed, e: Event): CacheState {
    CacheState(s.caches[g := v], s.informers[g := Notify(InformerOf(s, g), [e])])
  }

  function Step(s: CacheState, op: CacheOp): CacheState {
    match op
    case AddObject(o) =>
      var g := GvkOf(o);
      Record(s, g, CacheOf(s, g)[KeyOf(o) := o], OnAdd(o))
    case UpdateObject(old', o) =>
      if old' == o then s
      else
        var g := GvkOf(o);
        Record(s, g, CacheOf(s, g)[KeyOf(o) := o], OnUpdate(old', o))
    case DeleteObject(o) =>
      var g := GvkOf(o);
      Record(s, g, CacheOf(s, g) - {KeyOf(o)}, OnDelete(o))
    case AddHandler(g, objs) =>
      CacheState(s.caches[g := CacheOf(s, g)], s.informers[g := Notify(Register(InformerOf(s, g)), AddsFor(objs))])
    case RemoveHandler(g, id) =>
      CacheState(s.caches[g := CacheOf(s, g)], s.informers[g := Unregister(InformerOf(s, g), id)])
  }

  function Steps(s: CacheState, ops: seq<CacheOp>): CacheState {
    if ops == [] then s else Step(Steps(s, ops[..|ops| - 1]), ops[|ops| - 1])
  }

  ghost predicate AllEnabled(s: CacheState, ops: seq<CacheOp>) {
    forall i :: 0 <= i < |ops| ==> Enabled(Steps(s, ops[..i]), ops[i])
  }

  // ---- What handlers are told ----

  lemma {:induction false} AddsForAre(objs: seq<Object>)
    ensures |AddsFor(objs)| == |objs| && forall i :: 0 <= i < |objs| ==> AddsFor(objs)[i] == OnAdd(objs[i])
  {
    if objs != [] { AddsForAre(objs[..|objs| - 1]); }
  }

  ghost function LogsOf(s: CacheState, g: GVK): map<HandlerId, seq<Event>> {
    InformerOf(s, g).handlers
  }

  /** The same handlers, each told `es` in addition. */
  ghost predicate Told(before: map<HandlerId, seq<Event>>, after: map<HandlerId, seq<Event>>, es: seq<Event>) {
    after.Keys == before.Keys && forall h :: h in before ==> after[h] == before[h] + es
  }

  /** Every operation tells the handlers of its kind exactly what it did, once, an update with the old object;
      registering adds one handler, which starts with the listed objects, and keeps the others; removing takes
      one away and keeps the others; the handlers of other kinds hear nothing. */
  lemma StepTells(s: CacheState, op: CacheOp, g: GVK)
    ensures var before, after := LogsOf(s, g), LogsOf(Step(s, op), g);
            match op
            case AddObject(o) => if g == GvkOf(o) then Told(before, after, [OnAdd(o)]) else after == before
            case UpdateObject(old', o) =>
              if old' != o && g == GvkOf(o) then Told(before, after, [OnUpdate(old', o)]) else after == before
            case DeleteObject(o) => if g == GvkOf(o) then Told(before, after, [OnDelete(o)]) else after == before
            case AddHandler(k, objs) =>
              if g == k then
                var id := HandlerId(InformerOf(s, g).counter + 1);
                Told(before[id := []], after, AddsFor(objs)) && InformerOf(Step(s, op), g).counter == id.n
              else after == before
            case RemoveHandler(k, id) =>
              if g == k then
                id !in after && after.Keys == before.Keys - {id} && forall h :: h in after ==> after[h] == before[h]
              else after == before
  {
    hide GvkOf, KeyOf, AddsFor;
  }

  /** The id of a new handler is not in use. */
  lemma NewIdIsFree(s: CacheState, g: GVK)
    requires Replicated(s)
    ensures HandlerId(InformerOf(s, g).counter + 1) !in LogsOf(s, g)
  {
    hide Fold, WellKeyed;
    InformerReady(s, g);
  }

  // ---- Replication ----

  /** Caches are keyed, informers watch existing caches, and every handler's log folds to the contents
      of the cache it is registered for. */
  ghost predicate InformerInSync(inf: Informer, v: Keyed) {
    forall h :: h in inf.handlers ==> h.n <= inf.counter && Fold(inf.handlers[h]) == v
  }

  ghost predicate Replicated(s: CacheState) {
    && (forall g :: g in s.caches ==> WellKeyed(s.caches[g]))
    && (forall g :: g in s.informers ==> g in s.caches && InformerInSync(s.informers[g], s.caches[g]))
  }

  lemma NotifyKeepsSync(inf: Informer, v: Keyed, es: seq<Event>)
    requires InformerInSync(inf, v)
    ensures InformerInSync(Notify(inf, es), FoldFrom(v, es))
  {
    forall h | h in inf.handlers ensures Fold(inf.handlers[h] + es) == FoldFrom(v, es) {
      FoldConcat(inf.handlers[h], es);
    }
  }

  lemma FoldOne(v: Keyed, e: Event)
    ensures FoldFrom(v, [e]) == Observe(e, v)
  {
    assert [e][..0] == [];
    assert FoldFrom(v, []) == v;
  }

  /** Replaying objects upserts them: what was there survives unless one of its key is replayed. */
  lemma {:induction false} ReplayLookup(v: Keyed, objs: seq<Object>, k: string)
    ensures Lookup(FoldFrom(v, AddsFor(objs)), k) == Lookup(v, k)
            || exists o :: o in objs && KeyOf(o) == k && Lookup(FoldFrom(v, AddsFor(objs)), k) == Some(o)
    ensures (exists o :: o in objs && KeyOf(o) == k) ==>
              exists o :: o in objs && KeyOf(o) == k && Lookup(FoldFrom(v, AddsFor(objs)), k) == Some(o)
  {
    hide KeyOf;
    if objs != [] {
      var pre, last := objs[..|objs| - 1], objs[|objs| - 1];
      assert objs == pre + [last];
      ReplayLookup(v, pre, k);
      var es := AddsFor(objs);
      assert es[..|es| - 1] == AddsFor(pre) && es[|es| - 1] == OnAdd(last);
      assert FoldFrom(v, es) == FoldFrom(v, AddsFor(pre))[KeyOf(last) := last];
      assert last in objs;
    }
  }

  /** Replaying the contents of a cache to a handler in sync, or to a new one, gives the contents. */
  lemma ReplayGivesContents(v: Keyed, start: Keyed, objs: seq<Object>)
    requires WellKeyed(v) && Lists(v, objs) && (start == v || start == map[])
    ensures FoldFrom(start, AddsFor(objs)) == v
  {
    hide KeyOf;
    var r := FoldFrom(start, AddsFor(objs));
    forall k ensures Lookup(r, k) == Lookup(v, k) {
      ReplayLookup(start, objs, k);
      if k in v {
        assert v[k] in v.Values && v[k] in objs && KeyOf(v[k]) == k;
        var o :| o in objs && KeyOf(o) == k && Lookup(r, k) == Some(o);
        var j :| j in v && v[j] == o;
      } else {
        assert forall o :: o in objs ==> o in v.Values;
      }
    }
    SameLookups(r, v);
  }

  lemma ReplayKeepsSync(inf: Informer, v: Keyed, objs: seq<Object>)
    requires WellKeyed(v) && Lists(v, objs) && InformerInSync(inf, v)
    ensures InformerInSync(Notify(Register(inf), AddsFor(objs)), v)
  {
    hide AddsFor;
    var reg := Register(inf);
    forall h | h in reg.handlers ensures Fold(reg.handlers[h] + AddsFor(objs)) == v && h.n <= reg.counter {
      FoldConcat(reg.handlers[h], AddsFor(objs));
      ReplayGivesContents(v, Fold(reg.handlers[h]), objs);
    }
  }

  lemma RecordKeepsReplicated(s: CacheState, g: GVK, e: Event)
    requires Replicated(s) && WellKeyed(Observe(e, CacheOf(s, g)))
    ensures Replicated(Record(s, g, Observe(e, CacheOf(s, g)), e))
  {
    hide Observe, WellKeyed, InformerInSync, Notify;
    InformerReady(s, g);
    NotifyKeepsSync(InformerOf(s, g), CacheOf(s, g), [e]);
    FoldOne(CacheOf(s, g), e);
  }

  /** Every operation keeps every registered handler in sync with the cache of its kind. */
  lemma StepKeepsReplicated(s: CacheState, op: CacheOp)
    requires Replicated(s) && Enabled(s, op)
    ensures Replicated(Step(s, op))
  {
    hide GvkOf, KeyOf, AddsFor, Lists, InformerInSync, Record, Notify;
    match op
    case AddObject(o) =>
      InformerReady(s, GvkOf(o));
      RecordKeepsReplicated(s, GvkOf(o), OnAdd(o));
    case UpdateObject(old', o) =>
      InformerReady(s, GvkOf(o));
      RecordKeepsReplicated(s, GvkOf(o), OnUpdate(old', o));
    case DeleteObject(o) =>
      InformerReady(s, GvkOf(o));
      RecordKeepsReplicated(s, GvkOf(o), OnDelete(o));
    case AddHandler(g, objs) =>
      InformerReady(s, g);
      ReplayKeepsSync(InformerOf(s, g), CacheOf(s, g), objs);
    case RemoveHandler(g, id) =>
      InformerReady(s, g);
      RemovalKeepsSync(InformerOf(s, g), CacheOf(s, g), id);
  }

  lemma InformerReady(s: CacheState, g: GVK)
    requires Replicated(s)
    ensures InformerInSync(InformerOf(s, g), CacheOf(s, g)) && WellKeyed(CacheOf(s, g))
  {
  }

  lemma RemovalKeepsSync(inf: Informer, v: Keyed, id: HandlerId)
    requires InformerInSync(inf, v)
    ensures InformerInSync(Unregister(inf, id), v)
  {
  }

  /** Along every run of atomic operations from an empty cache, the map each registered handler obtains by
      folding its events equals the contents of the cache for that kind. */
  lemma {:induction false} HandlersReplicateCache(ops: seq<CacheOp>)
    requires AllEnabled(CacheState(map[], map[]), ops)
    ensures Replicated(Steps(CacheState(map[], map[]), ops))
  {
    hide Step, Replicated, Enabled;
    var s0 := CacheState(map[], map[]);
    if ops == [] {
      EmptyIsReplicated();
    } else {
      var n := |ops| - 1;
      forall i | 0 <= i < n ensures Enabled(Steps(s0, ops[..n][..i]), ops[..n][i]) {
        assert ops[..n][..i] == ops[..i];
      }
      HandlersReplicateCache(ops[..n]);
      StepKeepsReplicated(Steps(s0, ops[..n]), ops[n]);
    }
  }

  lemma EmptyIsReplicated()
    ensures Replicated(CacheState(map[], map[]))
  {
  }

  // ---- The class ----

  class ViewCache {
    var caches: map<GVK, Keyed>
    var informers: map<GVK, Informer>

    constructor ()
      ensures State() == CacheState(map[], map[]) && Replicated(State())
    {
      caches, informers := map[], map[];
    }

    ghost function State(): CacheState
      reads this
    {
      CacheState(caches, informers)
    }

    method GetCacheForKind(gvk: GVK) returns (v: Keyed)
      modifies this`caches
      ensures caches == old(caches)[gvk := CacheOf(old(State()), gvk)] && v == caches[gvk]
    {
      if gvk !in caches {
        caches := caches[gvk := map[]];
      }
      v := caches[gvk];
    }

    method GetInformerForKind(gvk: GVK) returns (inf: Informer)
      modifies this
      ensures caches == old(caches)[gvk := CacheOf(old(State()), gvk)]
      ensures informers == old(informers)[gvk := InformerOf(old(State()), gvk)] && inf == informers[gvk]
    {
      var v := GetCacheForKind(gvk);
      if gvk !in informers {
        informers := informers[gvk := NEW_INFORMER];
      }
      inf := informers[gvk];
    }

    /** The tail of every write: find or create the informer and trigger the event. */
    method NotifyHandlers(gvk: GVK, e: Event)
      requires gvk in caches
      modifies this
      ensures State() == Record(old(State()), gvk, old(caches)[gvk], e)
    {
      hide Notify;
      var inf := GetInformerForKind(gvk);
      TriggerEvent(gvk, e);
    }

    method Add(obj: Object)
      modifies this
      ensures State() == Step(old(State()), AddObject(obj))
      ensures old(Replicated(State())) ==> Replicated(State())
    {
      hide KeyOf, GvkOf, Replicated, Notify;
      var gvk := GvkOf(obj);
      var v := GetCacheForKind(gvk);
      caches := caches[gvk := v[KeyOf(obj) := obj]];
      NotifyHandlers(gvk, OnAdd(obj));
      if old(Replicated(State())) { StepKeepsReplicated(old(State()), AddObject(obj)); }
    }

    method Update(oldObj: Object, newObj: Object)
      modifies this
      ensures State() == Step(old(State()), UpdateObject(oldObj, newObj))
      ensures old(Replicated(State())) ==> Replicated(State())
    {
      hide KeyOf, GvkOf, Replicated, Notify;
      if oldObj != newObj {
        var gvk := GvkOf(newObj);
        var v := GetCacheForKind(gvk);
        caches := caches[gvk := v[KeyOf(newObj) := newObj]];
        NotifyHandlers(gvk, OnUpdate(oldObj, newObj));
      }
      if old(Replicated(State())) { StepKeepsReplicated(old(State()), UpdateObject(oldObj, newObj)); }
    }

    method Delete(obj: Object)
      modifies this
      ensures State() == Step(old(State()), DeleteObject(obj))
      ensures old(Replicated(State())) ==> Replicated(State())
    {
      hide KeyOf, GvkOf, Replicated, Notify;
      var gvk := GvkOf(obj);
      var v := GetCacheForKind(gvk);
      caches := caches[gvk := v - {KeyOf(obj)}];
      NotifyHandlers(gvk, OnDelete(obj));
      if old(Replicated(State())) { StepKeepsReplicated(old(State()), DeleteObject(obj)); }
    }

    /** Looks up `namespace/name`, also when the namespace is empty. */
    method Get(gvk: GVK, namespace: string, name: string) returns (r: Result<Object>)
      modifies this`caches
      ensures caches == old(caches)[gvk := CacheOf(old(State()), gvk)]
      ensures r == LookupNamed(old(State()), gvk, namespace, name)
    {
      var v := GetCacheForKind(gvk);
      var key := namespace + "/" + name;
      if key !in v { return Err(NotFound); }
      return Ok(v[key]);
    }

    method List(gvk: GVK) returns (objs: seq<Object>)
      modifies this`caches
      ensures caches == old(caches)[gvk := CacheOf(old(State()), gvk)]
      ensures Lists(CacheOf(old(State()), gvk), objs)
    {
      var v := GetCacheForKind(gvk);
      objs := [];
      var todo := v.Keys;
      while todo != {}
        invariant todo <= v.Keys && |objs| + |todo| == |v|
        invariant caches == old(caches)[gvk := CacheOf(old(State()), gvk)]
        invariant forall o :: o in objs <==> exists k :: k in v && k !in todo && v[k] == o
      {
        var k :| k in todo;
        objs := objs + [v[k]];
        todo := todo - {k};
      }
    }

    /** A new handler is registered, and the initial list is sent to all handlers. */
    method AddEventHandler(gvk: GVK) returns (id: HandlerId, ghost listed: seq<Object>)
      modifies this
      ensures Enabled(old(State()), AddHandler(gvk, listed))
      ensures State() == Step(old(State()), AddHandler(gvk, listed))
      ensures gvk in informers && id in informers[gvk].handlers
      ensures old(Replicated(State())) ==>
                Replicated(State()) && Fold(informers[gvk].handlers[id]) == CacheOf(State(), gvk)
    {
      hide Replicated, Lists, AddsFor, Fold, Notify, InformerInSync, WellKeyed;
      var inf := GetInformerForKind(gvk);
      id := HandlerId(inf.counter + 1);
      inf := Informer(inf.handlers[id := []], inf.counter + 1);
      informers := informers[gvk := inf];
      var objs := List(gvk);
      listed := objs;
      ghost var reg := Register(InformerOf(old(State()), gvk));
      NoEvents(reg);
      for i := 0 to |objs|
        invariant caches == old(caches)[gvk := CacheOf(old(State()), gvk)]
        invariant informers == old(informers)[gvk := Notify(reg, AddsFor(objs[..i]))]
      {
        AddsForNext(objs, i);
        TriggerEvent(gvk, OnAdd(objs[i]));
        NotifyTwice(reg, AddsFor(objs[..i]), [OnAdd(objs[i])]);
      }
      assert objs[..|objs|] == objs;
      RegisteredStays(InformerOf(old(State()), gvk), AddsFor(objs));
      if old(Replicated(State())) {
        StepKeepsReplicated(old(State()), AddHandler(gvk, listed));
        InformerReady(State(), gvk);
        HandlerInSync(informers[gvk], CacheOf(State(), gvk), id);
      }
    }

    /** `registration` is `None` for a registration that no informer of this cache has made. */
    method RemoveEventHandler(gvk: GVK, registration: Option<HandlerId>) returns (r: Result<()>)
      requires gvk in informers
      modifies this
      ensures r == if registration.Some? then Ok(()) else Err(UnknownRegistration)
      ensures registration.None? ==> State() == old(State())
      ensures registration.Some? && gvk in caches ==>
                State() == Step(old(State()), RemoveHandler(gvk, registration.value))
      ensures old(Replicated(State())) ==> Replicated(State())
    {
      hide Replicated;
      if registration.None? { return Err(UnknownRegistration); }
      var id, inf := registration.value, informers[gvk];
      informers := informers[gvk := Unregister(inf, id)];
      RemovalStep(old(State()), gvk, id);
      return Ok(());
    }

    /** Sends an event to the registered handlers, in map order. */
    method TriggerEvent(gvk: GVK, e: Event)
      requires gvk in informers
      modifies this`informers
      ensures informers == old(informers)[gvk := Notify(old(informers)[gvk], [e])]
    {
      var inf := Deliver(informers[gvk], e);
      informers := informers[gvk := inf];
    }
  }

  /** Removing a handler from an existing informer. */
  lemma RemovalStep(s: CacheState, gvk: GVK, id: HandlerId)
    requires gvk in s.informers
    ensures var s' := s.(informers := s.informers[gvk := Unregister(s.informers[gvk], id)]);
            && (gvk in s.caches ==> s' == Step(s, RemoveHandler(gvk, id)))
            && (Replicated(s) ==> Replicated(s'))
  {
    if gvk in s.caches { assert s.caches[gvk := s.caches[gvk]] == s.caches; }
    if Replicated(s) {
      assert gvk in s.caches;
      hide Replicated;
      StepKeepsReplicated(s, RemoveHandler(gvk, id));
    }
  }

  /** The loop of `TriggerEvent`. */
  method Deliver(inf: Informer, e: Event) returns (r: Informer)
    ensures r == Notify(inf, [e])
  {
    var todo := inf.handlers.Keys;
    var handlers := inf.handlers;
    while todo != {}
      invariant todo <= inf.handlers.Keys && handlers.Keys == inf.handlers.Keys
      invariant forall h :: h in inf.handlers ==>
                  handlers[h] == if h in todo then inf.handlers[h] else inf.handlers[h] + [e]
    {
      var h :| h in todo;
      handlers := handlers[h := handlers[h] + [e]];
      todo := todo - {h};
    }
    assert handlers == Notify(inf, [e]).handlers;
    r := inf.(handlers := handlers);
  }

  function LookupNamed(s: CacheState, gvk: GVK, namespace: string, name: string): Result<Object> {
    var key := namespace + "/" + name;
    if key in CacheOf(s, gvk) then Ok(CacheOf(s, gvk)[key]) else Err(NotFound)
  }

  lemma RegisteredStays(inf: Informer, es: seq<Event>)
    ensures HandlerId(inf.counter + 1) in Notify(Register(inf), es).handlers
  {
  }

  lemma HandlerInSync(inf: Informer, v: Keyed, h: HandlerId)
    requires InformerInSync(inf, v) && h in inf.handlers
    ensures Fold(inf.handlers[h]) == v
  {
  }

  lemma AddsForNext(objs: seq<Object>, i: nat)
    requires i < |objs|
    ensures AddsFor(objs[..i + 1]) == AddsFor(objs[..i]) + [OnAdd(objs[i])]
  {
    assert objs[..i + 1][..i] == objs[..i];
  }

  lemma NoEvents(inf: Informer)
    ensures Notify(inf, []) == inf && AddsFor([]) == []
  {
    assert Notify(inf, []).handlers == inf.handlers by {
      forall h | h in inf.handlers ensures inf.handlers[h] + [] == inf.handlers[h] { }
    }
  }

  lemma NotifyTwice(inf: Informer, es: seq<Event>, fs: seq<Event>)
    ensures Notify(Notify(inf, es), fs) == Notify(inf, es + fs)
  {
    assert Notify(Notify(inf, es), fs).handlers == Notify(inf, es + fs).handlers by {
      forall h | h in inf.handlers ensures (inf.handlers[h] + es) + fs == inf.handlers[h] + (es + fs) { }
    }
  }
}
