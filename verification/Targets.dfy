/** The writing side: the view branches of the composite client, and targets that enforce deltas through
    it, either as they are (Updater) or as patches (Patcher). */
module Targets {
  import opened JsonTrees
  import opened Objects
  import opened Deltas
  import opened ViewCaches
  import Patches
  import PatchUndo

  // ---- The client on cache states ----

  /** Looking a kind up creates its cache. */
  function Touch(s: CacheState, gvk: GVK): CacheState {
    s.(caches := s.caches[gvk := CacheOf(s, gvk)])
  }

  function LookupObject(s: CacheState, o: Object): Result<Object> {
    LookupNamed(s, GvkOf(o), NamespaceOf(o), NameOf(o))
  }

  function ClientUpdate(s: CacheState, o: Object): (CacheState, Result<()>) {
    match LookupObject(s, o)
    case Err(_) => (Touch(s, GvkOf(o)), Err(NotInCache))
    case Ok(old') => (Step(Touch(s, GvkOf(o)), UpdateObject(old', o)), Ok(()))
  }

  function ClientPatch(s: CacheState, o: Object, content: Object): (CacheState, Result<()>) {
    match LookupObject(s, o)
    case Err(e) => (Touch(s, GvkOf(o)), Err(e))
    case Ok(old') => (Step(Touch(s, GvkOf(o)), UpdateObject(old', Patched(old', content))), Ok(()))
  }

  /** The content of an object after a merge patch; an object patch of an object is an object. */
  function Patched(o: Object, content: Object): Object {
    Patches.FieldsOf(Patches.Patch(Obj(o), Obj(content)))
  }

  /** The view branches of the composite client. */
  class CompositeClient {
    const viewCache: ViewCache

    constructor (cache: ViewCache)
      ensures viewCache == cache
    {
      viewCache := cache;
    }

    method Create(obj: Object) returns (r: Result<()>)
      modifies viewCache
      ensures viewCache.State() == Step(old(viewCache.State()), AddObject(obj)) && r == Ok(())
    {
      viewCache.Add(obj);
      r := Ok(());
    }

    method Delete(obj: Object) returns (r: Result<()>)
      modifies viewCache
      ensures viewCache.State() == Step(old(viewCache.State()), DeleteObject(obj)) && r == Ok(())
    {
      viewCache.Delete(obj);
      r := Ok(());
    }

    method Update(obj: Object) returns (r: Result<()>)
      modifies viewCache
      ensures (viewCache.State(), r) == ClientUpdate(old(viewCache.State()), obj)
    {
      hide Step;
      var found := viewCache.Get(GvkOf(obj), NamespaceOf(obj), NameOf(obj));
      if found.Err? { return Err(NotInCache); }
      viewCache.Update(found.value, obj);
      return Ok(());
    }

    method Patch(obj: Object, content: Object) returns (r: Result<()>)
      modifies viewCache
      ensures (viewCache.State(), r) == ClientPatch(old(viewCache.State()), obj, content)
    {
      hide Step;
      var found := viewCache.Get(GvkOf(obj), NamespaceOf(obj), NameOf(obj));
      if found.Err? { return Err(found.error); }
      var res := Patches.PatchTree(Obj(found.value), Obj(content));
      if !res.Obj? { return Err(InvalidObject); }
      viewCache.Update(found.value, res.fields);
      return Ok(());
    }
  }

  // ---- Targets ----

  datatype TargetType = Updater | Patcher | OtherTarget

  /** The delete patch of a delta object. */
  function DeletePatchOf(o: Object): Object {
    PatchUndo.DeletePatch(o, GvkOf(o).apiVersion, GvkOf(o).kind, NamespaceOf(o), NameOf(o))
  }

  function UpdaterStep(s: CacheState, t: DeltaType, o: Object): (CacheState, Result<()>) {
    match t
    case Added => (Step(s, AddObject(o)), Ok(()))
    case Updated => ClientUpdate(s, o)
    case Replaced => ClientUpdate(s, o)
    case Deleted => (Step(s, DeleteObject(o)), Ok(()))
    case _ => (s, Ok(()))
  }

  function PatcherStep(s: CacheState, t: DeltaType, o: Object): (CacheState, Result<()>) {
    match t
    case Deleted =>
      (match ClientPatch(s, o, DeletePatchOf(o))
       case (s', Err(NotFound)) => (s', Ok(()))
       case x => x)
    case Sync => (s, Ok(()))
    case Upserted => (s, Ok(()))
    case _ =>
      (match LookupObject(s, o)
       case Err(e) => (Touch(s, GvkOf(o)), Err(e))
       case Ok(old') => ClientPatch(Touch(s, GvkOf(o)), old', o))
  }

  /** The delta object is copied and recast into the target kind before it is written. */
  function WriteStep(s: CacheState, gvk: GVK, typ: TargetType, d: Delta): (CacheState, Result<()>) {
    var o := SetGvk(d.obj, gvk);
    match typ
    case Updater => UpdaterStep(s, d.typ, o)
    case Patcher => PatcherStep(s, d.typ, o)
    case OtherTarget => (s, Err(UnknownTarget))
  }

  function WriteAll(s: CacheState, gvk: GVK, typ: TargetType, ds: seq<Delta>): (CacheState, Result<()>) {
    if ds == [] then (s, Ok(()))
    else
      match WriteAll(s, gvk, typ, ds[..|ds| - 1])
      case (s1, Err(e)) => (s1, Err(e))
      case (s1, Ok(_)) => WriteStep(s1, gvk, typ, ds[|ds| - 1])
  }

  class Target {
    const gvk: GVK
    const typ: TargetType
    const client: CompositeClient

    constructor (gvk: GVK, typ: TargetType, client: CompositeClient)
      ensures this.gvk == gvk && this.typ == typ && this.client == client
    {
      this.gvk, this.typ, this.client := gvk, typ, client;
    }

    method Write(d: Delta) returns (r: Result<()>)
      modifies client.viewCache
      ensures (client.viewCache.State(), r) == WriteStep(old(client.viewCache.State()), gvk, typ, d)
    {
      hide Step, ClientUpdate, ClientPatch, LookupObject;
      var o := SetGvk(d.obj, gvk);
      match typ {
        case Updater => r := UpdateTarget(d.typ, o);
        case Patcher => r := PatchTarget(d.typ, o);
        case OtherTarget => r := Err(UnknownTarget);
      }
    }

    method UpdateTarget(t: DeltaType, o: Object) returns (r: Result<()>)
      modifies client.viewCache
      ensures (client.viewCache.State(), r) == UpdaterStep(old(client.viewCache.State()), t, o)
    {
      hide Step, ClientUpdate;
      match t {
        case Added => r := client.Create(o);
        case Updated => r := client.Update(o);
        case Replaced => r := client.Update(o);
        case Deleted => r := client.Delete(o);
        case _ => r := Ok(());
      }
    }

    method PatchTarget(t: DeltaType, o: Object) returns (r: Result<()>)
      modifies client.viewCache
      ensures (client.viewCache.State(), r) == PatcherStep(old(client.viewCache.State()), t, o)
    {
      hide Step, ClientPatch, DeletePatchOf;
      if t == Added || t == Updated || t == Replaced {
        var found := client.viewCache.Get(GvkOf(o), NamespaceOf(o), NameOf(o));
        if found.Err? { return Err(found.error); }
        r := client.Patch(found.value, o);
      } else if t == Deleted {
        r := client.Patch(o, DeletePatchOf(o));
        if r == Err(NotFound) { r := Ok(()); }
      } else {
        r := Ok(());
      }
    }
  }

  // ---- Updater targets accept strict deltas ----

  /** An object of the kind, with its GVK spelled out. */
  predicate OfKind(gvk: GVK, o: Object) {
    "apiVersion" in o && o["apiVersion"] == Str(gvk.apiVersion) && "kind" in o && o["kind"] == Str(gvk.kind)
  }

  lemma RecastIsIdentity(gvk: GVK, o: Object)
    requires OfKind(gvk, o)
    ensures SetGvk(o, gvk) == o && GvkOf(o) == gvk
  {
    assert o["apiVersion" := Str(gvk.apiVersion)] == o;
  }

  /** A lookup by `namespace/name` finds a namespaced object exactly when its key is in the cache. */
  lemma LookupByKey(s: CacheState, o: Object)
    requires NamespaceOf(o) != ""
    ensures LookupObject(s, o).Ok? <==> KeyOf(o) in CacheOf(s, GvkOf(o))
    ensures LookupObject(s, o).Ok? ==> LookupObject(s, o).value == CacheOf(s, GvkOf(o))[KeyOf(o)]
  {
  }

  /** An update of a namespaced object succeeds if and only if its key is in the cache. Without a namespace
      the lookup asks for a key that starts with `/`: it fails unless a stored name or namespace does. */
  lemma UpdateSucceedsIff(s: CacheState, o: Object)
    requires WellKeyed(CacheOf(s, GvkOf(o)))
    ensures ClientUpdate(s, o).1.Ok? <==>
              if NamespaceOf(o) != "" then KeyOf(o) in CacheOf(s, GvkOf(o))
              else
                var v := CacheOf(s, GvkOf(o));
                exists k :: k in v && StartsWithSlash(v[k]) && k == "/" + NameOf(o)
  {
    var v, k := CacheOf(s, GvkOf(o)), "/" + NameOf(o);
    if NamespaceOf(o) == "" {
      assert NamespaceOf(o) + "/" + NameOf(o) == k;
      assert k in v ==> KeyOf(v[k])[0] == '/';
    }
  }

  predicate StartsWithSlash(o: Object) {
    || (NamespaceOf(o) != "" && NamespaceOf(o)[0] == '/')
    || (NamespaceOf(o) == "" && NameOf(o) != "" && NameOf(o)[0] == '/')
  }

  lemma StepCache(s: CacheState, gvk: GVK, o: Object)
    requires GvkOf(o) == gvk
    ensures CacheOf(Step(s, AddObject(o)), gvk) == CacheOf(s, gvk)[KeyOf(o) := o]
    ensures CacheOf(Step(s, DeleteObject(o)), gvk) == CacheOf(s, gvk) - {KeyOf(o)}
    ensures forall old' :: old' != o ==> CacheOf(Step(s, UpdateObject(old', o)), gvk) == CacheOf(s, gvk)[KeyOf(o) := o]
    ensures CacheOf(Step(s, UpdateObject(o, o)), gvk) == CacheOf(s, gvk)
  {
    hide KeyOf, Notify;
  }

  /** An Updater accepts a strict delta of its kind and applies it; updates need a namespace. */
  lemma StrictWriteSucceeds(s: CacheState, gvk: GVK, d: Delta)
    requires StrictOne(d, CacheOf(s, gvk)) && OfKind(gvk, d.obj) && WellKeyed(CacheOf(s, gvk))
    requires d.typ == Updated ==> NamespaceOf(d.obj) != ""
    ensures WriteStep(s, gvk, Updater, d).1.Ok?
    ensures CacheOf(WriteStep(s, gvk, Updater, d).0, gvk) == ApplyOne(d, CacheOf(s, gvk))
  {
    var o, v := d.obj, CacheOf(s, gvk);
    RecastIsIdentity(gvk, o);
    StepCache(s, gvk, o);
    if d.typ == Updated {
      LookupByKey(s, o);
      StepCache(Touch(s, gvk), gvk, o);
      hide KeyOf, Step;
      assert CacheOf(Touch(s, gvk), gvk) == v;
      if v[KeyOf(o)] == o { assert v[KeyOf(o) := o] == v; }
    }
  }

  /** The key under which the client looks for the stored object. */
  function ClientKey(o: Object): string {
    NamespaceOf(o) + "/" + NameOf(o)
  }

  /** The contents of the caches of all kinds but `gvk`. */
  ghost predicate SameOtherCaches(s: CacheState, s': CacheState, gvk: GVK) {
    forall g :: g != gvk ==> CacheOf(s', g) == CacheOf(s, g)
  }

  /** What an Updater does, for every delta type and every object, whatever its kind: it is recast into the
      target kind and keeps its name; adds and deletes always succeed; updates and replaces are the same and need a
      stored object; upserts and syncs do nothing; other kinds are not touched. */
  lemma UpdaterWrites(s: CacheState, gvk: GVK, d: Delta)
    ensures var (s', r) := WriteStep(s, gvk, Updater, d);
            var o, k, v, v' := SetGvk(d.obj, gvk), KeyOf(d.obj), CacheOf(s, gvk), CacheOf(s', gvk);
            && SameOtherCaches(s, s', gvk) && GvkOf(o) == gvk && KeyOf(o) == k
            && (d.typ == Added ==> r.Ok? && v' == v[k := o])
            && (d.typ == Deleted ==> r.Ok? && v' == v - {k})
            && ((d.typ == Updated || d.typ == Replaced) && ClientKey(d.obj) !in v ==> r == Err(NotInCache) && v' == v)
            && ((d.typ == Updated || d.typ == Replaced) && NamespaceOf(d.obj) != "" && k in v ==>
                  r.Ok? && v' == v[k := o])
            && (d.typ == Upserted || d.typ == Sync ==> r.Ok? && s' == s)
  {
    var o, v := SetGvk(d.obj, gvk), CacheOf(s, gvk);
    SetGvkReads(d.obj, gvk);
    StepCache(s, gvk, o);
    StepOtherCaches(s, AddObject(o), gvk);
    StepOtherCaches(s, DeleteObject(o), gvk);
    hide SetGvk, Step;
    if d.typ == Updated || d.typ == Replaced {
      UpdaterUpdates(s, gvk, o);
    }
  }

  lemma UpdaterUpdates(s: CacheState, gvk: GVK, o: Object)
    requires GvkOf(o) == gvk
    ensures var (s', r) := ClientUpdate(s, o);
            var k, v, v' := KeyOf(o), CacheOf(s, gvk), CacheOf(s', gvk);
            && SameOtherCaches(s, s', gvk)
            && (ClientKey(o) !in v ==> r == Err(NotInCache) && v' == v)
            && (NamespaceOf(o) != "" && k in v ==> r.Ok? && v' == v[k := o])
  {
    var v := CacheOf(s, gvk);
    assert CacheOf(Touch(s, gvk), gvk) == v && SameOtherCaches(s, Touch(s, gvk), gvk);
    StepCache(Touch(s, gvk), gvk, o);
    if LookupObject(s, o).Ok? {
      StepOtherCaches(Touch(s, gvk), UpdateObject(LookupObject(s, o).value, o), gvk);
    }
    if NamespaceOf(o) != "" {
      LookupByKey(s, o);
      hide KeyOf, Step;
      if KeyOf(o) in v && v[KeyOf(o)] == o { assert v[KeyOf(o) := o] == v; }
    }
  }

  lemma StepOtherCaches(s: CacheState, op: CacheOp, gvk: GVK)
    requires match op
             case AddObject(o) => GvkOf(o) == gvk
             case UpdateObject(_, o) => GvkOf(o) == gvk
             case DeleteObject(o) => GvkOf(o) == gvk
             case _ => false
    ensures SameOtherCaches(s, Step(s, op), gvk)
  {
    hide KeyOf, Notify, GvkOf;
  }

  /** A target of no known type fails and changes nothing. */
  lemma OtherTargetFails(s: CacheState, gvk: GVK, d: Delta)
    ensures WriteStep(s, gvk, OtherTarget, d) == (s, Err(UnknownTarget))
  {
  }

  lemma TouchKeepsReplicated(s: CacheState, gvk: GVK)
    requires Replicated(s)
    ensures Replicated(Touch(s, gvk))
  {
    hide KeyOf, InformerInSync;
  }

  /** Whatever is written, the handlers of every kind stay in sync. */
  lemma WriteKeepsReplicated(s: CacheState, gvk: GVK, typ: TargetType, d: Delta)
    requires Replicated(s)
    ensures Replicated(WriteStep(s, gvk, typ, d).0)
  {
    hide Step, Replicated, DeletePatchOf, LookupNamed, Patched;
    var o := SetGvk(d.obj, gvk);
    TouchKeepsReplicated(s, GvkOf(o));
    StepKeepsReplicated(s, AddObject(o));
    StepKeepsReplicated(s, DeleteObject(o));
    forall x: Object, y: Object, z: CacheState | Replicated(z) ensures Replicated(Step(z, UpdateObject(x, y))) {
      StepKeepsReplicated(z, UpdateObject(x, y));
    }
    forall z: CacheState, g | Replicated(z) ensures Replicated(Touch(z, g)) { TouchKeepsReplicated(z, g); }
  }

  lemma {:induction false} WritesKeepReplicated(s: CacheState, gvk: GVK, typ: TargetType, ds: seq<Delta>)
    requires Replicated(s)
    ensures Replicated(WriteAll(s, gvk, typ, ds).0)
  {
    hide Replicated, WriteStep;
    if ds != [] {
      WritesKeepReplicated(s, gvk, typ, ds[..|ds| - 1]);
      WriteKeepsReplicated(WriteAll(s, gvk, typ, ds[..|ds| - 1]).0, gvk, typ, ds[|ds| - 1]);
    }
  }

  ghost predicate Writable(gvk: GVK, ds: seq<Delta>) {
    forall d :: d in ds ==> OfKind(gvk, d.obj) && (d.typ == Updated ==> NamespaceOf(d.obj) != "")
  }

  /** A strict delta list is written without a single failure, and leaves the cache with its effect. */
  lemma {:induction false} StrictWritesSucceed(s: CacheState, gvk: GVK, ds: seq<Delta>)
    requires Replicated(s) && Strict(ds, CacheOf(s, gvk)) && Writable(gvk, ds)
    ensures WriteAll(s, gvk, Updater, ds).1.Ok?
    ensures CacheOf(WriteAll(s, gvk, Updater, ds).0, gvk) == Apply(ds, CacheOf(s, gvk))
  {
    hide WriteStep, OfKind, StrictOne, ApplyOne;
    if ds != [] {
      var pre, last := ds[..|ds| - 1], ds[|ds| - 1];
      assert last in ds;
      StrictWritesSucceed(s, gvk, pre);
      WritesKeepReplicated(s, gvk, Updater, pre);
      var s1 := WriteAll(s, gvk, Updater, pre).0;
      InformerReady(s1, gvk);
      StrictWriteSucceeds(s1, gvk, last);
    }
  }

  // ---- Patcher targets: delete undoes add ----

  /** The object a Patcher leaves behind after writing an Added and then a Deleted delta: the residue of
      the cached object, with the identity of the delta object. */
  function Unpatched(x: Object, o: Object): Object {
    PatchUndo.Restored(Obj(x), o, GvkOf(o).apiVersion, GvkOf(o).kind, NamespaceOf(o), NameOf(o))
  }

  lemma PatchedThenUnpatched(x: Object, o: Object)
    requires Patches.NullFreeObjects(Obj(o))
    ensures Patched(Patched(x, o), DeletePatchOf(o)) == Unpatched(x, o)
  {
    hide KeyOf, GvkOf, NamespaceOf, NameOf;
    PatchUndo.PatchMembers(Obj(x), o);
    assert Patches.Patch(Obj(x), Obj(o)) == Obj(Patched(x, o));
    PatchUndo.DeletePatchUndoesPatch(Obj(x), o, GvkOf(o).apiVersion, GvkOf(o).kind, NamespaceOf(o), NameOf(o));
  }

  /** A patched object has the identity of the delta object. */
  lemma PatchedIdentity(x: Object, o: Object)
    requires Patches.NullFreeObjects(Obj(o)) && OfKind(GvkOf(o), o)
    requires "metadata" in o && NameOf(o) != "" && NamespaceOf(o) != ""
    ensures var r := Patched(x, o);
            GvkOf(r) == GvkOf(o) && NamespaceOf(r) == NamespaceOf(o) && NameOf(r) == NameOf(o)
  {
    PatchUndo.PatchMembers(Obj(x), o);
    var f := Patches.At(x, "metadata");
    PatchUndo.PatchMembers(f, o["metadata"].fields);
    var r := Patched(x, o);
    assert r["metadata"] == Patches.Patch(f, o["metadata"]);
    assert r["apiVersion"] == Patches.Patch(Patches.At(x, "apiVersion"), o["apiVersion"]);
    assert r["kind"] == Patches.Patch(Patches.At(x, "kind"), o["kind"]);
  }

  lemma UnpatchedIdentity(x: Object, o: Object)
    requires OfKind(GvkOf(o), o) && "metadata" in o && o["metadata"].Obj?
    ensures var r := Unpatched(x, o);
            GvkOf(r) == GvkOf(o) && NamespaceOf(r) == NamespaceOf(o) && NameOf(r) == NameOf(o)
  {
    hide PatchUndo.Residue;
  }

  /** Replacing the cached object of a namespaced key. */
  lemma UpdateAtKey(s: CacheState, o: Object, y: Object)
    requires NamespaceOf(o) != "" && KeyOf(o) in CacheOf(s, GvkOf(o))
    requires GvkOf(y) == GvkOf(o) && KeyOf(y) == KeyOf(o)
    ensures var x, g := CacheOf(s, GvkOf(o))[KeyOf(o)], GvkOf(o);
            && LookupObject(s, o) == Ok(x)
            && CacheOf(Step(Touch(s, g), UpdateObject(x, y)), g) == CacheOf(s, g)[KeyOf(o) := y]
  {
    var x, g := CacheOf(s, GvkOf(o))[KeyOf(o)], GvkOf(o);
    LookupByKey(s, o);
    StepCache(Touch(s, g), g, y);
    hide KeyOf, Step;
    assert CacheOf(Touch(s, g), g) == CacheOf(s, g);
    if x == y { assert CacheOf(s, g)[KeyOf(o) := y] == CacheOf(s, g); }
  }

  /** A delta object a Patcher can apply to the cached object of the same name. */
  ghost predicate Patchable(s: CacheState, gvk: GVK, o: Object) {
    && Patches.NullFreeObjects(Obj(o)) && OfKind(gvk, o)
    && "metadata" in o && NameOf(o) != "" && NamespaceOf(o) != ""
    && KeyOf(o) in CacheOf(s, gvk)
    && var x := CacheOf(s, gvk)[KeyOf(o)];
       GvkOf(x) == gvk && NamespaceOf(x) == NamespaceOf(o) && NameOf(x) == NameOf(o)
  }

  /** An Added, an Updated and a Replaced delta are all patched into the cached object, and nothing else
      changes. */
  lemma PatcherPatches(s: CacheState, gvk: GVK, t: DeltaType, o: Object)
    requires Patchable(s, gvk, o) && (t == Added || t == Updated || t == Replaced)
    ensures var (s1, r1) := WriteStep(s, gvk, Patcher, Delta(t, o));
            && r1.Ok? && SameOtherCaches(s, s1, gvk)
            && CacheOf(s1, gvk) == CacheOf(s, gvk)[KeyOf(o) := Patched(CacheOf(s, gvk)[KeyOf(o)], o)]
  {
    var v, x := CacheOf(s, gvk), CacheOf(s, gvk)[KeyOf(o)];
    RecastIsIdentity(gvk, o);
    PatchedIdentity(x, o);
    assert KeyOf(x) == KeyOf(o) && KeyOf(Patched(x, o)) == KeyOf(o);
    var s0 := Touch(s, gvk);
    StepOtherCaches(Touch(s0, gvk), UpdateObject(x, Patched(x, o)), gvk);
    hide KeyOf, Step, Patched, LookupNamed;
    UpdateAtKey(s, o, Patched(x, o));
    assert CacheOf(s0, gvk) == v;
    UpdateAtKey(s0, x, Patched(x, o));
  }

  /** Without a stored object an Added, Updated or Replaced delta fails and a Deleted one is accepted; upserts
      and syncs are always accepted. No cache contents and no handler change in any of these cases. */
  lemma PatcherWithoutObject(s: CacheState, gvk: GVK, d: Delta)
    requires d.typ == Upserted || d.typ == Sync || ClientKey(d.obj) !in CacheOf(s, gvk)
    ensures var (s', r) := WriteStep(s, gvk, Patcher, d);
            && r == (if d.typ == Added || d.typ == Updated || d.typ == Replaced then Err(NotFound) else Ok(()))
            && (forall g :: CacheOf(s', g) == CacheOf(s, g)) && s'.informers == s.informers
  {
    SetGvkReads(d.obj, gvk);
    hide SetGvk, KeyOf, DeletePatchOf, Step, Patched;
  }

  /** At a Patcher target a Deleted delta undoes the Added delta of the same object: the cached object is
      left with its residue, and no other object changes. */
  lemma PatcherDeleteUndoesAdd(s: CacheState, gvk: GVK, o: Object)
    requires Patchable(s, gvk, o)
    ensures var (s1, r1) := WriteStep(s, gvk, Patcher, Delta(Added, o));
            var (s2, r2) := WriteStep(s1, gvk, Patcher, Delta(Deleted, o));
            && r1.Ok? && r2.Ok?
            && CacheOf(s2, gvk) == CacheOf(s, gvk)[KeyOf(o) := Unpatched(CacheOf(s, gvk)[KeyOf(o)], o)]
  {
    hide *;
    UnpatchFacts(s, gvk, o);
    var v, x := CacheOf(s, gvk), CacheOf(s, gvk)[KeyOf(o)];
    PatcherPatches(s, gvk, Added, o);
    var s1 := WriteStep(s, gvk, Patcher, Delta(Added, o)).0;
    PatcherWritesDelete(s1, gvk, o);
    assert v[KeyOf(o) := Patched(x, o)][KeyOf(o) := Unpatched(x, o)] == v[KeyOf(o) := Unpatched(x, o)];
  }

  /** What a Patcher really leaves of the cached object, read along paths: apart from the identity no scalar
      leaf of the delta object, and everything the delta object does not name as it was. */
  lemma PatcherLeavesNoLeaf(s: CacheState, gvk: GVK, o: Object, path: seq<string>)
    requires Patchable(s, gvk, o) && path != [] && !PatchUndo.IdentityPath(path)
    ensures var s1 := WriteStep(s, gvk, Patcher, Delta(Added, o)).0;
            var s2 := WriteStep(s1, gvk, Patcher, Delta(Deleted, o)).0;
            && KeyOf(o) in CacheOf(s2, gvk)
            && var x, y := Obj(CacheOf(s, gvk)[KeyOf(o)]), Obj(CacheOf(s2, gvk)[KeyOf(o)]);
               && (PatchUndo.HasLeaf(Obj(o), path) ==> PatchUndo.Get(y, path) == None)
               && (PatchUndo.NotNamed(Obj(o), path) ==> PatchUndo.Get(y, path) == PatchUndo.Get(x, path))
  {
    hide WriteStep, KeyOf, GvkOf, NameOf, NamespaceOf, PatchUndo.Restored, PatchUndo.Get, PatchUndo.NotNamed, OfKind,
         Patches.NullFreeObjects, PatchUndo.IdentityPath;
    PatcherDeleteUndoesAdd(s, gvk, o);
    var x := CacheOf(s, gvk)[KeyOf(o)];
    PatchUndo.RestoredPaths(Obj(x), o, GvkOf(o).apiVersion, GvkOf(o).kind, NamespaceOf(o), NameOf(o), path);
  }

  lemma UnpatchFacts(s: CacheState, gvk: GVK, o: Object)
    requires Patchable(s, gvk, o)
    ensures KeyOf(o) in CacheOf(s, gvk) && "metadata" in o && o["metadata"].Obj? && NamespaceOf(o) != ""
            && OfKind(gvk, o)
    ensures var x := CacheOf(s, gvk)[KeyOf(o)];
            && Patched(Patched(x, o), DeletePatchOf(o)) == Unpatched(x, o)
            && GvkOf(Unpatched(x, o)) == GvkOf(o) && KeyOf(Unpatched(x, o)) == KeyOf(o)
  {
    hide Patched, DeletePatchOf, Unpatched;
    RecastIsIdentity(gvk, o);
    UnpatchedIdentity(CacheOf(s, gvk)[KeyOf(o)], o);
    PatchedThenUnpatched(CacheOf(s, gvk)[KeyOf(o)], o);
  }

  lemma PatcherWritesDelete(s: CacheState, gvk: GVK, o: Object)
    requires OfKind(gvk, o) && NamespaceOf(o) != "" && KeyOf(o) in CacheOf(s, gvk)
    requires var y := Patched(CacheOf(s, gvk)[KeyOf(o)], DeletePatchOf(o)); GvkOf(y) == GvkOf(o) && KeyOf(y) == KeyOf(o)
    ensures var (s2, r2) := WriteStep(s, gvk, Patcher, Delta(Deleted, o));
            && r2.Ok?
            && CacheOf(s2, gvk) == CacheOf(s, gvk)[KeyOf(o) := Patched(CacheOf(s, gvk)[KeyOf(o)], DeletePatchOf(o))]
  {
    RecastIsIdentity(gvk, o);
    hide KeyOf, Step, Patched, DeletePatchOf, LookupNamed;
    UpdateAtKey(s, o, Patched(CacheOf(s, gvk)[KeyOf(o)], DeletePatchOf(o)));
  }
}
