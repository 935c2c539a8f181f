/** The default engine: one keyed store per base view, and the incremental evaluation of `@join` and
    `@aggregate` on one event. The class follows the program; its contracts tie every method to a
    function or relation on store values, about which the theorems are stated. */
module Engine {
  import opened JsonTrees
  import opened Objects
  import opened Deltas
  import opened Joins
  import opened JoinMaintenance
  import opened Aggregations

  // ---- The join step as a relation; the order in which stores are listed is free ----

  /** The product needs two views, and stops at the first tuple whose condition fails to evaluate. */
  ghost predicate JoinFails(views: seq<GVK>, cond: Condition, st: Stores, o: Object) {
    |views| < 2 || exists t :: IsThrough(views, st, o, t) && cond(JoinInput(t)).Err?
  }

  ghost predicate JoinEval(views: seq<GVK>, cond: Condition, st: Stores, o: Object, r: Result<seq<Object>>) {
    match r
    case Ok(rows) => !JoinFails(views, cond, st, o) && RowsThrough(views, cond, st, o, rows)
    case Err(_) => JoinFails(views, cond, st, o)
  }

  ghost predicate JoinAddStep(views: seq<GVK>, cond: Condition, st: Stores, o: Object, st': Stores,
                              r: Result<seq<Delta>>)
    requires GvkOf(o) in st
  {
    exists e :: JoinEval(views, cond, st, o, e) &&
      match e
      case Ok(rows) => st' == Put(st, o) && r == Ok(AsDeltas(Added, rows))
      case Err(x) => st' == st && r == Err(x)
  }

  ghost predicate JoinDeleteStep(views: seq<GVK>, cond: Condition, st: Stores, o: Object, st': Stores,
                                 r: Result<seq<Delta>>)
    requires GvkOf(o) in st
  {
    var g, k := GvkOf(o), KeyOf(o);
    if k !in st[g] then st' == st && r == Ok([])
    else
      exists e :: JoinEval(views, cond, st, st[g][k], e) &&
        match e
        case Ok(rows) => st' == Remove(st, g, k) && r == Ok(AsDeltas(Deleted, rows))
        case Err(x) => st' == st && r == Err(x)
  }

  /** A delete of the old object followed by an add of the new one. */
  ghost predicate JoinReplaceStep(views: seq<GVK>, cond: Condition, st: Stores, o: Object, st': Stores,
                                  r: Result<seq<Delta>>)
    requires GvkOf(o) in st
  {
    exists mid: Stores, rd ::
      GvkOf(o) in mid && JoinDeleteStep(views, cond, st, o, mid, rd) &&
      match rd
      case Err(x) => st' == mid && r == Err(x)
      case Ok(dels) =>
        exists ra :: JoinAddStep(views, cond, mid, o, st', ra) &&
          match ra
          case Err(x) => r == Err(x)
          case Ok(adds) => r == Ok(Consolidated(dels, adds))
  }

  ghost predicate JoinStep(views: seq<GVK>, cond: Condition, st: Stores, d: Delta, st': Stores, r: Result<seq<Delta>>) {
    var st0 := InitStore(st, GvkOf(d.obj));
    if !ValidEvent(st0, d) then st' == st0 && r == Ok([])
    else
      match Resolve(st0, d)
      case Added => JoinAddStep(views, cond, st0, d.obj, st', r)
      case Updated => JoinReplaceStep(views, cond, st0, d.obj, st', r)
      case Replaced => JoinReplaceStep(views, cond, st0, d.obj, st', r)
      case Deleted => JoinDeleteStep(views, cond, st0, d.obj, st', r)
      case _ => st' == st0 && r == Ok([])
  }

  /** `t` continues `current` with slots `recurseProd` may choose. */
  ghost predicate Continues(views: seq<GVK>, st: Stores, o: Object, current: Tuple, t: Tuple) {
    && |current| <= |t| == |views| && t[..|current|] == current
    && forall i :: |current| <= i < |t| ==> ThroughSlot(views[i], st, o, t[i])
  }

  /** `ts` lists the continuations of `current`, each exactly once. */
  ghost predicate Enumerates(views: seq<GVK>, st: Stores, o: Object, current: Tuple, ts: seq<Tuple>) {
    NoDuplicates(ts) && forall t :: t in ts <==> Continues(views, st, o, current, t)
  }

  /** The number of tuples below a given depth: the product of the sizes of the other stores. */
  function ProductSize(views: seq<GVK>, st: Stores, own: GVK, depth: nat): nat
    requires depth <= |views|
    decreases |views| - depth
  {
    if depth == |views| then 1
    else
      var rest := ProductSize(views, st, own, depth + 1);
      if views[depth] == own || views[depth] !in st then rest else |st[views[depth]]| * rest
  }

  lemma ContinuesStep(views: seq<GVK>, st: Stores, o: Object, current: Tuple, t: Tuple)
    requires |current| < |views|
    ensures Continues(views, st, o, current, t) <==>
              |t| == |views| && ThroughSlot(views[|current|], st, o, t[|current|])
              && Continues(views, st, o, current + [t[|current|]], t)
  {
    var n := |current|;
    if |t| == |views| {
      assert t[..n + 1] == t[..n] + [t[n]];
      assert t[..n] == current <==> t[..n + 1] == current + [t[n]];
    }
  }

  lemma {:induction false} SelectRowsConcat(cond: Condition, ts: seq<Tuple>, us: seq<Tuple>)
    ensures SelectRows(cond, ts + us) == SelectRows(cond, ts) + SelectRows(cond, us)
  {
    hide JoinInput, JoinObject;
    if us == [] {
      assert ts + us == ts;
    } else {
      SelectRowsConcat(cond, ts, us[..|us| - 1]);
      assert (ts + us)[..|ts + us| - 1] == ts + us[..|us| - 1];
    }
  }

  lemma {:induction false} SelectAllRows(cond: Condition, ts: seq<Tuple>)
    requires forall t :: t in ts ==> Matches(cond, t)
    ensures |SelectRows(cond, ts)| == |ts|
  {
    hide JoinInput, JoinObject;
    if ts != [] {
      assert ts[|ts| - 1] in ts;
      SelectAllRows(cond, ts[..|ts| - 1]);
    }
  }

  /** The objects of a store in an arbitrary order, each once. */
  method ListStore(store: Keyed) returns (objs: seq<Object>)
    requires WellKeyed(store)
    ensures |objs| == |store|
    ensures NoDuplicates(objs)
    ensures forall o :: o in objs <==> o in store.Values
  {
    objs := [];
    var todo := store.Keys;
    while todo != {}
      invariant todo <= store.Keys
      invariant |objs| + |todo| == |store.Keys|
      invariant NoDuplicates(objs)
      invariant forall o :: o in objs ==> KeyOf(o) in store && KeyOf(o) !in todo && store[KeyOf(o)] == o
      invariant forall k :: k in store && k !in todo ==> store[k] in objs
    {
      var k :| k in todo;
      assert KeyOf(store[k]) == k;
      objs := objs + [store[k]];
      todo := todo - {k};
    }
    assert |store| == |store.Keys|;
  }

  class DefaultEngine {
    const targetView: string
    const baseviews: seq<GVK>
    var baseViewStore: Stores

    constructor (targetView: string, baseviews: seq<GVK>)
      ensures this.targetView == targetView && this.baseviews == baseviews && baseViewStore == map[]
      ensures Valid()
    {
      this.targetView := targetView;
      this.baseviews := baseviews;
      baseViewStore := map[];
    }

    /** Stores are keyed by the objects they hold. */
    ghost predicate Valid()
      reads this
    {
      KeyedStores(baseViewStore)
    }

    method InitViewStore(gvk: GVK)
      modifies this
      ensures baseViewStore == InitStore(old(baseViewStore), gvk)
    {
      if gvk !in baseViewStore {
        baseViewStore := baseViewStore[gvk := map[]];
      }
    }

    method IsValidEvent(d: Delta) returns (valid: bool)
      modifies this
      ensures baseViewStore == InitStore(old(baseViewStore), GvkOf(d.obj))
      ensures valid == ValidEvent(baseViewStore, d)
    {
      var gvk := GvkOf(d.obj);
      InitViewStore(gvk);
      if d.typ == Added || d.typ == Updated || d.typ == Upserted || d.typ == Replaced {
        var key := KeyOf(d.obj);
        if key in baseViewStore[gvk] {
          return d.obj != baseViewStore[gvk][key];
        }
      }
      return true;
    }

    method HandleUpsertEvent(d: Delta) returns (r: Delta)
      requires GvkOf(d.obj) in baseViewStore
      ensures r == Delta(Resolve(baseViewStore, d), d.obj)
      ensures d.typ != Upserted ==> r == d
      ensures d.typ == Upserted ==> r.typ == if KeyOf(d.obj) in baseViewStore[GvkOf(d.obj)] then Updated else Added
    {
      if d.typ != Upserted { return d; }
      if KeyOf(d.obj) !in baseViewStore[GvkOf(d.obj)] {
        return Delta(Added, d.obj);
      }
      return Delta(Updated, d.obj);
    }

    // ---- @aggregate ----

    method EvaluateAggregation(a: Aggregate, d: Delta) returns (r: Result<seq<Delta>>)
      modifies this
      ensures old(Valid()) ==> Valid()
      ensures (baseViewStore, r) == AggregateStep(a, old(baseViewStore), d)
    {
      InitViewStore(GvkOf(d.obj));
      var valid := IsValidEvent(d);
      if !valid { return Ok([]); }
      var delta := HandleUpsertEvent(d);
      r := EvaluateTypedAggregation(a, delta);
    }

    method EvaluateTypedAggregation(a: Aggregate, d: Delta) returns (r: Result<seq<Delta>>)
      requires GvkOf(d.obj) in baseViewStore
      modifies this
      ensures old(Valid()) ==> Valid()
      ensures (baseViewStore, r) == TypedStep(a, old(baseViewStore), d.typ, d.obj)
      decreases d.typ == Updated || d.typ == Replaced
    {
      match d.typ {
        case Added => r := AggregateAdded(a, d.obj);
        case Updated => r := AggregateReplaced(a, d.obj);
        case Replaced => r := AggregateReplaced(a, d.obj);
        case Deleted => r := AggregateDeleted(a, d.obj);
        case _ => r := Ok([]);
      }
    }

    method AggregateAdded(a: Aggregate, o: Object) returns (r: Result<seq<Delta>>)
      requires GvkOf(o) in baseViewStore
      modifies this
      ensures old(Valid()) ==> Valid()
      ensures (baseViewStore, r) == TypedStep(a, old(baseViewStore), Added, o)
    {
      hide Image, KeyOf;
      var gvk := GvkOf(o);
      var objs := EvalAggregation(a.view, a.stages, o);
      if objs.Err? { return Err(objs.error); }
      baseViewStore := baseViewStore[gvk := baseViewStore[gvk][KeyOf(o) := o]];
      var ds: seq<Delta> := [];
      for i := 0 to |objs.value|
        invariant ds == AsDeltas(Added, objs.value[..i])
      {
        ds := ds + [Delta(Added, objs.value[i])];
      }
      assert objs.value[..|objs.value|] == objs.value;
      assert ds == ImageDeltas(None, Image(a.view, a.stages, o).value);
      return Ok(ds);
    }

    method AggregateDeleted(a: Aggregate, o: Object) returns (r: Result<seq<Delta>>)
      requires GvkOf(o) in baseViewStore
      modifies this
      ensures old(Valid()) ==> Valid()
      ensures (baseViewStore, r) == TypedStep(a, old(baseViewStore), Deleted, o)
    {
      hide Image, KeyOf;
      var gvk, key := GvkOf(o), KeyOf(o);
      if key !in baseViewStore[gvk] { return Ok([]); }
      var objs := EvalAggregation(a.view, a.stages, baseViewStore[gvk][key]);
      if objs.Err? { return Err(objs.error); }
      baseViewStore := baseViewStore[gvk := baseViewStore[gvk] - {key}];
      var ds: seq<Delta> := [];
      for i := 0 to |objs.value|
        invariant ds == AsDeltas(Deleted, objs.value[..i])
      {
        ds := ds + [Delta(Deleted, objs.value[i])];
      }
      assert objs.value[..|objs.value|] == objs.value;
      assert ds == ImageDeltas(Image(a.view, a.stages, old(baseViewStore)[gvk][key]).value, None);
      return Ok(ds);
    }

    /** An update is a delete followed by an add; the `len == 1` tests lose nothing because every stage
        list yields at most one object. */
    method AggregateReplaced(a: Aggregate, o: Object) returns (r: Result<seq<Delta>>)
      requires GvkOf(o) in baseViewStore
      modifies this
      ensures old(Valid()) ==> Valid()
      ensures (baseViewStore, r) == TypedStep(a, old(baseViewStore), Updated, o)
      decreases true, 0
    {
      hide Image, KeyOf;
      var dels := EvaluateTypedAggregation(a, Delta(Deleted, o));
      if dels.Err? { return Err(dels.error); }
      var del: Option<Delta> := None;
      if |dels.value| == 1 { del := Some(dels.value[0]); }
      var adds := EvaluateTypedAggregation(a, Delta(Added, o));
      if adds.Err? { return Err(adds.error); }
      var add: Option<Delta> := None;
      if |adds.value| == 1 { add := Some(adds.value[0]); }
      if del.None? && add.None? {
        return Ok([]);
      } else if del.None? {
        return Ok([add.value]);
      } else if add.None? {
        return Ok([del.value]);
      } else if SameName(del.value.obj, add.value.obj) {
        return Ok([Delta(Updated, add.value.obj)]);
      } else {
        return Ok([del.value, add.value]);
      }
    }

    // ---- @join ----

    method EvaluateJoin(cond: Condition, d: Delta) returns (r: Result<seq<Delta>>)
      requires Valid()
      modifies this
      ensures Valid()
      ensures JoinStep(baseviews, cond, old(baseViewStore), d, baseViewStore, r)
      decreases d.typ != Deleted && d.typ != Added, true, 1
    {
      InitViewStore(GvkOf(d.obj));
      var valid := IsValidEvent(d);
      if !valid { return Ok([]); }
      var delta := HandleUpsertEvent(d);
      match delta.typ {
        case Added => r := JoinAdded(cond, delta.obj);
        case Updated => r := JoinReplaced(cond, delta.obj);
        case Replaced => r := JoinReplaced(cond, delta.obj);
        case Deleted => r := JoinDeleted(cond, delta.obj);
        case _ => r := Ok([]);
      }
    }

    method JoinAdded(cond: Condition, o: Object) returns (r: Result<seq<Delta>>)
      requires Valid() && GvkOf(o) in baseViewStore
      modifies this
      ensures Valid()
      ensures JoinAddStep(baseviews, cond, old(baseViewStore), o, baseViewStore, r)
    {
      hide RowsThrough, JoinFails;
      var gvk := GvkOf(o);
      var os := EvalJoin(cond, o);
      if os.Err? { return Err(os.error); }
      baseViewStore := baseViewStore[gvk := baseViewStore[gvk][KeyOf(o) := o]];
      r := Ok(AsDeltas(Added, os.value));
    }

    method JoinDeleted(cond: Condition, o: Object) returns (r: Result<seq<Delta>>)
      requires Valid() && GvkOf(o) in baseViewStore
      modifies this
      ensures Valid() && GvkOf(o) in baseViewStore
      ensures JoinDeleteStep(baseviews, cond, old(baseViewStore), o, baseViewStore, r)
      ensures r.Ok? ==> KeyOf(o) !in baseViewStore[GvkOf(o)]
    {
      hide RowsThrough, JoinFails, KeyOf;
      var gvk, key := GvkOf(o), KeyOf(o);
      if key !in baseViewStore[gvk] { return Ok([]); }
      var os := EvalJoin(cond, baseViewStore[gvk][key]);
      if os.Err? { return Err(os.error); }
      baseViewStore := baseViewStore[gvk := baseViewStore[gvk] - {key}];
      r := Ok(AsDeltas(Deleted, os.value));
    }

    /** A delete followed by an add; rows both deleted and added are updated. */
    method JoinReplaced(cond: Condition, o: Object) returns (r: Result<seq<Delta>>)
      requires Valid() && GvkOf(o) in baseViewStore
      modifies this
      ensures Valid()
      ensures JoinReplaceStep(baseviews, cond, old(baseViewStore), o, baseViewStore, r)
      decreases true, true, 0
    {
      hide JoinEval, KeyOf, Retype;
      ghost var st0 := baseViewStore;
      var dels := EvaluateJoin(cond, Delta(Deleted, o));
      ghost var mid := baseViewStore;
      DeletedEvent(baseviews, cond, st0, o, mid, dels);
      if dels.Err? { return Err(dels.error); }
      var adds := EvaluateJoin(cond, Delta(Added, o));
      AddedEvent(baseviews, cond, mid, o, baseViewStore, adds);
      if adds.Err? { return Err(adds.error); }
      var a, m, x := DiffDeltas(dels.value, adds.value);
      r := Ok(x + m + a);
      assert x + m + a == Consolidated(dels.value, adds.value);
    }

    /** Combine the current members and evaluate the condition on the result. */
    method EvalTuple(cond: Condition, current: Tuple) returns (r: Result<Option<Object>>)
      ensures r == match cond(JoinInput(current))
                   case Ok(b) => Ok(if b then Some(JoinObject(current)) else None)
                   case Err(e) => Err(e)
    {
      var input := NewViewObject(TMP_JOIN_VIEW);
      var ids: seq<Ids.Member> := [];
      for i := 0 to |current|
        invariant input == InputFields(current[..i])
        invariant ids == Members(current[..i])
      {
        assert current[..i + 1][..i] == current[..i];
        if current[i].Some? {
          var v := current[i].value;
          input := input[GvkOf(v).kind := Obj(v)];
          ids := ids + [MemberOf(v)];
        }
      }
      assert current[..|current|] == current;
      input := input["metadata" := Obj(map["name" := Str(Ids.JoinId(ids))])];
      match cond(input) {
        case Err(e) => return Err(e);
        case Ok(b) =>
          if !b { return Ok(None); }
          return Ok(Some(SetContent(input, input)));
      }
    }

    method EvalJoin(cond: Condition, obj: Object) returns (r: Result<seq<Object>>)
      requires Valid()
      ensures JoinEval(baseviews, cond, baseViewStore, obj, r)
      ensures r.Ok? && (forall t :: IsThrough(baseviews, baseViewStore, obj, t) ==> Matches(cond, t)) ==>
                |r.value| == ProductSize(baseviews, baseViewStore, GvkOf(obj), 0)
    {
      hide JoinInput, JoinObject, GvkOf, ProductSize;
      if |baseviews| < 2 { return Err(TooFewViews); }
      ghost var ts;
      r, ts := RecurseProd(cond, obj, [], [], 0);
      AllContinuations(baseviews, baseViewStore, obj);
      if r.Ok? {
        assert EnumeratesThrough(baseviews, baseViewStore, obj, ts);
        assert [] + SelectRows(cond, ts) == SelectRows(cond, ts);
        if forall t :: t in ts ==> Matches(cond, t) { SelectAllRows(cond, ts); }
      }
    }

    /** The product is exact: every tuple that continues `current` is evaluated once and nothing else,
        and matching rows are appended to `ret`. Only an evaluation error cuts it short. */
    method RecurseProd(cond: Condition, obj: Object, current: Tuple, ret: seq<Object>, depth: nat)
      returns (r: Result<seq<Object>>, ghost ts: seq<Tuple>)
      requires Valid()
      requires |current| == depth <= |baseviews|
      ensures r.Ok? <==> forall t :: Continues(baseviews, baseViewStore, obj, current, t) ==> cond(JoinInput(t)).Ok?
      ensures r.Ok? ==> Enumerates(baseviews, baseViewStore, obj, current, ts)
      ensures r.Ok? ==> |ts| == ProductSize(baseviews, baseViewStore, GvkOf(obj), depth)
      ensures r.Ok? ==> r.value == ret + SelectRows(cond, ts)
      decreases |baseviews| - depth
    {
      hide JoinInput, JoinObject, GvkOf;
      ts := [];
      if depth == |baseviews| {
        LastContinuation(baseviews, baseViewStore, obj, current);
        var x := EvalTuple(cond, current);
        match x {
          case Err(e) => return Err(e), [];
          case Ok(row) =>
            ts := [current];
            assert SelectRows(cond, ts) == AsSeq(row) by { assert ts[..0] == []; }
            return Ok(if row.Some? then ret + [row.value] else ret), ts;
        }
      }
      var view := baseviews[depth];
      if GvkOf(obj) == view {
        ForcedSlot(baseviews, baseViewStore, obj, current, Some(obj));
        r, ts := RecurseProd(cond, obj, current + [Some(obj)], ret, depth + 1);
      } else if view !in baseViewStore {
        ForcedSlot(baseviews, baseViewStore, obj, current, None);
        r, ts := RecurseProd(cond, obj, current + [None], ret, depth + 1);
      } else {
        r, ts := RecurseOver(cond, obj, current, ret, depth);
      }
    }

    /** The loop of `recurseProd` over the objects of another view's store. */
    method RecurseOver(cond: Condition, obj: Object, current: Tuple, ret: seq<Object>, depth: nat)
      returns (r: Result<seq<Object>>, ghost ts: seq<Tuple>)
      requires Valid()
      requires |current| == depth < |baseviews|
      requires baseviews[depth] != GvkOf(obj) && baseviews[depth] in baseViewStore
      ensures r.Ok? <==> forall t :: Continues(baseviews, baseViewStore, obj, current, t) ==> cond(JoinInput(t)).Ok?
      ensures r.Ok? ==> Enumerates(baseviews, baseViewStore, obj, current, ts)
      ensures r.Ok? ==> |ts| == ProductSize(baseviews, baseViewStore, GvkOf(obj), depth)
      ensures r.Ok? ==> r.value == ret + SelectRows(cond, ts)
      decreases |baseviews| - depth, 0
    {
      hide Explored, Continues, Enumerates, ProductSize, SelectRows, GvkOf, KeyOf, JoinInput;
      var objs := ListStore(baseViewStore[baseviews[depth]]);
      var acc := ret;
      ts := [];
      NothingExplored(baseviews, baseViewStore, cond, obj, current, ret);
      for i := 0 to |objs|
        invariant Explored(baseviews, baseViewStore, cond, obj, current, objs[..i], ret, acc, ts)
      {
        ghost var us;
        r, us := RecurseProd(cond, obj, current + [Some(objs[i])], acc, depth + 1);
        if r.Err? {
          FailingContinuation(baseviews, baseViewStore, obj, current, objs[i], cond);
          return Err(r.error), [];
        }
        ExploreOne(baseviews, baseViewStore, cond, obj, current, objs, i, ret, acc, ts, us);
        acc := r.value;
        ts := ts + us;
      }
      r := Ok(acc);
      assert objs[..|objs|] == objs;
      AllExplored(baseviews, baseViewStore, cond, obj, current, objs, ret, acc, ts);
    }
  }

  /** Progress of the loop: the continuations through the objects in `done` have been listed and their
      matching rows appended. */
  ghost predicate Explored(views: seq<GVK>, st: Stores, cond: Condition, o: Object, current: Tuple,
                           done: seq<Object>, ret: seq<Object>, acc: seq<Object>, ts: seq<Tuple>) {
    && |current| < |views|
    && acc == ret + SelectRows(cond, ts)
    && |ts| == |done| * ProductSize(views, st, GvkOf(o), |current| + 1)
    && EnumeratesFirst(views, st, o, current, done, ts)
    && forall t :: t in ts ==> cond(JoinInput(t)).Ok?
  }

  lemma NothingExplored(views: seq<GVK>, st: Stores, cond: Condition, o: Object, current: Tuple, ret: seq<Object>)
    requires |current| < |views|
    ensures Explored(views, st, cond, o, current, [], ret, ret, [])
  {
    assert ret + [] == ret;
  }

  lemma OneMore(i: nat, size: nat)
    ensures (i + 1) * size == i * size + size
  {
  }

  lemma AppendAssociates(a: seq<Object>, b: seq<Object>, c: seq<Object>)
    ensures (a + b) + c == a + (b + c)
  {
  }

  lemma ExploreOne(views: seq<GVK>, st: Stores, cond: Condition, o: Object, current: Tuple,
                   objs: seq<Object>, i: nat, ret: seq<Object>, acc: seq<Object>, ts: seq<Tuple>, us: seq<Tuple>)
    requires i < |objs| && NoDuplicates(objs)
    requires Explored(views, st, cond, o, current, objs[..i], ret, acc, ts)
    requires Enumerates(views, st, o, current + [Some(objs[i])], us)
    requires |us| == ProductSize(views, st, GvkOf(o), |current| + 1)
    requires forall t :: Continues(views, st, o, current + [Some(objs[i])], t) ==> cond(JoinInput(t)).Ok?
    ensures Explored(views, st, cond, o, current, objs[..i + 1], ret, acc + SelectRows(cond, us), ts + us)
  {
    hide JoinInput, JoinObject, Continues, SelectRows, GvkOf, ProductSize, EnumeratesFirst;
    assert forall t :: t in us ==> cond(JoinInput(t)).Ok?;
    assert objs[i] !in objs[..i];
    hide NoDuplicates, Enumerates;
    assert objs[..i + 1] == objs[..i] + [objs[i]];
    ExtendEnumeration(views, st, o, current, objs[..i], objs[i], ts, us);
    SelectRowsConcat(cond, ts, us);
    AppendAssociates(ret, SelectRows(cond, ts), SelectRows(cond, us));
    OneMore(i, ProductSize(views, st, GvkOf(o), |current| + 1));
  }

  lemma AllExplored(views: seq<GVK>, st: Stores, cond: Condition, o: Object, current: Tuple,
                    objs: seq<Object>, ret: seq<Object>, acc: seq<Object>, ts: seq<Tuple>)
    requires Explored(views, st, cond, o, current, objs, ret, acc, ts)
    requires views[|current|] != GvkOf(o) && views[|current|] in st
    requires |objs| == |st[views[|current|]]|
    requires forall x :: x in objs <==> x in st[views[|current|]].Values
    ensures Enumerates(views, st, o, current, ts)
    ensures |ts| == ProductSize(views, st, GvkOf(o), |current|)
    ensures forall t :: Continues(views, st, o, current, t) ==> cond(JoinInput(t)).Ok?
    ensures acc == ret + SelectRows(cond, ts)
  {
    hide JoinInput, JoinObject, Continues, SelectRows, GvkOf, EnumeratesFirst;
    EnumerationComplete(views, st, o, current, objs, ts);
  }

  lemma LastContinuation(views: seq<GVK>, st: Stores, o: Object, current: Tuple)
    requires |current| == |views|
    ensures forall t :: Continues(views, st, o, current, t) <==> t == current
  {
    assert current[..|views|] == current;
    forall t | Continues(views, st, o, current, t) ensures t == current { assert t[..|t|] == t; }
  }

  /** A slot with a single admissible value. */
  lemma ForcedSlot(views: seq<GVK>, st: Stores, o: Object, current: Tuple, s: Option<Object>)
    requires |current| < |views|
    requires forall x :: ThroughSlot(views[|current|], st, o, x) <==> x == s
    ensures forall t :: Continues(views, st, o, current, t) <==> Continues(views, st, o, current + [s], t)
  {
    forall t ensures Continues(views, st, o, current, t) <==> Continues(views, st, o, current + [s], t) {
      ContinuesStep(views, st, o, current, t);
      if Continues(views, st, o, current + [s], t) {
        assert t[|current|] == t[..|current| + 1][|current|];
      }
    }
  }

  /** A delete event is always valid; after it the object is unknown, so the add event is valid too. */
  lemma DeletedEvent(views: seq<GVK>, cond: Condition, st: Stores, o: Object, st': Stores, r: Result<seq<Delta>>)
    requires GvkOf(o) in st && JoinStep(views, cond, st, Delta(Deleted, o), st', r)
    ensures JoinDeleteStep(views, cond, st, o, st', r) && GvkOf(o) in st'
    ensures r.Ok? ==> KeyOf(o) !in st'[GvkOf(o)]
  {
    hide JoinEval, KeyOf, GvkOf;
  }

  lemma AddedEvent(views: seq<GVK>, cond: Condition, st: Stores, o: Object, st': Stores, r: Result<seq<Delta>>)
    requires GvkOf(o) in st && KeyOf(o) !in st[GvkOf(o)] && JoinStep(views, cond, st, Delta(Added, o), st', r)
    ensures JoinAddStep(views, cond, st, o, st', r)
  {
    hide JoinEval, KeyOf, GvkOf;
  }

  ghost predicate KeyedStores(st: Stores) {
    forall g :: g in st ==> WellKeyed(st[g])
  }

  lemma AllContinuations(views: seq<GVK>, st: Stores, o: Object)
    ensures forall t :: Continues(views, st, o, [], t) <==> IsThrough(views, st, o, t)
  {
  }

  /** `ts` lists the continuations of `current` whose next slot is among `done`, each once. */
  ghost predicate EnumeratesFirst(views: seq<GVK>, st: Stores, o: Object, current: Tuple, done: seq<Object>,
                                  ts: seq<Tuple>) {
    && NoDuplicates(ts)
    && forall t: Tuple :: t in ts <==>
         |current| < |t| && t[|current|].Some? && t[|current|].value in done
         && Continues(views, st, o, current + [t[|current|]], t)
  }

  lemma ExtendEnumeration(views: seq<GVK>, st: Stores, o: Object, current: Tuple, done: seq<Object>, x: Object,
                          ts: seq<Tuple>, us: seq<Tuple>)
    requires x !in done
    requires EnumeratesFirst(views, st, o, current, done, ts)
    requires Enumerates(views, st, o, current + [Some(x)], us)
    ensures EnumeratesFirst(views, st, o, current, done + [x], ts + us)
  {
    var n := |current|;
    forall t ensures t in us <==> n < |t| && t[n] == Some(x) && Continues(views, st, o, current + [t[n]], t) {
      if Continues(views, st, o, current + [Some(x)], t) {
        assert t[n] == t[..n + 1][n];
      }
    }
    forall i, j | 0 <= i < |ts| && 0 <= j < |us| ensures ts[i] != us[j] {
      assert ts[i] in ts && us[j] in us;
    }
  }

  lemma EnumerationComplete(views: seq<GVK>, st: Stores, o: Object, current: Tuple, objs: seq<Object>, ts: seq<Tuple>)
    requires |current| < |views| && views[|current|] != GvkOf(o) && views[|current|] in st
    requires forall x :: x in objs <==> x in st[views[|current|]].Values
    requires EnumeratesFirst(views, st, o, current, objs, ts)
    ensures Enumerates(views, st, o, current, ts)
  {
    forall t ensures t in ts <==> Continues(views, st, o, current, t) {
      ContinuesStep(views, st, o, current, t);
    }
  }

  lemma FailingContinuation(views: seq<GVK>, st: Stores, o: Object, current: Tuple, x: Object, cond: Condition)
    requires |current| < |views| && views[|current|] != GvkOf(o) && views[|current|] in st
    requires x in st[views[|current|]].Values
    requires exists t :: Continues(views, st, o, current + [Some(x)], t) && cond(JoinInput(t)).Err?
    ensures exists t :: Continues(views, st, o, current, t) && cond(JoinInput(t)).Err?
  {
    var t :| Continues(views, st, o, current + [Some(x)], t) && cond(JoinInput(t)).Err?;
    assert t[|current|] == t[..|current| + 1][|current|];
    ContinuesStep(views, st, o, current, t);
  }
}
