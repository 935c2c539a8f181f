/** Incremental join equals full join: what the join step emits on an event is exactly what recomputing
    the join over the stores would change. */
module JoinRefinement {
  import opened JsonTrees
  import opened Objects
  import opened Deltas
  import opened Joins
  import opened JoinMaintenance
  import opened Aggregations
  import opened Engine

  // ---- Events ----

  function StoreAt(st: Stores, gvk: GVK): Keyed {
    if gvk in st then st[gvk] else map[]
  }

  /** The stores an event should leave behind: each object in its last version. */
  function StoresAfter(st: Stores, d: Delta): Stores {
    var st0 := InitStore(st, GvkOf(d.obj));
    match d.typ
    case Deleted => Remove(st0, GvkOf(d.obj), DeltaKey(d))
    case Sync => st0
    case _ => Put(st0, d.obj)
  }

  /** An event of a base view; an add never overwrites an object with a different one. */
  ghost predicate WfEvent(views: seq<GVK>, st: Stores, d: Delta) {
    && GvkOf(d.obj) in views
    && (d.typ == Added && DeltaKey(d) in StoreAt(st, GvkOf(d.obj)) ==> StoreAt(st, GvkOf(d.obj))[DeltaKey(d)] == d.obj)
  }

  ghost predicate JoinReady(views: seq<GVK>, st: Stores) {
    WfViews(views) && StoresOk(views, st)
  }

  /** The object can take part in the join: its ids can be told apart, and no tuple through it matches
      with a member missing. */
  ghost predicate Joinable(views: seq<GVK>, cond: Condition, st: Stores, o: Object) {
    GvkOf(o) in views && IdSafe(views, o) && Complete(views, cond, st, o)
  }

  /** The same of the stored object of the name of `o`, if there is one. */
  ghost predicate OldComplete(views: seq<GVK>, cond: Condition, st: Stores, o: Object) {
    GvkOf(o) in st && KeyOf(o) in st[GvkOf(o)] ==> Complete(views, cond, st, st[GvkOf(o)][KeyOf(o)])
  }

  /** The objects an event touches can take part in the join. */
  ghost predicate SafeEvent(views: seq<GVK>, cond: Condition, st: Stores, d: Delta) {
    && OldComplete(views, cond, st, d.obj)
    && (d.typ != Deleted && d.typ != Sync ==> Joinable(views, cond, st, d.obj))
  }

  /** With an inner condition a safe event is one whose object has a safe id. */
  lemma InnerIsSafe(views: seq<GVK>, cond: Condition, st: Stores, d: Delta)
    requires JoinReady(views, st) && InnerCondition(views, cond) && GvkOf(d.obj) in views
    ensures SafeEvent(views, cond, st, d) <==> (d.typ != Deleted && d.typ != Sync ==> IdSafe(views, d.obj))
  {
    hide GvkOf, KeyOf, Complete, InnerCondition, WfViews, StoresOk;
    forall o ensures Complete(views, cond, st, o) { InnerIsComplete(views, cond, st, o); }
  }

  lemma InitKeepsJoinView(views: seq<GVK>, cond: Condition, st: Stores, gvk: GVK)
    ensures JoinView(views, cond, InitStore(st, gvk)) == JoinView(views, cond, st)
  {
    hide JoinObject, JoinInput;
    forall t ensures t in Tuples(views, st) <==> t in Tuples(views, InitStore(st, gvk)) {
      TuplesExact(views, st, t);
      TuplesExact(views, InitStore(st, gvk), t);
    }
    assert Tuples(views, st) == Tuples(views, InitStore(st, gvk));
    assert JoinRows(views, cond, st) == JoinRows(views, cond, InitStore(st, gvk));
  }

  // ---- The join ----

  /** What a successful join step guarantees: the stores hold the last version of every object, and the
      emitted rows are the exact difference of the full joins before and after. */
  ghost predicate JoinCorrect(views: seq<GVK>, cond: Condition, st: Stores, d: Delta, st': Stores, ds: seq<Delta>) {
    && st' == StoresAfter(st, d)
    && StoresOk(views, st')
    && MinimalDiff(ds, JoinView(views, cond, st), JoinView(views, cond, st'))
    && Rows(ds, ViewGvk(TMP_JOIN_VIEW))
  }

  lemma NothingEmitted(v: Keyed)
    ensures MinimalDiff([], v, v) && Rows([], ViewGvk(TMP_JOIN_VIEW)) && AllOfType([], Deleted)
  {
  }

  lemma RowsAsDeltas(t: DeltaType, rows: seq<Object>)
    requires TemporaryRows(rows)
    ensures Rows(AsDeltas(t, rows), ViewGvk(TMP_JOIN_VIEW))
    ensures AllOfType(AsDeltas(t, rows), t)
  {
    var ds := AsDeltas(t, rows);
    forall d | d in ds ensures d.typ == t && GvkOf(d.obj) == ViewGvk(TMP_JOIN_VIEW) && NamespaceOf(d.obj) == "" {
      var i :| 0 <= i < |ds| && ds[i] == d;
      assert rows[i] in rows;
    }
  }

  lemma JoinAddCorrect(views: seq<GVK>, cond: Condition, st: Stores, o: Object, st': Stores, ds: seq<Delta>)
    requires JoinReady(views, st) && Joinable(views, cond, st, o) && Fresh(st, o)
    requires JoinAddStep(views, cond, st, o, st', Ok(ds))
    ensures st' == Put(st, o) && StoresOk(views, st')
    ensures MinimalDiff(ds, JoinView(views, cond, st), JoinView(views, cond, st'))
    ensures Rows(ds, ViewGvk(TMP_JOIN_VIEW)) && AllOfType(ds, Added)
  {
    hide RowsThrough, JoinFails, MinimalDiff, JoinView, KeyOf, GvkOf, TemporaryRows;
    var rows :| JoinEval(views, cond, st, o, Ok(rows)) && st' == Put(st, o) && ds == AsDeltas(Added, rows);
    AddIsMinimalDiff(views, cond, st, o, rows);
    PutKeepsStoresOk(views, st, o);
    RowsAsDeltas(Added, rows);
  }

  lemma JoinDeleteCorrect(views: seq<GVK>, cond: Condition, st: Stores, o: Object, st': Stores, ds: seq<Delta>)
    requires JoinReady(views, st) && GvkOf(o) in views && GvkOf(o) in st && OldComplete(views, cond, st, o)
    requires JoinDeleteStep(views, cond, st, o, st', Ok(ds))
    ensures st' == Remove(st, GvkOf(o), KeyOf(o)) && StoresOk(views, st')
    ensures MinimalDiff(ds, JoinView(views, cond, st), JoinView(views, cond, st'))
    ensures Rows(ds, ViewGvk(TMP_JOIN_VIEW)) && AllOfType(ds, Deleted)
  {
    hide RowsThrough, JoinFails, MinimalDiff, JoinView, KeyOf, GvkOf, TemporaryRows;
    var g, k := GvkOf(o), KeyOf(o);
    if k !in st[g] {
      assert st[g] - {k} == st[g];
      assert Remove(st, g, k) == st;
      NothingEmitted(JoinView(views, cond, st));
    } else {
      var rows :| JoinEval(views, cond, st, st[g][k], Ok(rows)) && st' == Remove(st, g, k)
        && ds == AsDeltas(Deleted, rows);
      DeleteIsMinimalDiff(views, cond, st, g, k, rows);
      RemoveThenPut(views, st, g, k);
      RowsAsDeltas(Deleted, rows);
    }
  }

  /** The rows of the two halves of a replacement differ where their keys agree. */
  lemma ReplacedDeltasDiffer(views: seq<GVK>, cond: Condition, st: Stores, o: Object, mid: Stores, dels: seq<Delta>,
                             st': Stores, adds: seq<Delta>, d: Delta, a: Delta)
    requires JoinReady(views, st) && GvkOf(o) in st
    requires Joinable(views, cond, st, o) && OldComplete(views, cond, st, o)
    requires KeyOf(o) in st[GvkOf(o)] ==> st[GvkOf(o)][KeyOf(o)] != o
    requires JoinDeleteStep(views, cond, st, o, mid, Ok(dels)) && mid == Remove(st, GvkOf(o), KeyOf(o))
    requires JoinAddStep(views, cond, mid, o, st', Ok(adds))
    requires d in dels && a in adds
    ensures d.obj != a.obj
  {
    hide MinimalDiff, JoinView, KeyOf, GvkOf, TemporaryRows, JoinFails, IsThrough, RowsThrough, Maintainable, Matches,
         SelectRows;
    var g, k := GvkOf(o), KeyOf(o);
    var news :| JoinEval(views, cond, mid, o, Ok(news)) && adds == AsDeltas(Added, news);
    var old' := st[g][k];
    var olds :| JoinEval(views, cond, st, old', Ok(olds)) && dels == AsDeltas(Deleted, olds);
    RemoveThenPut(views, st, g, k);
    OwnStoreIrrelevant(views, cond, st, mid, old');
    assert Maintainable(views, cond, mid, old') && Maintainable(views, cond, mid, o) by {
      ReadyObjects(views, cond, st, o, mid);
    }
    var i :| 0 <= i < |dels| && dels[i] == d;
    var j :| 0 <= j < |adds| && adds[j] == a;
    ReplacedRowsDiffer(views, cond, mid, old', o, olds, news, olds[i], news[j]);
  }

  lemma ReadyObjects(views: seq<GVK>, cond: Condition, st: Stores, o: Object, mid: Stores)
    requires JoinReady(views, st) && GvkOf(o) in st
    requires Joinable(views, cond, st, o) && OldComplete(views, cond, st, o)
    requires KeyOf(o) in st[GvkOf(o)] && mid == Remove(st, GvkOf(o), KeyOf(o))
    ensures Maintainable(views, cond, mid, o) && Maintainable(views, cond, mid, st[GvkOf(o)][KeyOf(o)])
  {
    hide KeyOf;
    RemoveThenPut(views, st, GvkOf(o), KeyOf(o));
    hide Complete;
    OwnStoreIrrelevant(views, cond, st, mid, o);
    OwnStoreIrrelevant(views, cond, st, mid, st[GvkOf(o)][KeyOf(o)]);
  }

  lemma JoinReplaceCorrect(views: seq<GVK>, cond: Condition, st: Stores, o: Object, st': Stores, ds: seq<Delta>)
    requires JoinReady(views, st) && GvkOf(o) in st
    requires Joinable(views, cond, st, o) && OldComplete(views, cond, st, o)
    requires KeyOf(o) in st[GvkOf(o)] ==> st[GvkOf(o)][KeyOf(o)] != o
    requires JoinReplaceStep(views, cond, st, o, st', Ok(ds))
    ensures st' == Put(st, o) && StoresOk(views, st')
    ensures MinimalDiff(ds, JoinView(views, cond, st), JoinView(views, cond, st'))
    ensures Rows(ds, ViewGvk(TMP_JOIN_VIEW))
  {
    hide MinimalDiff, JoinView, KeyOf, GvkOf, JoinDeleteStep, JoinAddStep, Consolidated, Rows;
    var mid: Stores, rd, ra :| GvkOf(o) in mid && JoinDeleteStep(views, cond, st, o, mid, rd) && rd.Ok?
      && JoinAddStep(views, cond, mid, o, st', ra) && ra.Ok? && ds == Consolidated(rd.value, ra.value);
    JoinHalvesCorrect(views, cond, st, o, mid, rd.value, st', ra.value);
  }

  lemma JoinHalvesCorrect(views: seq<GVK>, cond: Condition, st: Stores, o: Object, mid: Stores, dels: seq<Delta>,
                          st': Stores, adds: seq<Delta>)
    requires JoinReady(views, st) && GvkOf(o) in st
    requires Joinable(views, cond, st, o) && OldComplete(views, cond, st, o)
    requires KeyOf(o) in st[GvkOf(o)] ==> st[GvkOf(o)][KeyOf(o)] != o
    requires JoinDeleteStep(views, cond, st, o, mid, Ok(dels)) && GvkOf(o) in mid
    requires JoinAddStep(views, cond, mid, o, st', Ok(adds))
    ensures st' == Put(st, o) && StoresOk(views, st')
    ensures MinimalDiff(Consolidated(dels, adds), JoinView(views, cond, st), JoinView(views, cond, st'))
    ensures Rows(Consolidated(dels, adds), ViewGvk(TMP_JOIN_VIEW))
  {
    assert GvkOf(o) in views;
    hide *;
    var g, k := GvkOf(o), KeyOf(o);
    var v, x, w := JoinView(views, cond, st), JoinView(views, cond, mid), JoinView(views, cond, st');
    JoinDeleteCorrect(views, cond, st, o, mid, dels);
    StillReady(views, cond, st, o, mid);
    JoinAddCorrect(views, cond, mid, o, st', adds);
    forall d, a | d in dels && a in adds && DeltaKey(d) == DeltaKey(a) ensures d.obj != a.obj {
      ReplacedDeltasDiffer(views, cond, st, o, mid, dels, st', adds, d, a);
    }
    PairOf(dels, adds, v, x, w);
    ConsolidatedIsMinimalDiff(dels, adds, ViewGvk(TMP_JOIN_VIEW), v, x, w);
    ConsolidatedRows(dels, adds, ViewGvk(TMP_JOIN_VIEW));
  }

  lemma StillReady(views: seq<GVK>, cond: Condition, st: Stores, o: Object, mid: Stores)
    requires JoinReady(views, st) && Joinable(views, cond, st, o)
    requires GvkOf(o) in st && mid == Remove(st, GvkOf(o), KeyOf(o)) && StoresOk(views, mid)
    ensures JoinReady(views, mid) && Joinable(views, cond, mid, o) && Fresh(mid, o) && Put(mid, o) == Put(st, o)
  {
    hide KeyOf, GvkOf, WfViews, StoresOk, IdSafe, Complete;
    OwnStoreIrrelevant(views, cond, st, mid, o);
    assert Put(mid, o)[GvkOf(o)] == Put(st, o)[GvkOf(o)];
    assert Put(mid, o) == Put(st, o);
  }

  lemma PairOf(dels: seq<Delta>, adds: seq<Delta>, v: Keyed, mid: Keyed, w: Keyed)
    requires MinimalDiff(dels, v, mid) && AllOfType(dels, Deleted) && Rows(dels, ViewGvk(TMP_JOIN_VIEW))
    requires MinimalDiff(adds, mid, w) && AllOfType(adds, Added) && Rows(adds, ViewGvk(TMP_JOIN_VIEW))
    ensures DeleteAddPair(dels, adds, ViewGvk(TMP_JOIN_VIEW))
  {
    hide KeyOf, GvkOf, NamespaceOf;
  }

  lemma ConsolidatedRows(dels: seq<Delta>, adds: seq<Delta>, gvk: GVK)
    requires DeleteAddPair(dels, adds, gvk)
    ensures Rows(Consolidated(dels, adds), gvk)
  {
    ConsolidatedElements(dels, adds, gvk);
    hide KeyOf, GvkOf, NamespaceOf, Consolidated;
    forall e | e in Consolidated(dels, adds) ensures GvkOf(e.obj) == gvk && NamespaceOf(e.obj) == "" {
      assert ConsolidatedDelta(e, dels, adds);
    }
  }

  lemma InitKeepsSafe(views: seq<GVK>, cond: Condition, st: Stores, d: Delta)
    requires StoresOk(views, st) && GvkOf(d.obj) in views
    ensures SafeEvent(views, cond, st, d) <==> SafeEvent(views, cond, InitStore(st, GvkOf(d.obj)), d)
  {
    hide KeyOf, IdSafe, Complete;
    var g, k, st0 := GvkOf(d.obj), KeyOf(d.obj), InitStore(st, GvkOf(d.obj));
    OwnStoreIrrelevant(views, cond, st, st0, d.obj);
  }

  /** Incremental join equals full join: a successful step on a well-formed event emits the exact
      difference of the recomputed joins. */
  lemma JoinStepIsExactDifference(views: seq<GVK>, cond: Condition, st: Stores, d: Delta, st': Stores, ds: seq<Delta>)
    requires JoinReady(views, st) && WfEvent(views, st, d) && SafeEvent(views, cond, st, d)
    requires JoinStep(views, cond, st, d, st', Ok(ds))
    ensures JoinCorrect(views, cond, st, d, st', ds)
  {
    hide MinimalDiff, JoinView, KeyOf, GvkOf, JoinDeleteStep, JoinAddStep, JoinReplaceStep, Rows, AllOfType, IdSafe,
         Complete;
    var g := GvkOf(d.obj);
    var st0 := InitStore(st, g);
    InitKeepsJoinView(views, cond, st, g);
    InitKeepsSafe(views, cond, st, d);
    assert StoresOk(views, st0);
    if !ValidEvent(st0, d) {
      assert Put(st0, d.obj)[g] == st0[g];
      assert Put(st0, d.obj) == st0;
      NothingEmitted(JoinView(views, cond, st));
    } else {
      match Resolve(st0, d)
      case Added => JoinAddCorrect(views, cond, st0, d.obj, st', ds);
      case Updated => JoinReplaceCorrect(views, cond, st0, d.obj, st', ds);
      case Replaced => JoinReplaceCorrect(views, cond, st0, d.obj, st', ds);
      case Deleted => JoinDeleteCorrect(views, cond, st0, d.obj, st', ds);
      case Sync => NothingEmitted(JoinView(views, cond, st));
    }
  }
}
