/** The refinement theorem: along every well-formed run, what a pipeline emits is exactly what recomputing
    its query over the stores would change. */
module PipelineRefinement {
  import opened JsonTrees
  import opened Objects
  import opened Deltas
  import opened Joins
  import opened JoinMaintenance
  import opened Aggregations
  import opened Engine
  import opened ImageViews
  import opened Feeding
  import opened Pipelines
  import opened JoinRefinement

  ghost function ProjectionOf(a: Aggregate): Projection {
    (o: Object) =>
      match Image(a.view, a.stages, o)
      case Ok(x) => x
      case Err(_) => None
  }

  // ---- The query, recomputed from nothing ----

  const TMP_GVK := ViewGvk(TMP_JOIN_VIEW)

  /** The rows the aggregation works on: the full join, or the only base view. */
  ghost function Source(c: Config, st: Stores): Keyed {
    if c.join.Some? then JoinView(c.views, c.join.value, st)
    else if c.views == [] then map[]
    else StoreAt(st, c.views[0])
  }

  /** The result of the whole query. */
  ghost function Query(c: Config, st: Stores): Keyed {
    if c.aggregation.Some? then ImageView(ProjectionOf(c.aggregation.value), Source(c, st)) else Source(c, st)
  }

  // ---- Well-formed configurations, states and steps ----

  /** A join over well-formed views, or an aggregation over a single view. */
  ghost predicate WfConfig(c: Config) {
    if c.join.Some? then WfViews(c.views)
    else |c.views| == 1 && c.aggregation.Some?
  }

  /** What every step keeps; with a join and an aggregation the temporary store materialises the join. */
  ghost predicate Consistent(c: Config, st: Stores) {
    if c.join.Some? then
      && StoresOk(c.views, st)
      && (c.aggregation.Some? ==> StoreAt(st, TMP_GVK) == JoinView(c.views, c.join.value, st))
    else WellKeyed(Source(c, st))
  }

  ghost predicate WfStep(c: Config, st: Stores, d: Delta) {
    WfEvent(c.views, st, d) && (c.join.Some? ==> SafeEvent(c.views, c.join.value, st, d))
  }

  /** Projected keys are unique before and after, and none passes between two rows that both survive. */
  ghost predicate KeysWellBehaved(c: Config, st: Stores, st': Stores) {
    c.aggregation.Some? ==>
      var p := ProjectionOf(c.aggregation.value);
      && Injective(p, Source(c, st)) && Injective(p, Source(c, st'))
      && KeysStay(p, Source(c, st), Source(c, st'))
  }

  // ---- The aggregation ----

  /** A change that is not a duplicate and does not add over a known object. */
  ghost predicate Proper(d: Delta, v: Keyed) {
    && d.typ != Sync
    && (d.typ == Added ==> DeltaKey(d) !in v)
    && (d.typ != Deleted && DeltaKey(d) in v ==> v[DeltaKey(d)] != d.obj)
  }

  /** A successful aggregation step applies the event to its store and replaces the image of the row. */
  lemma AggregateStepFeeds(a: Aggregate, st: Stores, d: Delta)
    requires Proper(d, StoreAt(st, GvkOf(d.obj))) && AggregateStep(a, st, d).1.Ok?
    ensures var p, v, k := ProjectionOf(a), StoreAt(st, GvkOf(d.obj)), DeltaKey(d);
            && AggregateStep(a, st, d).0 == InitStore(st, GvkOf(d.obj))[GvkOf(d.obj) := ApplyOne(d, v)]
            && AggregateStep(a, st, d).1.value ==
               ImageDeltas(ImageOf(p, Lookup(v, k)), ImageOf(p, Lookup(ApplyOne(d, v), k)))
  {
    hide KeyOf, GvkOf, Image;
    var g, k := GvkOf(d.obj), DeltaKey(d);
    var st0, v := InitStore(st, g), StoreAt(st, g);
    assert (v - {k})[k := d.obj] == v[k := d.obj];
    if k !in v { assert v - {k} == v; }
    assert st0[g := v] == st0;
    assert st0[g := v - {k}][g := v[k := d.obj]] == st0[g := v[k := d.obj]];
  }

  /** Feeding a prefix of an exact difference to the aggregation. */
  lemma {:induction false} AggregateAllFeeds(a: Aggregate, st: Stores, gvk: GVK, w: Keyed, ds: seq<Delta>, n: nat)
    requires MinimalDiff(ds, StoreAt(st, gvk), w) && Rows(ds, gvk) && n <= |ds|
    requires AggregateAll(a, st, ds[..n]).1.Ok?
    ensures AggregateAll(a, st, ds[..n]).1.value == Feed(ProjectionOf(a), StoreAt(st, gvk), ds[..n])
    ensures StoreAt(AggregateAll(a, st, ds[..n]).0, gvk) == Apply(ds[..n], StoreAt(st, gvk))
    ensures forall g :: g != gvk ==> StoreAt(AggregateAll(a, st, ds[..n]).0, g) == StoreAt(st, g)
  {
    var v := StoreAt(st, gvk);
    if n > 0 {
      var pre, d := ds[..n - 1], ds[n - 1];
      assert ds[..n][..n - 1] == pre && ds[..n][n - 1] == d;
      assert d in ds;
      AggregateAllFeeds(a, st, gvk, w, ds, n - 1);
      var st1 := AggregateAll(a, st, pre).0;
      FedRow(v, w, ds, n);
      assert Proper(d, StoreAt(st1, gvk)) by {
        assert Lookup(StoreAt(st1, gvk), DeltaKey(d)) == Lookup(v, DeltaKey(d));
        assert DiffDelta(d, v, w);
      }
      AggregateStepFeeds(a, st1, d);
    }
  }

  ghost predicate AllImages(a: Aggregate, v: Keyed) {
    forall k :: k in v ==> Image(a.view, a.stages, v[k]).Ok?
  }

  /** The old and the new version of row `k` have images. */
  ghost predicate RowEvaluates(a: Aggregate, v: Keyed, w: Keyed, k: string) {
    (k in v ==> Image(a.view, a.stages, v[k]).Ok?) && (k in w ==> Image(a.view, a.stages, w[k]).Ok?)
  }

  /** Feeding a difference succeeds if and only if the changed rows evaluate, in whatever order. */
  lemma {:induction false} FeedingSucceedsIff(a: Aggregate, st: Stores, gvk: GVK, w: Keyed, ds: seq<Delta>, n: nat)
    requires MinimalDiff(ds, StoreAt(st, gvk), w) && Rows(ds, gvk) && n <= |ds|
    ensures AggregateAll(a, st, ds[..n]).1.Ok? <==>
              forall i :: 0 <= i < n ==> RowEvaluates(a, StoreAt(st, gvk), w, DeltaKey(ds[i]))
  {
    hide Image;
    if n > 0 {
      var pre, d, v := ds[..n - 1], ds[n - 1], StoreAt(st, gvk);
      assert ds[..n][..n - 1] == pre && ds[..n][n - 1] == d;
      assert d in ds;
      FeedingSucceedsIff(a, st, gvk, w, ds, n - 1);
      if AggregateAll(a, st, pre).1.Ok? {
        AggregateAllFeeds(a, st, gvk, w, ds, n - 1);
        var st1 := AggregateAll(a, st, pre).0;
        FedRow(v, w, ds, n);
        assert Lookup(StoreAt(st1, gvk), DeltaKey(d)) == Lookup(v, DeltaKey(d));
        assert DiffDelta(d, v, w);
        RowSucceedsIff(a, st1, d, v, w);
        hide MinimalDiff, KeyOf, GvkOf, RowEvaluates, AggregateStep, Rows;
        assert AggregateAll(a, st, ds[..n]).1.Ok? <==> AggregateStep(a, st1, d).1.Ok?;
        assert forall i :: 0 <= i < n ==> i < n - 1 || ds[i] == d;
      }
    }
  }

  lemma RowSucceedsIff(a: Aggregate, st: Stores, d: Delta, v: Keyed, w: Keyed)
    requires DiffDelta(d, v, w) && Lookup(StoreAt(st, GvkOf(d.obj)), DeltaKey(d)) == Lookup(v, DeltaKey(d))
    ensures AggregateStep(a, st, d).1.Ok? <==> RowEvaluates(a, v, w, DeltaKey(d))
  {
    hide Image, KeyOf, GvkOf, ImageDeltas;
  }

  lemma {:induction false} FeedIsSettled(p: Projection, v: Keyed, ds: seq<Delta>)
    ensures forall d :: d in Feed(p, v, ds) ==> Settled(d)
  {
    hide KeyOf, ImageOf, Apply;
    if ds != [] {
      var k := DeltaKey(ds[|ds| - 1]);
      var before, after := Lookup(Apply(ds[..|ds| - 1], v), k), Lookup(Apply(ds, v), k);
      FeedIsSettled(p, v, ds[..|ds| - 1]);
      ImageDeltasKeys(ImageOf(p, before), ImageOf(p, after));
    }
  }

  /** What a list of deltas, made from the difference `ds` of two views, does to the projected view: with
      unique keys it leads to the recomputed one if and only if no key is claimed before it is released,
      and then each delta is valid in turn. */
  ghost predicate ProjectsIff(p: Projection, v: Keyed, w: Keyed, ds: seq<Delta>, out: seq<Delta>) {
    Injective(p, v) && Injective(p, w) ==>
      && (Apply(out, ImageView(p, v)) == ImageView(p, w) <==> NonePasses(p, v, w, ds))
      && (NonePasses(p, v, w, ds) ==> Strict(out, ImageView(p, v)))
  }

  /** Feeding an exact difference and collapsing the result: the store of the rows is brought up to date in
      any case, and the projected view under the exact condition on keys. */
  lemma OutputOfDifference(a: Aggregate, st: Stores, gvk: GVK, w: Keyed, ds: seq<Delta>, st': Stores,
                           all: seq<Delta>, out: seq<Delta>)
    requires MinimalDiff(ds, StoreAt(st, gvk), w) && Rows(ds, gvk)
    requires AggregateAll(a, st, ds) == (st', Ok(all)) && IsCollapse(all, out)
    ensures StoreAt(st', gvk) == w
    ensures forall g :: g != gvk ==> StoreAt(st', g) == StoreAt(st, g)
    ensures ProjectsIff(ProjectionOf(a), StoreAt(st, gvk), w, ds, out)
  {
    hide *;
    var p, v := ProjectionOf(a), StoreAt(st, gvk);
    assert ds[..|ds|] == ds;
    AggregateAllFeeds(a, st, gvk, w, ds, |ds|);
    MinimalDiffApplies(ds, v, w);
    FeedIsSettled(p, v, ds);
    CollapsePreservesMeaning(all, out, ImageView(p, v));
    CollapsedProjects(p, v, w, ds, all, out);
  }

  lemma CollapsedProjects(p: Projection, v: Keyed, w: Keyed, ds: seq<Delta>, all: seq<Delta>, out: seq<Delta>)
    requires MinimalDiff(ds, v, w) && all == Feed(p, v, ds) && IsCollapse(all, out)
    requires Apply(out, ImageView(p, v)) == Apply(all, ImageView(p, v))
    ensures ProjectsIff(p, v, w, ds, out)
  {
    hide Injective, ImageView, MinimalDiff, IsCollapse, Feed, Apply, Strict, NonePasses;
    if Injective(p, v) && Injective(p, w) {
      FeedCorrectIff(p, v, w, ds);
      if NonePasses(p, v, w, ds) {
        FeedCorrect(p, v, w, ds);
        CollapseKeepsStrict(all, out, ImageView(p, v));
      }
    }
  }

  /** The join depends on the stores of its views only. */
  lemma JoinViewByStores(views: seq<GVK>, cond: Condition, st: Stores, st': Stores)
    requires forall g :: g in views ==> StoreAt(st, g) == StoreAt(st', g)
    ensures JoinView(views, cond, st) == JoinView(views, cond, st')
    ensures StoresOk(views, st) <==> StoresOk(views, st')
  {
    hide JoinObject, JoinInput;
    forall t ensures t in Tuples(views, st) <==> t in Tuples(views, st') {
      TuplesExact(views, st, t);
      TuplesExact(views, st', t);
      TupleByStores(views, st, t);
      TupleByStores(views, st', t);
    }
    assert Tuples(views, st) == Tuples(views, st');
    assert JoinRows(views, cond, st) == JoinRows(views, cond, st');
    StoresOkByStores(views, st, st');
  }

  lemma TupleByStores(views: seq<GVK>, st: Stores, t: Tuple)
    ensures IsTuple(views, st, t) <==>
              |t| == |views| && forall i :: 0 <= i < |t| ==> t[i].Some? && t[i].value in StoreAt(st, views[i]).Values
  {
  }

  lemma StoresOkByStores(views: seq<GVK>, st: Stores, st': Stores)
    requires forall g :: g in views ==> StoreAt(st, g) == StoreAt(st', g)
    ensures StoresOk(views, st) <==> StoresOk(views, st')
  {
    hide KeyOf, MemberOk;
    forall s: Stores ensures StoresOk(views, s) <==> forall g :: g in views ==> StoreOk(views, g, StoreAt(s, g)) {
    }
  }

  // ---- One step ----

  /** The stores stay consistent and hold the last version of every object. */
  ghost predicate StoresCorrect(c: Config, st: Stores, d: Delta, st': Stores) {
    Consistent(c, st') && forall g :: g in c.views ==> StoreAt(st', g) == StoreAt(StoresAfter(st, d), g)
  }

  /** Also, the emitted deltas are accepted one by one by a target holding the old query result and leave it
      holding the new one. */
  ghost predicate StepCorrect(c: Config, st: Stores, d: Delta, st': Stores, out: seq<Delta>) {
    && StoresCorrect(c, st, d, st')
    && Strict(out, Query(c, st))
    && Apply(out, Query(c, st)) == Query(c, st')
  }

  lemma IgnoredEvent(c: Config, st: Stores, d: Delta)
    requires WfConfig(c) && Consistent(c, st) && WfStep(c, st, d)
    requires d.typ == Sync || !ValidEvent(InitStore(st, GvkOf(d.obj)), d)
    ensures StepCorrect(c, st, d, InitStore(st, GvkOf(d.obj)), [])
  {
    hide KeyOf, GvkOf, WfViews, StoresOk, Injective, KeysStay, ImageView, JoinView;
    var g := GvkOf(d.obj);
    var st0 := InitStore(st, g);
    assert forall x :: StoreAt(st0, x) == StoreAt(st, x);
    if c.join.Some? { JoinViewByStores(c.views, c.join.value, st, st0); }
    if d.typ != Sync {
      assert st0[g][DeltaKey(d) := d.obj] == st0[g];
    }
  }

  lemma JoinOnlyStep(c: Config, st: Stores, d: Delta, st': Stores, ds: seq<Delta>)
    requires WfConfig(c) && Consistent(c, st) && WfStep(c, st, d) && c.join.Some? && c.aggregation.None?
    requires JoinStep(c.views, c.join.value, st, d, st', Ok(ds))
    ensures StepCorrect(c, st, d, st', ds)
  {
    hide KeyOf, GvkOf, WfViews, StoresOk, JoinView, JoinStep, MinimalDiff, StoresAfter, WfEvent, SafeEvent;
    JoinStepIsExactDifference(c.views, c.join.value, st, d, st', ds);
    MinimalDiffApplies(ds, Source(c, st), Source(c, st'));
  }

  lemma JoinAggregateStep(c: Config, st: Stores, d: Delta, mid: Stores, ds: seq<Delta>, st': Stores, out: seq<Delta>)
    requires WfConfig(c) && Consistent(c, st) && WfStep(c, st, d) && c.join.Some? && c.aggregation.Some?
    requires JoinStep(c.views, c.join.value, st, d, mid, Ok(ds)) && OutputStep(c, mid, ds, st', Ok(out))
    ensures StoresCorrect(c, st, d, st') && MinimalDiff(ds, Source(c, st), Source(c, st'))
    ensures ProjectsIff(ProjectionOf(c.aggregation.value), Source(c, st), Source(c, st'), ds, out)
  {
    hide KeyOf, GvkOf, WfViews, StoresOk, JoinView, JoinStep, MinimalDiff, SafeEvent,
         Injective, KeysStay, ImageView, AggregateAll, IsCollapse, Rows, Apply, Strict, ProjectionOf, ProjectsIff;
    var views, cond, a := c.views, c.join.value, c.aggregation.value;
    JoinStepIsExactDifference(views, cond, st, d, mid, ds);
    TemporaryStoreUntouched(views, st, d);
    assert StoreAt(mid, TMP_GVK) == Source(c, st);
    var all := AggregateAll(a, mid, ds).1.value;
    OutputOfDifference(a, mid, TMP_GVK, Source(c, mid), ds, st', all, out);
    assert TMP_GVK !in views by { TemporaryViewIsOurs(views); }
    JoinViewByStores(views, cond, mid, st');
  }

  lemma TemporaryViewIsOurs(views: seq<GVK>)
    requires WfViews(views)
    ensures TMP_GVK !in views
  {
  }

  lemma TemporaryStoreUntouched(views: seq<GVK>, st: Stores, d: Delta)
    requires WfViews(views) && GvkOf(d.obj) in views
    ensures StoreAt(StoresAfter(st, d), TMP_GVK) == StoreAt(st, TMP_GVK)
  {
    hide KeyOf, GvkOf;
  }

  /** An aggregation over a single view applies the event to its store, and emits what replaces the image of
      the changed row. */
  lemma AggregateOnlyStores(c: Config, st: Stores, d: Delta)
    requires WfConfig(c) && Consistent(c, st) && WfStep(c, st, d) && c.join.None?
    requires GvkOf(d.obj) in st && ValidEvent(st, d) && d.typ != Sync
    requires AggregateStep(c.aggregation.value, st, d).1.Ok?
    ensures var p, v, w, k := ProjectionOf(c.aggregation.value), Source(c, st), ApplyOne(d, Source(c, st)), DeltaKey(d);
            && Source(c, AggregateStep(c.aggregation.value, st, d).0) == w && DiffersAt(v, w, k)
            && AggregateStep(c.aggregation.value, st, d).1.value
               == ImageDeltas(ImageOf(p, Lookup(v, k)), ImageOf(p, Lookup(w, k)))
    ensures StoresCorrect(c, st, d, AggregateStep(c.aggregation.value, st, d).0)
  {
    hide GvkOf, KeyOf, Image, ImageDeltas, ProjectionOf, AggregateStep;
    var g, a := GvkOf(d.obj), c.aggregation.value;
    assert c.views[0] == g && Source(c, st) == StoreAt(st, g);
    AggregateStepFeeds(a, st, d);
    assert StoresAfter(st, d)[g] == ApplyOne(d, StoreAt(st, g));
  }

  lemma AggregateOnlyStep(c: Config, st: Stores, d: Delta, st': Stores, all: seq<Delta>, out: seq<Delta>)
    requires WfConfig(c) && Consistent(c, st) && WfStep(c, st, d) && c.join.None?
    requires GvkOf(d.obj) in st && ValidEvent(st, d) && d.typ != Sync
    requires AggregateStep(c.aggregation.value, st, d) == (st', Ok(all)) && IsCollapse(all, out)
    requires Injective(ProjectionOf(c.aggregation.value), Source(c, st))
    requires Injective(ProjectionOf(c.aggregation.value), Source(c, st'))
    ensures StepCorrect(c, st, d, st', out)
  {
    hide GvkOf, KeyOf, Injective, ImageView, IsCollapse, ImageDeltas, ProjectionOf, AggregateStep, Apply, Strict,
         Source, StoresCorrect, Consistent, WfStep, DiffersAt;
    var p, v, w, k := ProjectionOf(c.aggregation.value), Source(c, st), Source(c, st'), DeltaKey(d);
    AggregateOnlyStores(c, st, d);
    RowChange(p, v, w, k);
    ImageDeltasKeys(ImageOf(p, Lookup(v, k)), ImageOf(p, Lookup(w, k)));
    CollapsePreservesMeaning(all, out, ImageView(p, v));
    CollapseKeepsStrict(all, out, ImageView(p, v));
  }

  lemma SingleDelta(a: Aggregate, st: Stores, d: Delta)
    ensures AggregateAll(a, st, [d]).0 == AggregateStep(a, st, d).0
    ensures AggregateAll(a, st, [d]).1 == AggregateStep(a, st, d).1
  {
    hide AggregateStep;
    assert [d][..0] == [];
    assert AggregateAll(a, st, []) == (st, Ok([]));
    if AggregateStep(a, st, d).1.Ok? {
      assert [] + AggregateStep(a, st, d).1.value == AggregateStep(a, st, d).1.value;
    }
  }

  /** Creating an empty store changes nothing a step depends on. */
  lemma InitIsTransparent(c: Config, st: Stores, d: Delta)
    requires WfConfig(c) && Consistent(c, st)
    ensures var st0 := InitStore(st, GvkOf(d.obj));
            && Source(c, st0) == Source(c, st)
            && Consistent(c, st0)
            && (WfStep(c, st0, d) <==> WfStep(c, st, d))
            && StoresAfter(st0, d) == StoresAfter(st, d)
  {
    hide GvkOf, KeyOf, WfViews, StoresOk, JoinView, SafeEvent;
    var st0 := InitStore(st, GvkOf(d.obj));
    assert forall x :: StoreAt(st0, x) == StoreAt(st, x);
    if c.join.Some? {
      JoinViewByStores(c.views, c.join.value, st, st0);
      if GvkOf(d.obj) in c.views { InitKeepsSafe(c.views, c.join.value, st, d); }
    }
  }

  /** The refinement step: on a well-formed event in a consistent state, whatever the iteration orders, a
      successful evaluation emits deltas that take the old query result strictly to the new one. */
  lemma PipelineStepRefines(c: Config, st: Stores, d: Delta, st': Stores, out: seq<Delta>)
    requires WfConfig(c) && Consistent(c, st) && WfStep(c, st, d)
    requires PipelineStep(c, st, d, st', Ok(out)) && KeysWellBehaved(c, st, st')
    ensures StepCorrect(c, st, d, st', out)
  {
    hide GvkOf, KeyOf, WfConfig, Consistent, WfStep, JoinStep, IsCollapse, ProjectionOf, Source, Query,
         Apply, Strict, AggregateStep, StoresAfter, Injective, KeysStay;
    var st0 := InitStore(st, GvkOf(d.obj));
    if !ValidEvent(st0, d) {
      IgnoredEvent(c, st, d);
    } else {
      InitIsTransparent(c, st, d);
      var mid: Stores, js :| SourceStep(c, st0, d, mid, js) && js.Ok? && OutputStep(c, mid, js.value, st', Ok(out));
      if c.join.Some? {
        JoinedStepRefines(c, st0, d, mid, js.value, st', out);
      } else {
        SingleSourceRefines(c, st0, d, st', out);
      }
      SameStart(c, st, st0, d, st', out);
    }
  }

  lemma SameStart(c: Config, st: Stores, st0: Stores, d: Delta, st': Stores, out: seq<Delta>)
    requires StepCorrect(c, st0, d, st', out)
    requires Source(c, st0) == Source(c, st) && StoresAfter(st0, d) == StoresAfter(st, d)
    ensures StepCorrect(c, st, d, st', out)
  {
    hide Source, StoresAfter, Consistent, ProjectionOf, ImageView;
  }

  lemma SingleSourceRefines(c: Config, st: Stores, d: Delta, st': Stores, out: seq<Delta>)
    requires WfConfig(c) && Consistent(c, st) && WfStep(c, st, d) && c.join.None?
    requires GvkOf(d.obj) in st && ValidEvent(st, d)
    requires OutputStep(c, st, [d], st', Ok(out))
    requires c.aggregation.Some? ==>
               && Injective(ProjectionOf(c.aggregation.value), Source(c, st))
               && Injective(ProjectionOf(c.aggregation.value), Source(c, st'))
    ensures StepCorrect(c, st, d, st', out)
  {
    hide GvkOf, KeyOf, Consistent, WfStep, IsCollapse, ProjectionOf, Source, Query, StepCorrect, AggregateStep,
         ValidEvent, Injective;
    var a := c.aggregation.value;
    SingleDelta(a, st, d);
    var all := AggregateStep(a, st, d).1.value;
    if d.typ == Sync {
      SyncYieldsNothing(a, st, d, out);
      IgnoredEvent(c, st, d);
    } else {
      AggregateOnlyStep(c, st, d, st', all, out);
    }
  }

  lemma SyncYieldsNothing(a: Aggregate, st: Stores, d: Delta, out: seq<Delta>)
    requires d.typ == Sync
    ensures AggregateStep(a, st, d) == (InitStore(st, GvkOf(d.obj)), Ok([]))
    ensures IsCollapse([], out) ==> out == []
  {
    assert |out| > 0 ==> out[0] in out;
  }

  lemma JoinedStepRefines(c: Config, st: Stores, d: Delta, mid: Stores, ds: seq<Delta>, st': Stores, out: seq<Delta>)
    requires WfConfig(c) && Consistent(c, st) && WfStep(c, st, d) && c.join.Some?
    requires JoinStep(c.views, c.join.value, st, d, mid, Ok(ds))
    requires OutputStep(c, mid, ds, st', Ok(out))
    requires KeysWellBehaved(c, st, st')
    ensures StepCorrect(c, st, d, st', out)
  {
    hide GvkOf, KeyOf, WfConfig, Consistent, WfStep, JoinStep, IsCollapse, ProjectionOf, Query, StepCorrect,
         AggregateAll, Injective, KeysStay, JoinView;
    if c.aggregation.None? {
      JoinOnlyStep(c, st, d, st', ds);
    } else {
      JoinAggregateStep(c, st, d, mid, ds, st', out);
      KeysStaySuffices(ProjectionOf(c.aggregation.value), Source(c, st), Source(c, st'), ds);
      assert StepCorrect(c, st, d, st', out) by { StepOfProjection(c, st, d, st', ds, out); }
    }
  }

  lemma StepOfProjection(c: Config, st: Stores, d: Delta, st': Stores, ds: seq<Delta>, out: seq<Delta>)
    requires c.aggregation.Some? && StoresCorrect(c, st, d, st')
    requires var p := ProjectionOf(c.aggregation.value);
             && Injective(p, Source(c, st)) && Injective(p, Source(c, st'))
             && NonePasses(p, Source(c, st), Source(c, st'), ds)
             && ProjectsIff(p, Source(c, st), Source(c, st'), ds, out)
    ensures StepCorrect(c, st, d, st', out)
  {
    hide StoresCorrect, Source, Injective, NonePasses, ProjectionOf, Apply, Strict, ImageView;
  }

  /** The exact condition for one event of a pipeline with a join and an aggregation, whatever the listing
      orders: the stores are brought up to date in any case; and while projected keys are unique before and
      after, the collapsed output leads to the recomputed query if and only if the join's deltas claim no
      projected key before releasing it. */
  lemma PipelineStepCorrectIff(c: Config, st: Stores, d: Delta, mid: Stores, ds: seq<Delta>, st': Stores,
                               out: seq<Delta>)
    requires WfConfig(c) && Consistent(c, st) && WfStep(c, st, d) && c.join.Some? && c.aggregation.Some?
    requires var st0 := InitStore(st, GvkOf(d.obj));
             ValidEvent(st0, d) && SourceStep(c, st0, d, mid, Ok(ds)) && OutputStep(c, mid, ds, st', Ok(out))
    ensures PipelineStep(c, st, d, st', Ok(out))
    ensures StoresCorrect(c, st, d, st') && MinimalDiff(ds, Source(c, st), Source(c, st'))
    ensures var p := ProjectionOf(c.aggregation.value);
            Injective(p, Source(c, st)) && Injective(p, Source(c, st')) ==>
              (Apply(out, Query(c, st)) == Query(c, st') <==> NonePasses(p, Source(c, st), Source(c, st'), ds))
  {
    hide GvkOf, KeyOf, WfConfig, Consistent, WfStep, JoinStep, IsCollapse, ProjectionOf, Source, MinimalDiff,
         Apply, Strict, AggregateAll, StoresAfter, Injective, NonePasses, ImageView;
    var st0 := InitStore(st, GvkOf(d.obj));
    InitIsTransparent(c, st, d);
    JoinAggregateStep(c, st0, d, mid, ds, st', out);
    var js: Result<seq<Delta>> := Ok(ds);
    assert SourceStep(c, st0, d, mid, js) && js.Ok? && OutputStep(c, mid, js.value, st', Ok(out));
  }

  // ---- Runs ----

  /** A run from the empty engine in which every evaluation succeeds. */
  ghost predicate Run(c: Config, events: seq<Delta>, states: seq<Stores>, outs: seq<seq<Delta>>) {
    && |states| == |events| + 1 && |outs| == |events|
    && states[0] == map[]
    && forall i :: 0 <= i < |events| ==> PipelineStep(c, states[i], events[i], states[i + 1], Ok(outs[i]))
  }

  ghost predicate WfRun(c: Config, events: seq<Delta>, states: seq<Stores>) {
    && |states| == |events| + 1
    && forall i :: 0 <= i < |events| ==>
         WfStep(c, states[i], events[i]) && KeysWellBehaved(c, states[i], states[i + 1])
  }

  function Flatten(outs: seq<seq<Delta>>): seq<Delta> {
    if outs == [] then [] else Flatten(outs[..|outs| - 1]) + outs[|outs| - 1]
  }

  /** The stores after a list of events, computed the simple way. */
  function StoresAfterAll(events: seq<Delta>): Stores {
    if events == [] then map[] else StoresAfter(StoresAfterAll(events[..|events| - 1]), events[|events| - 1])
  }

  /** The stores need no condition on projected keys: every successful step brings them up to date. */
  lemma StoresStep(c: Config, st: Stores, d: Delta, st': Stores, out: seq<Delta>)
    requires WfConfig(c) && Consistent(c, st) && WfStep(c, st, d)
    requires PipelineStep(c, st, d, st', Ok(out))
    ensures StoresCorrect(c, st, d, st')
  {
    hide GvkOf, KeyOf, WfConfig, Consistent, WfStep, JoinStep, IsCollapse, ProjectionOf, Source, Query,
         Apply, Strict, AggregateStep, AggregateAll, StoresAfter, ProjectsIff, MinimalDiff;
    var st0 := InitStore(st, GvkOf(d.obj));
    if !ValidEvent(st0, d) {
      IgnoredEvent(c, st, d);
    } else {
      InitIsTransparent(c, st, d);
      var mid: Stores, js :| SourceStep(c, st0, d, mid, js) && js.Ok? && OutputStep(c, mid, js.value, st', Ok(out));
      if c.join.Some? {
        if c.aggregation.Some? {
          JoinAggregateStep(c, st0, d, mid, js.value, st', out);
        } else {
          JoinOnlyStep(c, st0, d, st', js.value);
        }
      } else {
        SingleSourceStores(c, st0, d, st', out);
      }
    }
  }

  lemma SingleSourceStores(c: Config, st: Stores, d: Delta, st': Stores, out: seq<Delta>)
    requires WfConfig(c) && Consistent(c, st) && WfStep(c, st, d) && c.join.None?
    requires GvkOf(d.obj) in st && ValidEvent(st, d)
    requires OutputStep(c, st, [d], st', Ok(out))
    ensures StoresCorrect(c, st, d, st')
  {
    hide GvkOf, KeyOf, Consistent, WfStep, IsCollapse, ProjectionOf, Source, Query, StoresCorrect, AggregateStep,
         ValidEvent;
    SingleDelta(c.aggregation.value, st, d);
    if d.typ == Sync {
      SyncYieldsNothing(c.aggregation.value, st, d, out);
      IgnoredEvent(c, st, d);
    } else {
      AggregateOnlyStores(c, st, d);
    }
  }

  /** After every run of well-formed events, whatever the projected keys, the base stores hold the last version
      of every object, and with a join and an aggregation the temporary store is the full join. */
  lemma {:induction false} RunKeepsStores(c: Config, events: seq<Delta>, states: seq<Stores>, outs: seq<seq<Delta>>)
    requires WfConfig(c) && Run(c, events, states, outs)
    requires forall i :: 0 <= i < |events| ==> WfStep(c, states[i], events[i])
    ensures Consistent(c, states[|events|])
    ensures forall g :: g in c.views ==> StoreAt(states[|events|], g) == StoreAt(StoresAfterAll(events), g)
  {
    hide WfConfig, Consistent, WfStep, PipelineStep, Query, GvkOf, KeyOf;
    if events == [] {
      EmptyEngine(c);
    } else {
      var n := |events| - 1;
      var es, ss, os := events[..n], states[..n + 1], outs[..n];
      RunKeepsStores(c, es, ss, os);
      StoresStep(c, states[n], events[n], states[n + 1], outs[n]);
      StoresAfterByStores(c.views, states[n], StoresAfterAll(es), events[n]);
    }
  }

  lemma EmptyEngine(c: Config)
    requires WfConfig(c)
    ensures Consistent(c, map[]) && Query(c, map[]) == map[]
  {
    hide JoinObject, JoinInput;
    assert |c.views| >= 1;
    if c.join.Some? {
      forall t ensures t !in Tuples(c.views, map[]) {
        TuplesExact(c.views, map[], t);
      }
      assert JoinRows(c.views, c.join.value, map[]) == {};
      assert KeysOf({}) == {};
      assert JoinView(c.views, c.join.value, map[]) == map[];
    }
    assert Source(c, map[]) == map[];
    if c.aggregation.Some? {
      assert ImageRows(ProjectionOf(c.aggregation.value), map[]) == {};
    }
  }

  /** The refinement theorem. After every well-formed run of a pipeline with a join, an aggregation or
      both, for every iteration order of the maps involved:
      the base stores hold the last version of every object; with a join and an aggregation the temporary
      store is the full join of the base stores; folding everything emitted gives exactly the recomputed
      query; and a target fed with the emitted deltas never sees an add of a known key nor an update or
      delete of an unknown one. */
  lemma {:induction false} PipelineRefinesQuery(c: Config, events: seq<Delta>, states: seq<Stores>,
                                                outs: seq<seq<Delta>>)
    requires WfConfig(c) && Run(c, events, states, outs) && WfRun(c, events, states)
    ensures Consistent(c, states[|events|])
    ensures forall g :: g in c.views ==> StoreAt(states[|events|], g) == StoreAt(StoresAfterAll(events), g)
    ensures Apply(Flatten(outs), map[]) == Query(c, states[|events|])
    ensures Strict(Flatten(outs), map[])
  {
    hide WfConfig, Consistent, WfStep, KeysWellBehaved, PipelineStep, Query, Apply, Strict, GvkOf, KeyOf;
    if events == [] {
      EmptyEngine(c);
      EmptyFold();
    } else {
      var n := |events| - 1;
      var es, ss, os := events[..n], states[..n + 1], outs[..n];
      PipelineRefinesQuery(c, es, ss, os);
      assert WfStep(c, states[n], events[n]) && KeysWellBehaved(c, states[n], states[n + 1]);
      PipelineStepRefines(c, states[n], events[n], states[n + 1], outs[n]);
      ApplyConcat(Flatten(os), outs[n], map[]);
      StrictConcat(Flatten(os), outs[n], map[]);
      assert outs[n] == outs[|outs| - 1];
      StoresAfterByStores(c.views, states[n], StoresAfterAll(es), events[n]);
    }
  }

  lemma EmptyFold()
    ensures Apply([], map[]) == map[] && Strict([], map[])
  {
  }

  lemma StoresAfterByStores(views: seq<GVK>, st: Stores, st': Stores, d: Delta)
    requires forall g :: g in views ==> StoreAt(st, g) == StoreAt(st', g)
    ensures forall g :: g in views ==> StoreAt(StoresAfter(st, d), g) == StoreAt(StoresAfter(st', d), g)
  {
    hide GvkOf, KeyOf;
    forall g | g in views ensures StoreAt(StoresAfter(st, d), g) == StoreAt(StoresAfter(st', d), g) {
      StoreAfter(st, d, g);
      StoreAfter(st', d, g);
      hide StoresAfter;
    }
  }

  /** The store an event leaves behind depends on the store it finds, and on no other. */
  lemma StoreAfter(st: Stores, d: Delta, g: GVK)
    ensures StoreAt(StoresAfter(st, d), g) ==
              if g != GvkOf(d.obj) || d.typ == Sync then StoreAt(st, g)
              else if d.typ == Deleted then StoreAt(st, g) - {DeltaKey(d)}
              else StoreAt(st, g)[DeltaKey(d) := d.obj]
  {
    hide GvkOf, KeyOf;
  }
}
