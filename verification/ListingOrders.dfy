/** The condition on projected keys, exact at the level of the pipeline: every order in which the rows of a join
    may be listed leads to the recomputed query if and only if no projected key passes between two rows that both
    survive the event. */
module ListingOrders {
  import opened JsonTrees
  import opened Objects
  import opened Deltas
  import opened Joins
  import opened JoinMaintenance
  import opened Aggregations
  import opened Engine
  import opened ImageViews
  import opened Feeding
  import opened UpdateOrders
  import opened Pipelines
  import opened JoinRefinement
  import opened PipelineRefinement

  // ---- Another order of the same rows ----

  lemma {:induction false} RetypeConcat(xs: seq<Delta>, ys: seq<Delta>, others: seq<Delta>, present: bool, t: DeltaType)
    ensures Retype(xs + ys, others, present, t) == Retype(xs, others, present, t) + Retype(ys, others, present, t)
  {
    hide Contains;
    if ys == [] {
      assert xs + ys == xs;
    } else {
      RetypeConcat(xs, ys[..|ys| - 1], others, present, t);
      assert (xs + ys)[..|xs + ys| - 1] == xs + ys[..|ys| - 1];
    }
  }

  lemma RetypePair(x: Delta, y: Delta, others: seq<Delta>, t: DeltaType)
    requires Contains(others, x) && Contains(others, y)
    ensures Retype([x, y], others, true, t) == [Delta(t, x.obj), Delta(t, y.obj)]
  {
    hide Contains;
    assert [x, y][..1] == [x] && [x][..0] == [];
    assert Retype([], others, true, t) == [] && Retype([x], others, true, t) == [Delta(t, x.obj)];
  }

  /** The tuples through `o` can be listed with any two of them in front. */
  lemma Fronted(views: seq<GVK>, st: Stores, o: Object, ts: seq<Tuple>, t: Tuple, u: Tuple) returns (rest: seq<Tuple>)
    requires EnumeratesThrough(views, st, o, ts) && t in ts && u in ts && t != u
    ensures EnumeratesThrough(views, st, o, [t, u] + rest)
  {
    hide IsThrough;
    var all := set x | x in ts;
    rest := SomeOrder(all - {t, u});
    FrontedOrder(all, t, u, rest);
  }

  lemma FrontedRows(cond: Condition, t: Tuple, u: Tuple, rest: seq<Tuple>)
    requires Matches(cond, t) && Matches(cond, u)
    ensures SelectRows(cond, [t, u] + rest) == [JoinObject(t), JoinObject(u)] + SelectRows(cond, rest)
  {
    hide JoinObject, JoinInput;
    SelectRowsConcat(cond, [t, u], rest);
    assert [t, u][..1] == [t] && [t][..0] == [];
    assert SelectRows(cond, []) == [] && SelectRows(cond, [t]) == [JoinObject(t)];
  }

  /** `x` and `y` stand next to each other in `ds`, in this order. */
  ghost predicate Adjacent(ds: seq<Delta>, i: nat, x: Delta, y: Delta) {
    i + 1 < |ds| && ds[i] == x && ds[i + 1] == y
  }

  /** Any two rows of an add can come first. */
  lemma AddReorders(views: seq<GVK>, cond: Condition, st: Stores, o: Object, st': Stores, adds: seq<Delta>, x: Delta,
                    y: Delta)
    returns (rest: seq<Delta>)
    requires GvkOf(o) in st && JoinAddStep(views, cond, st, o, st', Ok(adds))
    requires x in adds && y in adds && x != y
    ensures JoinAddStep(views, cond, st, o, st', Ok([x, y] + rest))
  {
    hide GvkOf, KeyOf, JoinFails, JoinObject, JoinInput, IsThrough, SelectRows, EnumeratesThrough;
    var rows :| JoinEval(views, cond, st, o, Ok(rows)) && st' == Put(st, o) && adds == AsDeltas(Added, rows);
    var ts :| EnumeratesThrough(views, st, o, ts) && rows == SelectRows(cond, ts);
    var t := TupleOf(cond, ts, rows, adds, x);
    var u := TupleOf(cond, ts, rows, adds, y);
    var more := Fronted(views, st, o, ts, t, u);
    FrontedRows(cond, t, u, more);
    var rows' := SelectRows(cond, [t, u] + more);
    assert RowsThrough(views, cond, st, o, rows');
    assert JoinEval(views, cond, st, o, Ok(rows'));
    rest := AsDeltas(Added, SelectRows(cond, more));
    assert AsDeltas(Added, rows') == [x, y] + rest;
  }

  lemma TupleOf(cond: Condition, ts: seq<Tuple>, rows: seq<Object>, adds: seq<Delta>, x: Delta) returns (t: Tuple)
    requires rows == SelectRows(cond, ts) && adds == AsDeltas(Added, rows) && x in adds
    ensures t in ts && Matches(cond, t) && x == Delta(Added, JoinObject(t))
  {
    hide JoinObject, JoinInput, SelectRows;
    SelectRowsElements(cond, ts);
    var i :| 0 <= i < |adds| && adds[i] == x;
    assert rows[i] in rows;
    t :| t in ts && Matches(cond, t) && rows[i] == JoinObject(t);
  }

  lemma ReplaceReorders(views: seq<GVK>, cond: Condition, st: Stores, o: Object, st': Stores, ds: seq<Delta>, x: Delta,
                        y: Delta)
    returns (ds': seq<Delta>, i: nat)
    requires GvkOf(o) in st && JoinReplaceStep(views, cond, st, o, st', Ok(ds))
    requires x in ds && y in ds && x.typ == Updated && y.typ == Updated && x != y
    ensures JoinReplaceStep(views, cond, st, o, st', Ok(ds')) && Adjacent(ds', i, x, y)
  {
    hide GvkOf, KeyOf, JoinDeleteStep, JoinAddStep, Retype, Contains;
    var mid: Stores, rd, ra :| GvkOf(o) in mid && JoinDeleteStep(views, cond, st, o, mid, rd) && rd.Ok?
      && JoinAddStep(views, cond, mid, o, st', ra) && ra.Ok? && ds == Consolidated(rd.value, ra.value);
    var dels, adds := rd.value, ra.value;
    var a, b := Delta(Added, x.obj), Delta(Added, y.obj);
    UpdatedComesFrom(views, cond, mid, o, st', dels, adds, x);
    UpdatedComesFrom(views, cond, mid, o, st', dels, adds, y);
    var rest := AddReorders(views, cond, mid, o, st', adds, a, b);
    ds' := Consolidated(dels, [a, b] + rest);
    RetypePair(a, b, dels, Updated);
    RetypeConcat([a, b], rest, dels, true, Updated);
    i := |Retype(dels, [a, b] + rest, false, Deleted)|;
    assert JoinReplaceStep(views, cond, st, o, st', Ok(ds')) by {
      assert JoinAddStep(views, cond, mid, o, st', Ok([a, b] + rest));
    }
  }

  lemma {:induction false} RetypeFrom(ds: seq<Delta>, others: seq<Delta>, present: bool, t: DeltaType, e: Delta)
    requires e in Retype(ds, others, present, t)
    ensures e.typ == t && exists d :: d in ds && d.obj == e.obj && Contains(others, d) == present
  {
    hide Contains;
    var pre, last := ds[..|ds| - 1], ds[|ds| - 1];
    if e in Retype(pre, others, present, t) {
      RetypeFrom(pre, others, present, t, e);
      var d :| d in pre && d.obj == e.obj && Contains(others, d) == present;
      assert d in ds;
    } else {
      assert last in ds;
    }
  }

  lemma UpdatedComesFrom(views: seq<GVK>, cond: Condition, mid: Stores, o: Object, st': Stores, dels: seq<Delta>,
                         adds: seq<Delta>, x: Delta)
    requires GvkOf(o) in mid && JoinAddStep(views, cond, mid, o, st', Ok(adds))
    requires x in Consolidated(dels, adds) && x.typ == Updated
    ensures Delta(Added, x.obj) in adds && Contains(dels, Delta(Added, x.obj))
  {
    assert AllOfType(adds, Added) by { hide GvkOf, KeyOf, JoinEval; }
    hide JoinAddStep, GvkOf, NameOf;
    var d, m, a := Retype(dels, adds, false, Deleted), Retype(adds, dels, true, Updated),
                   Retype(adds, dels, false, Added);
    if x in d {
      RetypeFrom(dels, adds, false, Deleted, x);
    } else if x in a {
      RetypeFrom(adds, dels, false, Added, x);
    } else {
      RetypeFrom(adds, dels, true, Updated, x);
    }
  }

  /** Any two updated rows of a join step can come in either order. */
  lemma JoinReorders(views: seq<GVK>, cond: Condition, st: Stores, d: Delta, st': Stores, ds: seq<Delta>, x: Delta,
                     y: Delta)
    returns (ds': seq<Delta>, i: nat)
    requires JoinStep(views, cond, st, d, st', Ok(ds))
    requires x in ds && y in ds && x.typ == Updated && y.typ == Updated && x != y
    ensures JoinStep(views, cond, st, d, st', Ok(ds')) && Adjacent(ds', i, x, y)
  {
    var st0 := InitStore(st, GvkOf(d.obj));
    assert Resolve(st0, d) == Updated || Resolve(st0, d) == Replaced by {
      hide KeyOf, GvkOf, JoinEval, JoinReplaceStep;
    }
    hide KeyOf, GvkOf, JoinReplaceStep, JoinAddStep, JoinDeleteStep;
    ds', i := ReplaceReorders(views, cond, st0, d.obj, st', ds, x, y);
  }

  // ---- The pipeline ----

  /** If a projected key passes between two surviving rows, some listing order goes wrong. */
  lemma SomeListingFails(c: Config, st: Stores, d: Delta, mid: Stores, ds: seq<Delta>, st': Stores, out: seq<Delta>)
    returns (st'': Stores, out': seq<Delta>)
    requires WfConfig(c) && Consistent(c, st) && WfStep(c, st, d) && c.join.Some? && c.aggregation.Some?
    requires var st0 := InitStore(st, GvkOf(d.obj));
             ValidEvent(st0, d) && SourceStep(c, st0, d, mid, Ok(ds)) && OutputStep(c, mid, ds, st', Ok(out))
    requires var p := ProjectionOf(c.aggregation.value);
             && Injective(p, Source(c, st)) && Injective(p, Source(c, st'))
             && !KeysStay(p, Source(c, st), Source(c, st'))
    ensures PipelineStep(c, st, d, st'', Ok(out')) && Apply(out', Query(c, st)) != Query(c, st'')
  {
    var p, v, w := ProjectionOf(c.aggregation.value), Source(c, st), Source(c, st');
    assert JoinStep(c.views, c.join.value, InitStore(st, GvkOf(d.obj)), d, mid, Ok(ds));
    hide *;
    PipelineStepCorrectIff(c, st, d, mid, ds, st', out);
    var x, y := SurvivorsPass(p, v, w, ds);
    var ds', i := JoinReorders(c.views, c.join.value, InitStore(st, GvkOf(d.obj)), d, mid, ds, x, y);
    st'', out' := OtherOutput(c, st, d, mid, ds, st', out, ds');
    IsSourceStep(c, InitStore(st, GvkOf(d.obj)), d, mid, ds');
    PipelineStepCorrectIff(c, st, d, mid, ds', st'', out');
    SameSource(c, st, d, st', st'');
    AdjacentPasses(p, v, w, ds', i, x, y);
  }

  lemma IsSourceStep(c: Config, st: Stores, d: Delta, mid: Stores, ds: seq<Delta>)
    requires c.join.Some? && JoinStep(c.views, c.join.value, st, d, mid, Ok(ds))
    ensures SourceStep(c, st, d, mid, Ok(ds))
  {
    hide JoinStep;
  }

  /** Two updated rows between which a projected key passes. */
  ghost predicate PassesKey(p: Projection, v: Keyed, w: Keyed, x: Delta, y: Delta) {
    && x.typ == Updated && y.typ == Updated && ImageKey(p, Lookup(w, DeltaKey(x))).Some?
    && ImageKey(p, Lookup(w, DeltaKey(x))) == ImageKey(p, Lookup(v, DeltaKey(y)))
  }

  lemma SurvivorsPass(p: Projection, v: Keyed, w: Keyed, ds: seq<Delta>) returns (x: Delta, y: Delta)
    requires MinimalDiff(ds, v, w) && !KeysStay(p, v, w)
    ensures x in ds && y in ds && x != y && PassesKey(p, v, w, x, y) && x.typ == Updated && y.typ == Updated
  {
    hide KeyOf, ImageKey, MinimalDiff;
    var a, b :| a != b && Survives(v, w, a) && Survives(v, w, b) && ImageKey(p, Lookup(w, a)).Some?
      && ImageKey(p, Lookup(w, a)) == ImageKey(p, Lookup(v, b));
    x := SurvivorsAreUpdated(v, w, ds, a);
    y := SurvivorsAreUpdated(v, w, ds, b);
  }

  lemma AdjacentPasses(p: Projection, v: Keyed, w: Keyed, ds: seq<Delta>, i: nat, x: Delta, y: Delta)
    requires MinimalDiff(ds, v, w) && Adjacent(ds, i, x, y) && PassesKey(p, v, w, x, y)
    ensures !NonePasses(p, v, w, ds)
  {
    hide KeyOf, ImageKey;
    assert ds[i] in ds && ds[i + 1] in ds;
    assert DeltaKey(x) != DeltaKey(y);
    assert Passes(p, v, w, ds, i, i + 1);
  }

  lemma SurvivorsAreUpdated(v: Keyed, w: Keyed, ds: seq<Delta>, k: string) returns (x: Delta)
    requires MinimalDiff(ds, v, w) && Survives(v, w, k)
    ensures x in ds && x.typ == Updated && DeltaKey(x) == k
  {
    hide KeyOf;
    assert Lookup(v, k) != Lookup(w, k);
    x :| x in ds && DeltaKey(x) == k;
    assert DiffDelta(x, v, w);
  }

  lemma SameSource(c: Config, st: Stores, d: Delta, st': Stores, st'': Stores)
    requires c.join.Some? && StoresCorrect(c, st, d, st') && StoresCorrect(c, st, d, st'')
    ensures Source(c, st') == Source(c, st'')
  {
    hide Consistent, StoresAfter, JoinView;
    JoinViewByStores(c.views, c.join.value, st', st'');
  }

  /** Another order of the same rows evaluates as well. */
  lemma OtherOutput(c: Config, st: Stores, d: Delta, mid: Stores, ds: seq<Delta>, st': Stores, out: seq<Delta>,
                    ds': seq<Delta>)
    returns (st'': Stores, out': seq<Delta>)
    requires WfConfig(c) && Consistent(c, st) && WfStep(c, st, d) && c.join.Some? && c.aggregation.Some?
    requires var st0 := InitStore(st, GvkOf(d.obj));
             && JoinStep(c.views, c.join.value, st0, d, mid, Ok(ds)) && OutputStep(c, mid, ds, st', Ok(out))
             && JoinStep(c.views, c.join.value, st0, d, mid, Ok(ds'))
    ensures OutputStep(c, mid, ds', st'', Ok(out'))
  {
    var a, views, cond := c.aggregation.value, c.views, c.join.value;
    var st0 := InitStore(st, GvkOf(d.obj));
    InitIsTransparent(c, st, d);
    assert StoreAt(mid, TMP_GVK) == JoinView(views, cond, st0) by { TemporaryIsOld(c, st0, d, mid, ds); }
    assert JoinReady(views, st0) && WfEvent(views, st0, d) && SafeEvent(views, cond, st0, d);
    hide GvkOf, KeyOf, WfConfig, Consistent, WfStep, JoinStep, IsCollapse, AggregateAll, JoinView, MinimalDiff,
         Rows, JoinReady, WfEvent, SafeEvent, StoresAfter, StoresOk, RowEvaluates;
    JoinStepIsExactDifference(views, cond, st0, d, mid, ds);
    JoinStepIsExactDifference(views, cond, st0, d, mid, ds');
    var v, w := JoinView(views, cond, st0), JoinView(views, cond, mid);
    assert ds[..|ds|] == ds && ds'[..|ds'|] == ds';
    FeedingSucceedsIff(a, mid, TMP_GVK, w, ds, |ds|);
    FeedingSucceedsIff(a, mid, TMP_GVK, w, ds', |ds'|);
    forall i | 0 <= i < |ds'| ensures RowEvaluates(a, v, w, DeltaKey(ds'[i])) {
      var j := SameRowElsewhere(v, w, ds', i, ds);
    }
    st'' := AggregateAll(a, mid, ds').0;
    out' := CollapseExists(AggregateAll(a, mid, ds').1.value);
  }

  lemma TemporaryIsOld(c: Config, st: Stores, d: Delta, mid: Stores, ds: seq<Delta>)
    requires WfConfig(c) && Consistent(c, st) && WfStep(c, st, d) && c.join.Some? && c.aggregation.Some?
    requires JoinStep(c.views, c.join.value, st, d, mid, Ok(ds))
    ensures StoreAt(mid, TMP_GVK) == JoinView(c.views, c.join.value, st)
  {
    hide GvkOf, KeyOf, WfViews, StoresOk, JoinView, JoinStep, MinimalDiff, SafeEvent, Rows, StoresAfter;
    JoinStepIsExactDifference(c.views, c.join.value, st, d, mid, ds);
    TemporaryStoreUntouched(c.views, st, d);
  }

  /** Two listings of one difference have the same keys. */
  lemma SameRowElsewhere(v: Keyed, w: Keyed, ds: seq<Delta>, i: nat, ds': seq<Delta>) returns (j: nat)
    requires MinimalDiff(ds, v, w) && MinimalDiff(ds', v, w) && i < |ds|
    ensures j < |ds'| && DeltaKey(ds'[j]) == DeltaKey(ds[i])
  {
    hide KeyOf;
    assert ds[i] in ds && DiffDelta(ds[i], v, w);
    var k := DeltaKey(ds[i]);
    assert Lookup(v, k) != Lookup(w, k);
    var e :| e in ds' && DeltaKey(e) == k;
    j :| 0 <= j < |ds'| && ds'[j] == e;
  }

  /** The exact condition a caller can check on the views before and after an event: in every listing order the
      output leads to the recomputed query, if and only if no projected key passes between two rows that both
      survive. */
  lemma PipelineKeysStayIff(c: Config, st: Stores, d: Delta, st': Stores, out: seq<Delta>)
    requires WfConfig(c) && Consistent(c, st) && WfStep(c, st, d) && c.join.Some? && c.aggregation.Some?
    requires PipelineStep(c, st, d, st', Ok(out))
    requires var p := ProjectionOf(c.aggregation.value); Injective(p, Source(c, st)) && Injective(p, Source(c, st'))
    ensures KeysStay(ProjectionOf(c.aggregation.value), Source(c, st), Source(c, st')) <==>
              forall s, o :: PipelineStep(c, st, d, s, Ok(o)) ==> Apply(o, Query(c, st)) == Query(c, s)
  {
    var p := ProjectionOf(c.aggregation.value);
    hide *;
    if KeysStay(p, Source(c, st), Source(c, st')) {
      forall s, o | PipelineStep(c, st, d, s, Ok(o)) ensures Apply(o, Query(c, st)) == Query(c, s) {
        StayingIsRight(c, st, d, st', out, s, o);
      }
    } else {
      var s, o := PassingGoesWrong(c, st, d, st', out);
    }
  }

  lemma StayingIsRight(c: Config, st: Stores, d: Delta, st': Stores, out: seq<Delta>, s: Stores, o: seq<Delta>)
    requires WfConfig(c) && Consistent(c, st) && WfStep(c, st, d) && c.join.Some? && c.aggregation.Some?
    requires PipelineStep(c, st, d, st', Ok(out)) && PipelineStep(c, st, d, s, Ok(o))
    requires KeysWellBehaved(c, st, st')
    ensures Apply(o, Query(c, st)) == Query(c, s)
  {
    hide WfConfig, Consistent, WfStep, PipelineStep, Source, Query, Apply, Strict, StoresCorrect, Injective, KeysStay,
         ProjectionOf;
    StoresStep(c, st, d, st', out);
    StoresStep(c, st, d, s, o);
    SameSource(c, st, d, st', s);
    PipelineStepRefines(c, st, d, s, o);
  }

  lemma PassingGoesWrong(c: Config, st: Stores, d: Delta, st': Stores, out: seq<Delta>)
    returns (s: Stores, o: seq<Delta>)
    requires WfConfig(c) && Consistent(c, st) && WfStep(c, st, d) && c.join.Some? && c.aggregation.Some?
    requires PipelineStep(c, st, d, st', Ok(out))
    requires var p := ProjectionOf(c.aggregation.value);
             && Injective(p, Source(c, st)) && Injective(p, Source(c, st'))
             && !KeysStay(p, Source(c, st), Source(c, st'))
    ensures PipelineStep(c, st, d, s, Ok(o)) && Apply(o, Query(c, st)) != Query(c, s)
  {
    hide WfConfig, Consistent, WfStep, Source, Query, Apply, Injective, KeysStay, ProjectionOf, SourceStep, OutputStep,
         GvkOf, KeyOf;
    var st0 := InitStore(st, GvkOf(d.obj));
    InitIsTransparent(c, st, d);
    if !ValidEvent(st0, d) {
      NothingPasses(ProjectionOf(c.aggregation.value), Source(c, st));
    }
    var mid: Stores, js :| SourceStep(c, st0, d, mid, js) && js.Ok? && OutputStep(c, mid, js.value, st', Ok(out));
    s, o := SomeListingFails(c, st, d, mid, js.value, st', out);
  }

  lemma NothingPasses(p: Projection, v: Keyed)
    ensures KeysStay(p, v, v)
  {
  }
}
