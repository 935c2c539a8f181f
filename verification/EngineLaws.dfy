/** Laws of the engine beyond the refinement theorem: duplicates and upserts, the outcome of failing
    updates, and exactly what goes wrong when the conditions of the theorem are not met. */
module EngineLaws {
  import opened JsonTrees
  import opened Objects
  import opened Deltas
  import opened Joins
  import opened JoinMaintenance
  import opened Aggregations
  import opened Engine
  import opened Pipelines
  import opened JoinRefinement
  import opened PipelineRefinement

  // ---- Stuttering ----

  /** A repeat of an object whose stored content is equal. */
  ghost predicate Duplicate(st: Stores, d: Delta) {
    d.typ != Deleted && d.typ != Sync && Lookup(StoreAt(st, GvkOf(d.obj)), DeltaKey(d)) == Some(d.obj)
  }

  lemma DuplicateStep(c: Config, st: Stores, d: Delta, st': Stores, r: Result<seq<Delta>>)
    requires Duplicate(st, d)
    ensures PipelineStep(c, st, d, st', r) <==> st' == st && r == Ok([])
  {
    hide KeyOf, GvkOf, SourceStep, OutputStep;
  }

  /** Inserting a duplicate anywhere in a run emits nothing and changes no state and no other output. */
  lemma DuplicatesStutter(c: Config, events: seq<Delta>, states: seq<Stores>, outs: seq<seq<Delta>>, n: nat, d: Delta)
    requires Run(c, events, states, outs) && n <= |events| && Duplicate(states[n], d)
    ensures Run(c, events[..n] + [d] + events[n..], states[..n + 1] + states[n..], outs[..n] + [[]] + outs[n..])
    ensures Flatten(outs[..n] + [[]] + outs[n..]) == Flatten(outs)
  {
    hide PipelineStep, Duplicate;
    var es, ss, os := events[..n] + [d] + events[n..], states[..n + 1] + states[n..], outs[..n] + [[]] + outs[n..];
    forall i | 0 <= i < |es| ensures PipelineStep(c, ss[i], es[i], ss[i + 1], Ok(os[i])) {
      if i < n {
        assert PipelineStep(c, states[i], events[i], states[i + 1], Ok(outs[i]));
      } else if i == n {
        DuplicateStep(c, states[n], d, states[n], Ok([]));
      } else {
        assert PipelineStep(c, states[i - 1], events[i - 1], states[i], Ok(outs[i - 1]));
      }
    }
    FlattenConcat(outs[..n] + [[]], outs[n..]);
    FlattenConcat(outs[..n], outs[n..]);
    assert (outs[..n] + [[]])[..n] == outs[..n];
    assert Flatten(outs[..n] + [[]]) == Flatten(outs[..n]) + [];
    assert outs[..n] + outs[n..] == outs;
  }

  lemma {:induction false} FlattenConcat(xs: seq<seq<Delta>>, ys: seq<seq<Delta>>)
    ensures Flatten(xs + ys) == Flatten(xs) + Flatten(ys)
  {
    if ys == [] {
      assert xs + ys == xs;
    } else {
      FlattenConcat(xs, ys[..|ys| - 1]);
      assert (xs + ys)[..|xs + ys| - 1] == xs + ys[..|ys| - 1];
    }
  }

  // ---- An upsert is an update ----

  lemma {:induction false} RetypeAlone(ds: seq<Delta>, t: DeltaType)
    requires AllOfType(ds, t)
    ensures Retype(ds, [], false, t) == ds && forall u :: Retype(ds, [], true, u) == []
  {
    if ds != [] {
      var pre, last := ds[..|ds| - 1], ds[|ds| - 1];
      assert last in ds && ds == pre + [last];
      RetypeAlone(pre, t);
      assert Delta(t, last.obj) == last;
    }
  }

  lemma ReplaceUnknownIsAdd(views: seq<GVK>, cond: Condition, st: Stores, o: Object, st': Stores, r: Result<seq<Delta>>)
    requires GvkOf(o) in st && KeyOf(o) !in st[GvkOf(o)]
    ensures JoinReplaceStep(views, cond, st, o, st', r) <==> JoinAddStep(views, cond, st, o, st', r)
  {
    hide KeyOf, GvkOf, JoinEval, Retype;
    forall adds | JoinAddStep(views, cond, st, o, st', Ok(adds)) ensures Consolidated([], adds) == adds {
      AddStepAdds(views, cond, st, o, st', adds);
      RetypeAlone(adds, Added);
      RetypeNothing(adds);
    }
    if JoinAddStep(views, cond, st, o, st', r) {
      assert JoinDeleteStep(views, cond, st, o, st, Ok([]));
    }
  }

  lemma RetypeNothing(adds: seq<Delta>)
    ensures Retype([], adds, false, Deleted) == []
  {
  }

  lemma AddStepAdds(views: seq<GVK>, cond: Condition, st: Stores, o: Object, st': Stores, adds: seq<Delta>)
    requires GvkOf(o) in st && JoinAddStep(views, cond, st, o, st', Ok(adds))
    ensures AllOfType(adds, Added)
  {
    hide KeyOf, GvkOf, JoinEval;
  }

  lemma UpsertIsUpdateInJoin(views: seq<GVK>, cond: Condition, st: Stores, o: Object, st': Stores,
                             r: Result<seq<Delta>>)
    ensures JoinStep(views, cond, st, Delta(Upserted, o), st', r) <==>
              JoinStep(views, cond, st, Delta(Updated, o), st', r)
  {
    hide KeyOf, GvkOf, JoinReplaceStep, JoinAddStep;
    var st0 := InitStore(st, GvkOf(o));
    if KeyOf(o) !in st0[GvkOf(o)] {
      ReplaceUnknownIsAdd(views, cond, st0, o, st', r);
    }
  }

  lemma UpsertIsUpdateInAggregation(a: Aggregate, st: Stores, o: Object)
    ensures AggregateStep(a, st, Delta(Upserted, o)) == AggregateStep(a, st, Delta(Updated, o))
  {
    hide KeyOf, GvkOf, Image;
  }

  /** In every state of a pipeline with a join or an aggregation, Upserted and Updated with the same object
      have the same possible outcomes: deltas, stores and errors. */
  lemma UpsertIsUpdate(c: Config, st: Stores, o: Object, st': Stores, r: Result<seq<Delta>>)
    requires c.join.Some? || c.aggregation.Some?
    ensures PipelineStep(c, st, Delta(Upserted, o), st', r) <==> PipelineStep(c, st, Delta(Updated, o), st', r)
  {
    hide KeyOf, GvkOf, JoinStep, AggregateStep, AggregateAll, IsCollapse;
    var st0 := InitStore(st, GvkOf(o));
    var x, y := Delta(Upserted, o), Delta(Updated, o);
    if c.join.Some? {
      forall mid, js ensures SourceStep(c, st0, x, mid, js) <==> SourceStep(c, st0, y, mid, js) {
        UpsertIsUpdateInJoin(c.views, c.join.value, st0, o, mid, js);
      }
    } else {
      var a := c.aggregation.value;
      SingleDelta(a, st0, x);
      SingleDelta(a, st0, y);
      UpsertIsUpdateInAggregation(a, st0, o);
      assert SourceStep(c, st0, x, st0, Ok([x])) && SourceStep(c, st0, y, st0, Ok([y]));
      assert OutputStep(c, st0, [x], st', r) <==> OutputStep(c, st0, [y], st', r);
    }
  }

  // ---- A failing update ----

  /** A failing update of a join has lost the stored object if and only if there was one whose own rows could
      still be evaluated; otherwise it has changed nothing. */
  lemma FailedJoinUpdateIff(views: seq<GVK>, cond: Condition, st: Stores, o: Object, st': Stores, e: Error)
    requires GvkOf(o) in st && JoinReplaceStep(views, cond, st, o, st', Err(e))
    ensures var g, k := GvkOf(o), KeyOf(o);
            && (st' == st <==> k !in st[g] || JoinFails(views, cond, st, st[g][k]))
            && (st' != st ==> st' == Remove(st, g, k))
  {
    hide KeyOf, GvkOf, JoinFails, RowsThrough;
    var g, k := GvkOf(o), KeyOf(o);
    if k in st[g] {
      assert k !in Remove(st, g, k)[g];
    }
  }

  /** The same of an aggregation: the stored object is lost if and only if there was one with an image. */
  lemma FailedAggregateUpdateIff(a: Aggregate, st: Stores, o: Object)
    requires GvkOf(o) in st && ReplaceStep(a, st, o).1.Err?
    ensures var g, k, st' := GvkOf(o), KeyOf(o), ReplaceStep(a, st, o).0;
            && (st' == st <==> k !in st[g] || Image(a.view, a.stages, st[g][k]).Err?)
            && (st' != st ==> st' == Remove(st, g, k))
  {
    hide KeyOf, GvkOf, Image;
    var g, k := GvkOf(o), KeyOf(o);
    if k in st[g] {
      assert k !in Remove(st, g, k)[g];
    }
  }

  /** The same seen from outside a pipeline with a join: an evaluation that fails leaves the stores as the join
      has left them. */
  lemma FailedPipelineUpdateIff(c: Config, st: Stores, o: Object, st': Stores, e: Error)
    requires c.join.Some? && c.aggregation.None? && GvkOf(o) in st && ValidEvent(st, Delta(Updated, o))
    requires PipelineStep(c, st, Delta(Updated, o), st', Err(e))
    ensures var g, k := GvkOf(o), KeyOf(o);
            && (st' == st <==> k !in st[g] || JoinFails(c.views, c.join.value, st, st[g][k]))
            && (st' != st ==> st' == Remove(st, g, k))
  {
    hide KeyOf, GvkOf, JoinFails, JoinReplaceStep;
    FailedJoinUpdateIff(c.views, c.join.value, st, o, st', e);
  }

  /** A join over fewer than two views never yields rows: an add fails, and so does a delete of a known object. */
  lemma JoinNeedsTwoViews(views: seq<GVK>, cond: Condition, st: Stores, o: Object, st': Stores, r: Result<seq<Delta>>)
    requires |views| < 2 && GvkOf(o) in st
    ensures JoinAddStep(views, cond, st, o, st', r) ==> r.Err? && st' == st
    ensures KeyOf(o) in st[GvkOf(o)] && JoinDeleteStep(views, cond, st, o, st', r) ==> r.Err? && st' == st
  {
    hide KeyOf, GvkOf, RowsThrough;
  }

  // ---- Adding over a known object ----

  /** Every matching tuple through the stored object has a matching counterpart through the new one. */
  ghost predicate OldRowsCovered(views: seq<GVK>, cond: Condition, st: Stores, x: Object, o: Object) {
    forall t :: IsThrough(views, st, x, t) && Matches(cond, t) ==>
      RowKeyThrough(views, cond, st, o, KeyOf(JoinObject(t)))
  }

  ghost predicate RowKeyThrough(views: seq<GVK>, cond: Condition, st: Stores, o: Object, k: string) {
    exists u :: IsThrough(views, st, o, u) && Matches(cond, u) && KeyOf(JoinObject(u)) == k
  }

  /** Which keys of the join view a single object contributes. */
  lemma ContributionOf(views: seq<GVK>, cond: Condition, st: Stores, o: Object, k: string)
    requires Maintainable(views, cond, st, o) && Fresh(st, o)
    ensures var v, w := JoinView(views, cond, st), JoinView(views, cond, Put(st, o));
            if RowKeyThrough(views, cond, st, o, k) then Lookup(v, k) == None && Lookup(w, k).Some?
            else Lookup(w, k) == Lookup(v, k)
  {
    hide JoinObject, JoinInput, KeyOf;
    var v, w := JoinView(views, cond, st), JoinView(views, cond, Put(st, o));
    PutKeepsStoresOk(views, st, o);
    JoinViewExact(views, cond, st);
    JoinViewExact(views, cond, Put(st, o));
    if RowKeyThrough(views, cond, st, o, k) {
      var t :| IsThrough(views, st, o, t) && Matches(cond, t) && KeyOf(JoinObject(t)) == k;
      MatchingThroughIsFull(views, cond, st, o, t);
      TupleDecomposition(views, st, o, t);
      if k in v {
        var u :| IsTuple(views, st, u) && Matches(cond, u) && KeyOf(JoinObject(u)) == k;
        OldTupleMissesFresh(views, st, o, u, t);
        assert false;
      }
    } else if k in v {
      var t :| IsTuple(views, st, t) && Matches(cond, t) && KeyOf(JoinObject(t)) == k;
      TupleDecomposition(views, st, o, t);
    } else if k in w {
      var t :| IsTuple(views, Put(st, o), t) && Matches(cond, t) && KeyOf(JoinObject(t)) == k;
      TupleDecomposition(views, st, o, t);
    }
  }

  /** An Added event for a key that is already stored keeps the join view correct if and only if the new
      object matches wherever the stored one did: rows of the stored object are never deleted. */
  lemma AddOverKnownIff(views: seq<GVK>, cond: Condition, st: Stores, o: Object, st': Stores, ds: seq<Delta>)
    requires JoinReady(views, st) && GvkOf(o) in st && KeyOf(o) in st[GvkOf(o)]
    requires Joinable(views, cond, st, o) && OldComplete(views, cond, st, o)
    requires JoinAddStep(views, cond, st, o, st', Ok(ds))
    ensures Apply(ds, JoinView(views, cond, st)) == JoinView(views, cond, st') <==>
              OldRowsCovered(views, cond, st, st[GvkOf(o)][KeyOf(o)], o)
  {
    hide KeyOf, GvkOf, JoinView, RowKeyThrough, WfViews, StoresOk, Complete, Apply, JoinObject, JoinInput, RowsThrough,
         JoinFails;
    var g, k := GvkOf(o), KeyOf(o);
    var x, mid := st[g][k], Remove(st, g, k);
    RemoveThenPut(views, st, g, k);
    StillReady(views, cond, st, o, mid);
    OwnStoreIrrelevant(views, cond, st, mid, x);
    var v0, v, w := JoinView(views, cond, mid), JoinView(views, cond, st), JoinView(views, cond, st');
    var rows :| JoinEval(views, cond, st, o, Ok(rows)) && st' == Put(st, o) && ds == AsDeltas(Added, rows);
    AddOverKnownAt(views, cond, st, o, rows, mid);
    var after := Apply(ds, v);
    forall q
      ensures Lookup(after, q) == Lookup(w, q) <==>
                (RowKeyThrough(views, cond, mid, x, q) ==> RowKeyThrough(views, cond, mid, o, q))
    {
      ContributionOf(views, cond, mid, x, q);
      ContributionOf(views, cond, mid, o, q);
    }
    SameLookupsIff(after, w);
    CoveredByKeys(views, cond, st, x, o, mid);
  }

  lemma SameLookupsIff(v: Keyed, w: Keyed)
    ensures v == w <==> forall k :: Lookup(v, k) == Lookup(w, k)
  {
    if forall k :: Lookup(v, k) == Lookup(w, k) { SameLookups(v, w); }
  }

  /** What upserting the rows through `o` does to each key of the old join view. */
  lemma AddOverKnownAt(views: seq<GVK>, cond: Condition, st: Stores, o: Object, rows: seq<Object>, mid: Stores)
    requires JoinReady(views, mid) && Joinable(views, cond, mid, o) && GvkOf(o) in st && Fresh(mid, o)
    requires mid == Remove(st, GvkOf(o), KeyOf(o)) && Put(mid, o) == Put(st, o)
    requires RowsThrough(views, cond, st, o, rows)
    ensures forall q :: Lookup(Apply(AsDeltas(Added, rows), JoinView(views, cond, st)), q) ==
              if RowKeyThrough(views, cond, mid, o, q) then Lookup(JoinView(views, cond, Put(st, o)), q)
              else Lookup(JoinView(views, cond, st), q)
  {
    hide KeyOf, GvkOf, JoinView, WfViews, StoresOk, Complete, JoinObject, JoinInput;
    OwnStoreIrrelevant(views, cond, st, mid, o);
    var ds, v, v0, w := AsDeltas(Added, rows), JoinView(views, cond, st), JoinView(views, cond, mid),
                        JoinView(views, cond, Put(st, o));
    AddIsMinimalDiff(views, cond, mid, o, rows);
    ApplyByUniq(ds, v);
    forall q
      ensures Lookup(Apply(ds, v), q) == if RowKeyThrough(views, cond, mid, o, q) then Lookup(w, q) else Lookup(v, q)
    {
      OutcomeOfDistinct(ds, v, q);
      ContributionOf(views, cond, mid, o, q);
      if HasKey(ds, q) {
        var d :| d in ds && DeltaKey(d) == q;
        assert DiffDelta(d, v0, w);
      }
    }
  }

  lemma CoveredByKeys(views: seq<GVK>, cond: Condition, st: Stores, x: Object, o: Object, mid: Stores)
    requires GvkOf(x) == GvkOf(o) && SameElsewhere(st, mid, o)
    ensures OldRowsCovered(views, cond, st, x, o) <==>
              forall q :: RowKeyThrough(views, cond, mid, x, q) ==> RowKeyThrough(views, cond, mid, o, q)
  {
    hide GvkOf, KeyOf, JoinObject, JoinInput, IsThrough;
    forall t ensures IsThrough(views, st, x, t) <==> IsThrough(views, mid, x, t) {
      ThroughIgnoresOwnStore(views, st, mid, x, t);
    }
    forall t ensures IsThrough(views, st, o, t) <==> IsThrough(views, mid, o, t) {
      ThroughIgnoresOwnStore(views, st, mid, o, t);
    }
    forall q ensures RowKeyThrough(views, cond, st, o, q) <==> RowKeyThrough(views, cond, mid, o, q) { }
    forall q ensures RowKeyThrough(views, cond, st, x, q) <==> RowKeyThrough(views, cond, mid, x, q) { }
    if forall q :: RowKeyThrough(views, cond, mid, x, q) ==> RowKeyThrough(views, cond, mid, o, q) {
      forall t | IsThrough(views, st, x, t) && Matches(cond, t)
        ensures RowKeyThrough(views, cond, st, o, KeyOf(JoinObject(t)))
      {
        assert RowKeyThrough(views, cond, st, x, KeyOf(JoinObject(t)));
      }
    }
  }
}
