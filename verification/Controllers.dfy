/** A controller: events go through its pipeline, and the resulting deltas are written to its target. With
    an Updater on a view, the target cache is the recomputed query after every event. */
module Controllers {
  import opened JsonTrees
  import opened Objects
  import opened Deltas
  import opened Joins
  import opened JoinMaintenance
  import opened Aggregations
  import opened Pipelines
  import opened PipelineRefinement
  import opened ViewCaches
  import opened Targets

  /** One request: evaluate, then write delta by delta until the first failure. */
  ghost predicate ControllerStep(c: Config, gvk: GVK, typ: TargetType, st: Stores, s: CacheState, d: Delta,
                                 st': Stores, s': CacheState, r: Result<()>) {
    exists out :: PipelineStep(c, st, d, st', out) &&
      match out
      case Err(e) => s' == s && r == Err(e)
      case Ok(ds) => (s', r) == WriteAll(s, gvk, typ, ds)
  }

  /** What the controller's queue holds: the name of an object and what happened to it. */
  datatype Request = Request(gvk: GVK, namespace: string, name: string, eventType: DeltaType)

  /** The delta of a request: added, updated and replaced objects are fetched, others only named. */
  function RequestDelta(req: Request, fetched: Result<Object>): Result<Delta> {
    if req.eventType == Added || req.eventType == Updated || req.eventType == Replaced then
      match fetched
      case Ok(o) => Ok(Delta(req.eventType, o))
      case Err(e) => Err(e)
    else Ok(Delta(req.eventType, SetName(SetGvk(map[], req.gvk), req.namespace, req.name)))
  }

  /** A fetched object is evaluated as it is, under the type of the request. A request that is not fetched
      becomes an object with the kind, namespace and name of the request, and nothing else. */
  lemma RequestDeltaIs(req: Request, fetched: Result<Object>)
    ensures var r := RequestDelta(req, fetched);
            if req.eventType in {Added, Updated, Replaced} then
              (r.Ok? <==> fetched.Ok?) && (r.Ok? ==> r.value == Delta(req.eventType, fetched.value))
              && (r.Err? ==> r.error == fetched.error)
            else
              && r.Ok? && r.value.typ == req.eventType && GvkOf(r.value.obj) == req.gvk
              && NamespaceOf(r.value.obj) == req.namespace && NameOf(r.value.obj) == req.name
              && r.value.obj.Keys <= IDENTITY && Metadata(r.value.obj).Keys <= {"namespace", "name"}
  {
    var o: Object := SetGvk(map[], req.gvk);
    SetGvkReads(map[], req.gvk);
    var c := SetMetaField(o, "namespace", req.namespace);
    SetMetaFieldReads(o, "namespace", req.namespace);
    SetMetaFieldReads(c, "name", req.name);
    NamespaceSurvives(c, SetMetaField(c, "name", req.name));
  }

  class Controller {
    const pipeline: Pipeline
    const target: Target

    constructor (pipeline: Pipeline, target: Target)
      ensures this.pipeline == pipeline && this.target == target
    {
      this.pipeline, this.target := pipeline, target;
    }

    /** `fetched` is what the client returns for the object of the request. */
    method ProcessRequest(req: Request, fetched: Result<Object>) returns (r: Result<()>)
      requires pipeline.engine.Valid()
      modifies pipeline.engine, target.client.viewCache
      ensures pipeline.engine.Valid()
      ensures match RequestDelta(req, fetched)
              case Ok(delta) =>
                ControllerStep(pipeline.Settings(), target.gvk, target.typ,
                               old(pipeline.engine.baseViewStore), old(target.client.viewCache.State()), delta,
                               pipeline.engine.baseViewStore, target.client.viewCache.State(), r)
              case Err(e) =>
                && pipeline.engine.baseViewStore == old(pipeline.engine.baseViewStore)
                && target.client.viewCache.State() == old(target.client.viewCache.State())
                && r == Err(e)
    {
      var obj := SetName(SetGvk(map[], req.gvk), req.namespace, req.name);
      if req.eventType == Added || req.eventType == Updated || req.eventType == Replaced {
        if fetched.Err? { return Err(fetched.error); }
        obj := fetched.value;
      }
      r := ProcessDelta(Delta(req.eventType, obj));
    }

    /** Evaluate the delta, and write the resulting deltas until the first failure. */
    method ProcessDelta(delta: Delta) returns (r: Result<()>)
      requires pipeline.engine.Valid()
      modifies pipeline.engine, target.client.viewCache
      ensures pipeline.engine.Valid()
      ensures ControllerStep(pipeline.Settings(), target.gvk, target.typ,
                             old(pipeline.engine.baseViewStore), old(target.client.viewCache.State()), delta,
                             pipeline.engine.baseViewStore, target.client.viewCache.State(), r)
    {
      hide PipelineStep, WriteStep;
      ghost var s := target.client.viewCache.State();
      var out := pipeline.Evaluate(delta);
      if out.Err? { return Err(out.error); }
      var ds := out.value;
      for i := 0 to |ds|
        invariant pipeline.engine.Valid()
        invariant PipelineStep(pipeline.Settings(), old(pipeline.engine.baseViewStore), delta,
                               pipeline.engine.baseViewStore, out)
        invariant (target.client.viewCache.State(), Ok(())) == WriteAll(s, target.gvk, target.typ, ds[..i])
      {
        assert ds[..i + 1][..i] == ds[..i];
        var w := target.Write(ds[i]);
        if w.Err? {
          WritesStopAtError(s, target.gvk, target.typ, ds, i + 1);
          return Err(w.error);
        }
        assert w.value == ();
      }
      assert ds[..|ds|] == ds;
      return Ok(());
    }
  }

  /** A request succeeds if and only if its evaluation and all its writes succeed; a failing evaluation writes
      nothing. */
  lemma RequestOutcome(c: Config, gvk: GVK, typ: TargetType, st: Stores, s: CacheState, d: Delta,
                       st': Stores, s': CacheState, r: Result<()>)
    requires ControllerStep(c, gvk, typ, st, s, d, st', s', r)
    ensures r.Ok? ==> exists ds :: PipelineStep(c, st, d, st', Ok(ds)) && WriteAll(s, gvk, typ, ds) == (s', Ok(()))
    ensures r.Err? ==>
              || (s' == s && PipelineStep(c, st, d, st', Err(r.error)))
              || (exists ds :: PipelineStep(c, st, d, st', Ok(ds)) && WriteAll(s, gvk, typ, ds) == (s', r))
  {
    hide PipelineStep, WriteAll;
    var out :| PipelineStep(c, st, d, st', out) &&
      match out
      case Err(e) => s' == s && r == Err(e)
      case Ok(ds) => (s', r) == WriteAll(s, gvk, typ, ds);
    if r.Ok? { assert r.value == (); }
  }

  lemma {:induction false} WritesStopAtError(s: CacheState, gvk: GVK, typ: TargetType, ds: seq<Delta>, n: nat)
    requires n <= |ds| && WriteAll(s, gvk, typ, ds[..n]).1.Err?
    ensures WriteAll(s, gvk, typ, ds) == WriteAll(s, gvk, typ, ds[..n])
  {
    hide WriteStep;
    if n < |ds| {
      assert ds[..|ds| - 1][..n] == ds[..n];
      WritesStopAtError(s, gvk, typ, ds[..|ds| - 1], n);
    } else {
      assert ds[..n] == ds;
    }
  }

  // ---- What an aggregation emits are objects of its view ----

  lemma ImageIsOfView(a: Aggregate, o: Object)
    requires Image(a.view, a.stages, o).Ok? && Image(a.view, a.stages, o).value.Some?
    ensures OfKind(ViewGvk(a.view), Image(a.view, a.stages, o).value.value)
  {
    hide StagesImage;
    var w := StagesImage(a.stages, o).value.value;
    var r := Normalize(a.view, w).value;
    NormalizedIsOfView(a.view, w);
  }

  lemma NormalizedIsOfView(view: string, content: Object)
    requires Normalize(view, content).Ok?
    ensures OfKind(ViewGvk(view), Normalize(view, content).value)
  {
    var meta := content["metadata"].fields;
    var ns := if "namespace" in meta then meta["namespace"].s else "";
    var named := SetName(NewViewObject(view), ns, meta["name"].s);
    assert GvkOf(named) == ViewGvk(view);
  }

  ghost predicate AllOfKind(gvk: GVK, ds: seq<Delta>) {
    forall d :: d in ds ==> OfKind(gvk, d.obj)
  }

  lemma StepEmitsView(a: Aggregate, st: Stores, d: Delta)
    requires AggregateStep(a, st, d).1.Ok?
    ensures AllOfKind(ViewGvk(a.view), AggregateStep(a, st, d).1.value)
  {
    hide Image, OfKind, GvkOf, KeyOf;
    forall o | Image(a.view, a.stages, o).Ok? && Image(a.view, a.stages, o).value.Some?
      ensures OfKind(ViewGvk(a.view), Image(a.view, a.stages, o).value.value)
    {
      ImageIsOfView(a, o);
    }
  }

  lemma {:induction false} FeedEmitsView(a: Aggregate, st: Stores, ds: seq<Delta>)
    requires AggregateAll(a, st, ds).1.Ok?
    ensures AllOfKind(ViewGvk(a.view), AggregateAll(a, st, ds).1.value)
  {
    hide AggregateStep, OfKind;
    if ds != [] {
      FeedEmitsView(a, st, ds[..|ds| - 1]);
      StepEmitsView(a, AggregateAll(a, st, ds[..|ds| - 1]).0, ds[|ds| - 1]);
    }
  }

  lemma {:induction false} UniqObjects(ds: seq<Delta>, gvk: GVK)
    requires AllOfKind(gvk, ds)
    ensures forall k :: k in Uniq(ds) ==> OfKind(gvk, Uniq(ds)[k].obj)
  {
    hide OfKind, DeltaKey;
    if ds != [] {
      UniqObjects(ds[..|ds| - 1], gvk);
      assert ds[|ds| - 1] in ds;
    }
  }

  lemma PipelineEmitsView(c: Config, st: Stores, d: Delta, st': Stores, out: seq<Delta>)
    requires c.aggregation.Some? && PipelineStep(c, st, d, st', Ok(out))
    ensures AllOfKind(ViewGvk(c.aggregation.value.view), out)
  {
    hide SourceStep, AggregateAll, OfKind, Uniq, GvkOf, KeyOf, ValidEvent;
    var a := c.aggregation.value;
    var st0 := InitStore(st, GvkOf(d.obj));
    if ValidEvent(st0, d) {
      var mid: Stores, js :| SourceStep(c, st0, d, mid, js) && js.Ok? && OutputStep(c, mid, js.value, st', Ok(out));
      FeedEmitsView(a, mid, js.value);
      UniqObjects(AggregateAll(a, mid, js.value).1.value, ViewGvk(a.view));
    }
  }

  // ---- The target cache is the query ----

  /** Every object of a query result has a namespace; the client cannot update others. */
  ghost predicate Namespaced(v: Keyed) {
    forall k :: k in v ==> NamespaceOf(v[k]) != ""
  }

  lemma {:induction false} UpdatesEndUpInView(ds: seq<Delta>, v: Keyed, d: Delta)
    requires DistinctKeys(ds) && (forall e :: e in ds ==> Settled(e)) && d in ds && d.typ != Deleted
    ensures Lookup(Apply(ds, v), DeltaKey(d)) == Some(d.obj)
  {
    hide DeltaKey;
    ApplyByUniq(ds, v);
    OutcomeOfDistinct(ds, v, DeltaKey(d));
    assert HasKey(ds, DeltaKey(d));
  }

  lemma CollapsedIsDistinct(c: Config, st: Stores, d: Delta, st': Stores, out: seq<Delta>)
    requires c.aggregation.Some? && PipelineStep(c, st, d, st', Ok(out))
    ensures DistinctKeys(out)
  {
    hide SourceStep, AggregateAll, Uniq, GvkOf, KeyOf, ValidEvent;
  }

  /** An Updater view controller: an aggregation into a view, written to the view of the same name. */
  ghost predicate ViewController(c: Config, gvk: GVK, typ: TargetType) {
    WfConfig(c) && c.aggregation.Some? && gvk == ViewGvk(c.aggregation.value.view) && typ == Updater
  }

  /** The target cache holds the query result, and every handler of it knows it. */
  ghost predicate Maintained(c: Config, gvk: GVK, st: Stores, s: CacheState) {
    Consistent(c, st) && Replicated(s) && CacheOf(s, gvk) == Query(c, st)
  }

  lemma OutputIsWritable(c: Config, st: Stores, d: Delta, st': Stores, out: seq<Delta>)
    requires c.aggregation.Some? && PipelineStep(c, st, d, st', Ok(out))
    requires Strict(out, Query(c, st)) && Apply(out, Query(c, st)) == Query(c, st') && Namespaced(Query(c, st'))
    ensures Writable(ViewGvk(c.aggregation.value.view), out)
  {
    hide PipelineStep, Query, OfKind, NamespaceOf, KeyOf, Apply, Strict;
    PipelineEmitsView(c, st, d, st', out);
    CollapsedIsDistinct(c, st, d, st', out);
    StrictIsSettled(out, Query(c, st));
    forall e | e in out && e.typ == Updated ensures NamespaceOf(e.obj) != "" {
      UpdatesEndUpInView(out, Query(c, st), e);
    }
  }

  /** One event at an Updater view target: if the evaluation succeeds, then so does every write, and the
      target cache goes from the old query result to the new one. */
  lemma ControllerStepMaintains(c: Config, gvk: GVK, typ: TargetType, st: Stores, s: CacheState, d: Delta,
                                st': Stores, out: seq<Delta>)
    requires ViewController(c, gvk, typ) && Maintained(c, gvk, st, s)
    requires PipelineStep(c, st, d, st', Ok(out)) && WfStep(c, st, d) && KeysWellBehaved(c, st, st')
    requires Namespaced(Query(c, st'))
    ensures WriteAll(s, gvk, typ, out).1.Ok?
    ensures Maintained(c, gvk, st', WriteAll(s, gvk, typ, out).0)
  {
    hide PipelineStep, Query, WfStep, KeysWellBehaved, WriteAll, Consistent, Replicated, WfConfig, Namespaced;
    PipelineStepRefines(c, st, d, st', out);
    OutputIsWritable(c, st, d, st', out);
    StrictWritesSucceed(s, gvk, out);
    WritesKeepReplicated(s, gvk, typ, out);
  }

  // ---- Runs of a controller ----

  /** What happens: the controller handles an event and emits `out`, or somebody else uses the view cache. */
  datatype Move =
    | Handle(event: Delta, out: seq<Delta>)
    | Other(op: CacheOp)

  /** Others may register and remove handlers of every kind, and write objects of other kinds. */
  ghost predicate Harmless(gvk: GVK, s: CacheState, op: CacheOp) {
    && Enabled(s, op)
    && match op
       case AddObject(o) => GvkOf(o) != gvk
       case UpdateObject(_, o) => GvkOf(o) != gvk
       case DeleteObject(o) => GvkOf(o) != gvk
       case AddHandler(_, _) => true
       case RemoveHandler(_, _) => true
  }

  ghost predicate MoveStep(c: Config, gvk: GVK, typ: TargetType, st: Stores, s: CacheState, m: Move, st': Stores,
                           s': CacheState) {
    match m
    case Handle(d, out) => PipelineStep(c, st, d, st', Ok(out)) && s' == WriteAll(s, gvk, typ, out).0
    case Other(op) => Harmless(gvk, s, op) && st' == st && s' == Step(s, op)
  }

  ghost predicate WfMove(c: Config, st: Stores, m: Move, st': Stores) {
    m.Handle? ==> WfStep(c, st, m.event) && KeysWellBehaved(c, st, st') && Namespaced(Query(c, st'))
  }

  /** A run from an empty engine and a cache `states[0].1` that has no object of the target kind yet; every
      evaluation succeeds. */
  ghost predicate ControllerRun(c: Config, gvk: GVK, typ: TargetType, moves: seq<Move>,
                                states: seq<(Stores, CacheState)>) {
    && |states| == |moves| + 1
    && states[0].0 == map[] && Replicated(states[0].1) && CacheOf(states[0].1, gvk) == map[]
    && forall i :: 0 <= i < |moves| ==>
         MoveStep(c, gvk, typ, states[i].0, states[i].1, moves[i], states[i + 1].0, states[i + 1].1)
  }

  ghost predicate WfControllerRun(c: Config, moves: seq<Move>, states: seq<(Stores, CacheState)>) {
    |states| == |moves| + 1 && forall i :: 0 <= i < |moves| ==> WfMove(c, states[i].0, moves[i], states[i + 1].0)
  }

  lemma OtherKeepsMaintained(c: Config, gvk: GVK, st: Stores, s: CacheState, op: CacheOp)
    requires Maintained(c, gvk, st, s) && Harmless(gvk, s, op)
    ensures Maintained(c, gvk, st, Step(s, op))
  {
    hide Query, Consistent, Replicated, GvkOf, KeyOf;
    StepKeepsReplicated(s, op);
  }

  /** End to end: along every well-formed run, in which others may use the cache as they like except for
      writing to the target view, no write fails, the target cache equals the recomputed query over the base
      stores at every point, and so does the fold of the events of every handler that is registered for the
      target view at that point. */
  lemma {:induction false} ControllerMaintainsQuery(c: Config, gvk: GVK, typ: TargetType, moves: seq<Move>,
                                                    states: seq<(Stores, CacheState)>)
    requires ViewController(c, gvk, typ)
    requires ControllerRun(c, gvk, typ, moves, states) && WfControllerRun(c, moves, states)
    ensures forall i :: 0 <= i < |moves| && moves[i].Handle? ==> WriteAll(states[i].1, gvk, typ, moves[i].out).1.Ok?
    ensures forall i :: 0 <= i <= |moves| ==> CacheOf(states[i].1, gvk) == Query(c, states[i].0)
    ensures forall i, h :: 0 <= i <= |moves| && h in InformerOf(states[i].1, gvk).handlers ==>
              Fold(InformerOf(states[i].1, gvk).handlers[h]) == Query(c, states[i].0)
  {
    hide PipelineStep, Query, WfStep, KeysWellBehaved, WriteAll, Namespaced, WfConfig, Consistent;
    forall i | 0 <= i <= |moves| ensures Maintained(c, gvk, states[i].0, states[i].1) {
      MaintainedAt(c, gvk, typ, moves, states, i);
    }
    forall i | 0 <= i < |moves| && moves[i].Handle? ensures WriteAll(states[i].1, gvk, typ, moves[i].out).1.Ok? {
      assert MoveStep(c, gvk, typ, states[i].0, states[i].1, moves[i], states[i + 1].0, states[i + 1].1);
      assert WfMove(c, states[i].0, moves[i], states[i + 1].0);
      ControllerStepMaintains(c, gvk, typ, states[i].0, states[i].1, moves[i].event, states[i + 1].0, moves[i].out);
    }
    forall i, h | 0 <= i <= |moves| && h in InformerOf(states[i].1, gvk).handlers
      ensures Fold(InformerOf(states[i].1, gvk).handlers[h]) == Query(c, states[i].0)
    {
      InformerReady(states[i].1, gvk);
      assert Maintained(c, gvk, states[i].0, states[i].1);
    }
  }

  lemma {:induction false} MaintainedAt(c: Config, gvk: GVK, typ: TargetType, moves: seq<Move>,
                                        states: seq<(Stores, CacheState)>, n: nat)
    requires ViewController(c, gvk, typ) && n <= |moves|
    requires ControllerRun(c, gvk, typ, moves, states) && WfControllerRun(c, moves, states)
    ensures Maintained(c, gvk, states[n].0, states[n].1)
  {
    hide PipelineStep, Query, WfStep, KeysWellBehaved, WriteAll, Namespaced, WfConfig, Replicated, Harmless, Consistent;
    if n == 0 {
      EmptyEngine(c);
    } else {
      var (st, s) := states[n - 1];
      var m, st' := moves[n - 1], states[n].0;
      MaintainedAt(c, gvk, typ, moves, states, n - 1);
      assert MoveStep(c, gvk, typ, st, s, m, st', states[n].1) && WfMove(c, st, m, st');
      match m
      case Handle(d, out) => ControllerStepMaintains(c, gvk, typ, st, s, d, st', out);
      case Other(op) => OtherKeepsMaintained(c, gvk, st, s, op);
    }
  }
}
