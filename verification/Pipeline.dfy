/** A pipeline: an optional join followed by an optional aggregation, evaluated on one event. */
module Pipelines {
  import opened JsonTrees
  import opened Objects
  import opened Deltas
  import opened Joins
  import opened JoinMaintenance
  import opened Aggregations
  import opened Engine

  datatype Config = Config(views: seq<GVK>, join: Option<Condition>, aggregation: Option<Aggregate>)

  /** The deltas the aggregation is fed: those of the join, or the event itself. */
  ghost predicate SourceStep(c: Config, st: Stores, d: Delta, st': Stores, r: Result<seq<Delta>>) {
    if c.join.Some? then JoinStep(c.views, c.join.value, st, d, st', r)
    else st' == st && r == Ok([d])
  }

  ghost predicate OutputStep(c: Config, st: Stores, ds: seq<Delta>, st': Stores, r: Result<seq<Delta>>) {
    if c.aggregation.None? then st' == st && r == Ok(ds)
    else
      var (st1, res) := AggregateAll(c.aggregation.value, st, ds);
      && st' == st1
      && match res
         case Err(e) => r == Err(e)
         case Ok(all) => r.Ok? && IsCollapse(all, r.value)
  }

  /** One call of `Pipeline.Evaluate`, with the iteration orders left free. */
  ghost predicate PipelineStep(c: Config, st: Stores, d: Delta, st': Stores, r: Result<seq<Delta>>) {
    var st0 := InitStore(st, GvkOf(d.obj));
    if !ValidEvent(st0, d) then st' == st0 && r == Ok([])
    else
      exists mid: Stores, js :: SourceStep(c, st0, d, mid, js) &&
        match js
        case Err(e) => st' == mid && r == Err(e)
        case Ok(ds) => OutputStep(c, mid, ds, st', r)
  }

  class Pipeline {
    const join: Option<Condition>
    const aggregation: Option<Aggregate>
    const engine: DefaultEngine

    constructor (target: string, sources: seq<GVK>, join: Option<Condition>, stages: Option<seq<Stage>>)
      ensures this.join == join
      ensures this.aggregation == if stages.Some? then Some(Aggregate(target, stages.value)) else None
      ensures fresh(engine) && engine.Valid() && engine.baseviews == sources && engine.baseViewStore == map[]
    {
      this.join := join;
      this.aggregation := if stages.Some? then Some(Aggregate(target, stages.value)) else None;
      this.engine := new DefaultEngine(target, sources);
    }

    ghost function Settings(): Config {
      Config(engine.baseviews, join, aggregation)
    }

    method Evaluate(delta: Delta) returns (r: Result<seq<Delta>>)
      requires engine.Valid()
      modifies engine
      ensures engine.Valid()
      ensures PipelineStep(Settings(), old(engine.baseViewStore), delta, engine.baseViewStore, r)
    {
      hide JoinStep, AggregateAll, IsCollapse, ValidEvent;
      ghost var c := Settings();
      var valid := engine.IsValidEvent(delta);
      ghost var st0 := engine.baseViewStore;
      if !valid { return Ok([]); }
      var deltas: seq<Delta>;
      ghost var js: Result<seq<Delta>>;
      if join.Some? {
        var ds := engine.EvaluateJoin(join.value, delta);
        js := ds;
        if ds.Err? {
          assert SourceStep(c, st0, delta, engine.baseViewStore, js);
          return Err(ds.error);
        }
        deltas := ds.value;
      } else {
        deltas := [delta];
        js := Ok(deltas);
      }
      ghost var mid := engine.baseViewStore;
      assert SourceStep(c, st0, delta, mid, js);
      if aggregation.Some? {
        var res := AggregateEach(aggregation.value, deltas);
        if res.Err? { return Err(res.error); }
        var out := CollapseDeltas(res.value);
        r := Ok(out);
      } else {
        r := Ok(deltas);
      }
      assert OutputStep(c, mid, deltas, engine.baseViewStore, r);
    }

    method AggregateEach(a: Aggregate, deltas: seq<Delta>) returns (r: Result<seq<Delta>>)
      requires engine.Valid()
      modifies engine
      ensures engine.Valid()
      ensures (engine.baseViewStore, r) == AggregateAll(a, old(engine.baseViewStore), deltas)
    {
      hide AggregateStep;
      var res: seq<Delta> := [];
      for i := 0 to |deltas|
        invariant engine.Valid()
        invariant (engine.baseViewStore, Ok(res)) == AggregateAll(a, old(engine.baseViewStore), deltas[..i])
      {
        assert deltas[..i + 1][..i] == deltas[..i];
        var ds := engine.EvaluateAggregation(a, deltas[i]);
        if ds.Err? {
          FeedStopsAtError(a, old(engine.baseViewStore), deltas, i + 1);
          return Err(ds.error);
        }
        res := res + ds.value;
      }
      assert deltas[..|deltas|] == deltas;
      return Ok(res);
    }
  }

  lemma {:induction false} FeedStopsAtError(a: Aggregate, st: Stores, ds: seq<Delta>, n: nat)
    requires n <= |ds| && AggregateAll(a, st, ds[..n]).1.Err?
    ensures AggregateAll(a, st, ds) == AggregateAll(a, st, ds[..n])
  {
    hide AggregateStep;
    if n < |ds| {
      assert ds[..|ds| - 1][..n] == ds[..n];
      FeedStopsAtError(a, st, ds[..|ds| - 1], n);
    } else {
      assert ds[..n] == ds;
    }
  }

  /** A pipeline over several sources needs a join. */
  method NewPipeline(target: string, sources: seq<GVK>, join: Option<Condition>, stages: Option<seq<Stage>>)
    returns (r: Result<Pipeline>)
    ensures r.Err? <==> |sources| > 1 && join.None?
    ensures r.Err? ==> r.error == MissingJoin
    ensures r.Ok? ==>
              && fresh(r.value) && fresh(r.value.engine) && r.value.engine.Valid()
              && r.value.engine.baseViewStore == map[]
              && r.value.Settings() == Config(sources, join,
                   if stages.Some? then Some(Aggregate(target, stages.value)) else None)
  {
    if |sources| > 1 && join.None? { return Err(MissingJoin); }
    var p := new Pipeline(target, sources, join, stages);
    return Ok(p);
  }
}
