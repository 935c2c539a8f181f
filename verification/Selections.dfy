/** Pipelines that only select: the query, stated without the stages' own evaluation. */
module Selections {
  import opened JsonTrees
  import opened Objects
  import opened Deltas
  import opened Joins
  import opened Aggregations
  import opened ImageViews
  import opened Pipelines
  import opened PipelineRefinement

  ghost predicate SelectOnly(stages: seq<Stage>) {
    forall i :: 0 <= i < |stages| ==> stages[i].Select?
  }

  /** All conditions hold on `o`. */
  ghost predicate Selected(stages: seq<Stage>, o: Object)
    requires SelectOnly(stages)
  {
    forall i :: 0 <= i < |stages| ==> stages[i].condition(o) == Ok(true)
  }

  /** The image of an object under selections: itself, recast into the view. */
  lemma SelectedImage(a: Aggregate, o: Object)
    requires SelectOnly(a.stages)
    ensures ProjectionOf(a)(o) ==
              if Selected(a.stages, o) && Normalize(a.view, o).Ok? then Some(Normalize(a.view, o).value) else None
  {
    hide Normalize;
    if Selected(a.stages, o) {
      SelectionsPass(a.stages, o);
    } else {
      var n :| 0 <= n < |a.stages| && a.stages[n].condition(o) != Ok(true);
      var m := FirstFalse(a.stages, o, n);
      SelectionsStop(a.stages, m, o);
    }
  }

  lemma RecastKeepsKey(view: string, o: Object)
    requires Normalize(view, o).Ok?
    ensures KeyOf(Normalize(view, o).value) == KeyOf(o)
  {
    NormalizeYieldsNamedViewObject(view, o);
  }

  /** The result of a query that only selects, key by key: the objects of the source on which every condition
      holds, recast into the view. No key clashes. */
  lemma SelectionQuery(c: Config, st: Stores, k: string)
    requires c.aggregation.Some? && SelectOnly(c.aggregation.value.stages) && WellKeyed(Source(c, st))
    ensures Injective(ProjectionOf(c.aggregation.value), Source(c, st))
    ensures var v, a := Source(c, st), c.aggregation.value;
            Lookup(Query(c, st), k) ==
            if k in v && Selected(a.stages, v[k]) && Normalize(a.view, v[k]).Ok?
            then Some(Normalize(a.view, v[k]).value) else None
  {
    var v, a := Source(c, st), c.aggregation.value;
    hide Normalize, KeyOf, Source, ProjectionOf, ImageView, Selected, Injective, ImageKey;
    forall j
      ensures ImageKey(ProjectionOf(a), Lookup(v, j)).Some? ==> ImageKey(ProjectionOf(a), Lookup(v, j)) == Some(j)
    {
      SelectionKeepsKey(a, v, j);
    }
    KeyPreservingView(ProjectionOf(a), v, k);
    if k in v { SelectedImage(a, v[k]); }
  }

  lemma SelectionKeepsKey(a: Aggregate, v: Keyed, j: string)
    requires SelectOnly(a.stages) && WellKeyed(v)
    ensures ImageKey(ProjectionOf(a), Lookup(v, j)).Some? ==> ImageKey(ProjectionOf(a), Lookup(v, j)) == Some(j)
  {
    hide Normalize, KeyOf, ProjectionOf, Selected;
    if j in v {
      SelectedImage(a, v[j]);
      if Normalize(a.view, v[j]).Ok? { RecastKeepsKey(a.view, v[j]); }
    }
  }

  /** A projection that keeps keys maps a view row by row. */
  lemma KeyPreservingView(p: Projection, v: Keyed, k: string)
    requires forall j :: ImageKey(p, Lookup(v, j)).Some? ==> ImageKey(p, Lookup(v, j)) == Some(j)
    ensures Injective(p, v) && Lookup(ImageView(p, v), k) == ImageOf(p, Lookup(v, k))
  {
    hide ImageView, KeyOf, Lookup;
    if ImageKey(p, Lookup(v, k)).Some? {
      ImageLookup(p, v, k, k);
    } else {
      ImageLookupNone(p, v, k);
    }
  }

  /** For an object that can be recast and on which every condition evaluates: it has a row in the query if and
      only if all conditions hold on it. */
  lemma RowIffSelected(c: Config, st: Stores, k: string)
    requires c.aggregation.Some? && SelectOnly(c.aggregation.value.stages) && WellKeyed(Source(c, st))
    requires k in Source(c, st) && Normalize(c.aggregation.value.view, Source(c, st)[k]).Ok?
    requires var stages := c.aggregation.value.stages;
             forall i :: 0 <= i < |stages| ==> stages[i].condition(Source(c, st)[k]).Ok?
    ensures var stages := c.aggregation.value.stages;
            k in Query(c, st) <==> forall i :: 0 <= i < |stages| ==> stages[i].condition(Source(c, st)[k]).value
  {
    hide Normalize, Source, Query, WellKeyed;
    SelectionQuery(c, st, k);
  }
}
