/** Joins over views of which nothing has been seen yet. The product leaves their slots empty, so a condition
    that holds without a member yields rows the full join does not have. The results say exactly when. */
module UnseenViews {
  import opened JsonTrees
  import opened Objects
  import opened Deltas
  import opened Joins
  import opened JoinMaintenance
  import opened Aggregations
  import opened Engine
  import opened JoinRefinement

  /** The full join is empty as long as a view has not been seen. */
  lemma NoJoinYet(views: seq<GVK>, cond: Condition, st: Stores, unseen: GVK)
    requires unseen in views && unseen !in st
    ensures JoinView(views, cond, st) == map[]
  {
    hide JoinObject, JoinInput, KeyOf;
    var p :| 0 <= p < |views| && views[p] == unseen;
    forall u ensures u !in Tuples(views, st) {
      TuplesExact(views, st, u);
    }
    assert JoinRows(views, cond, st) == {};
    assert KeysOf({}) == {};
  }

  lemma LastDecides(ds: seq<Delta>, v: Keyed)
    requires ds != [] && Settled(ds[|ds| - 1]) && ds[|ds| - 1].typ != Deleted
    ensures Apply(ds, v) != map[]
  {
    hide KeyOf;
    assert DeltaKey(ds[|ds| - 1]) in Apply(ds, v);
  }

  lemma {:induction false} DeletesKeepEmpty(ds: seq<Delta>)
    requires AllOfType(ds, Deleted)
    ensures Apply(ds, map[]) == map[]
  {
    if ds != [] {
      DeletesKeepEmpty(ds[..|ds| - 1]);
      assert ds[|ds| - 1] in ds;
    }
  }

  lemma {:induction false} RetypeSplits(ds: seq<Delta>, others: seq<Delta>, t: DeltaType, u: DeltaType)
    ensures AllOfType(Retype(ds, others, true, t), t) && AllOfType(Retype(ds, others, false, u), u)
    ensures |Retype(ds, others, true, t)| + |Retype(ds, others, false, u)| == |ds|
  {
    hide Contains;
    if ds != [] { RetypeSplits(ds[..|ds| - 1], others, t, u); }
  }

  /** An update leaves an empty view empty if and only if its add half has no rows. */
  lemma ConsolidatedOnEmpty(dels: seq<Delta>, adds: seq<Delta>)
    ensures Apply(Consolidated(dels, adds), map[]) == map[] <==> adds == []
  {
    var d, m, a := Retype(dels, adds, false, Deleted), Retype(adds, dels, true, Updated),
                   Retype(adds, dels, false, Added);
    var ds := Consolidated(dels, adds);
    RetypeSplits(dels, adds, Updated, Deleted);
    RetypeSplits(adds, dels, Updated, Added);
    hide Retype, Apply, KeyOf;
    if adds == [] {
      assert ds == d;
      DeletesKeepEmpty(ds);
    } else {
      var last := ds[|ds| - 1];
      assert last in m || last in a;
      LastDecides(ds, map[]);
    }
  }

  lemma AddsOnEmpty(rows: seq<Object>)
    ensures Apply(AsDeltas(Added, rows), map[]) == map[] <==> rows == []
  {
    if rows != [] { LastDecides(AsDeltas(Added, rows), map[]); }
  }

  lemma RowsIff(views: seq<GVK>, cond: Condition, st: Stores, o: Object, rows: seq<Object>)
    requires RowsThrough(views, cond, st, o, rows)
    ensures rows == [] <==> forall t :: IsThrough(views, st, o, t) ==> !Matches(cond, t)
  {
    var ts :| EnumeratesThrough(views, st, o, ts) && rows == SelectRows(cond, ts);
    SelectRowsElements(cond, ts);
    hide IsThrough, SelectRows, JoinObject, JoinInput;
    if rows != [] { assert rows[0] in rows; }
  }

  /** The event puts an object into its store that was not there before. */
  ghost predicate NewlyStored(st: Stores, d: Delta) {
    d.typ != Deleted && d.typ != Sync && Lookup(StoreAt(st, GvkOf(d.obj)), DeltaKey(d)) != Some(d.obj)
  }

  /** The product visits a tuple if and only if no other view has been seen to be empty; where a view has not been
      seen at all, the slot is empty and the product goes on. */
  lemma {:induction false} ProductVisitsIff(views: seq<GVK>, st: Stores, o: Object)
    ensures (exists t :: IsThrough(views, st, o, t)) <==>
              forall v :: v in views && v != GvkOf(o) && v in st ==> st[v] != map[]
    ensures forall t, i :: IsThrough(views, st, o, t) && 0 <= i < |t| && views[i] != GvkOf(o) ==>
              (t[i] == None <==> views[i] !in st)
    decreases |views|
  {
    hide GvkOf;
    if views == [] {
      assert IsThrough(views, st, o, []);
    } else {
      var pre, last := views[..|views| - 1], views[|views| - 1];
      ProductVisitsIff(pre, st, o);
      assert views == pre + [last];
      if t :| IsThrough(views, st, o, t) {
        assert IsThrough(pre, st, o, t[..|pre|]);
        assert ThroughSlot(last, st, o, t[|pre|]);
      }
      if forall v :: v in views && v != GvkOf(o) && v in st ==> st[v] != map[] {
        var t :| IsThrough(pre, st, o, t);
        var slot := SomeSlot(last, st, o);
        assert IsThrough(views, st, o, t + [slot]);
      }
    }
  }

  lemma SomeSlot(view: GVK, st: Stores, o: Object) returns (slot: Option<Object>)
    requires view != GvkOf(o) && view in st ==> st[view] != map[]
    ensures ThroughSlot(view, st, o, slot)
  {
    if view == GvkOf(o) {
      slot := Some(o);
    } else if view in st {
      var k :| k in st[view];
      slot := Some(st[view][k]);
    } else {
      slot := None;
    }
  }

  ghost predicate NoneMatches(views: seq<GVK>, cond: Condition, st: Stores, o: Object) {
    forall t :: IsThrough(views, st, o, t) ==> !Matches(cond, t)
  }

  /** While a view is unseen no tuple is complete, so a complete condition is one that never holds. */
  lemma UnseenComplete(views: seq<GVK>, cond: Condition, st: Stores, o: Object, unseen: GVK)
    requires unseen in views && unseen !in st && unseen != GvkOf(o)
    ensures Complete(views, cond, st, o) <==> NoneMatches(views, cond, st, o)
  {
    hide GvkOf, JoinInput;
    var p :| 0 <= p < |views| && views[p] == unseen;
    forall t: Tuple | IsThrough(views, st, o, t) ensures !AllPresent(t) {
      assert ThroughSlot(views[p], st, o, t[p]);
    }
  }

  lemma UnseenAdd(views: seq<GVK>, cond: Condition, st: Stores, o: Object, st': Stores, ds: seq<Delta>)
    requires GvkOf(o) in st && JoinAddStep(views, cond, st, o, st', Ok(ds))
    ensures st'.Keys == st.Keys
    ensures Apply(ds, map[]) == map[] <==> NoneMatches(views, cond, st, o)
    ensures ds == [] <==> NoneMatches(views, cond, st, o)
  {
    hide GvkOf, KeyOf, RowsThrough, JoinFails, Apply, IsThrough, Matches;
    var rows :| JoinEval(views, cond, st, o, Ok(rows)) && st' == Put(st, o) && ds == AsDeltas(Added, rows);
    RowsIff(views, cond, st, o, rows);
    AddsOnEmpty(rows);
  }

  lemma UnseenDelete(views: seq<GVK>, cond: Condition, st: Stores, o: Object, st': Stores, ds: seq<Delta>)
    requires GvkOf(o) in st && JoinDeleteStep(views, cond, st, o, st', Ok(ds))
    ensures st'.Keys == st.Keys && SameElsewhere(st, st', o) && Apply(ds, map[]) == map[]
  {
    hide GvkOf, KeyOf, RowsThrough, JoinFails, Apply;
    assert AllOfType(ds, Deleted);
    DeletesKeepEmpty(ds);
  }

  lemma UnseenReplace(views: seq<GVK>, cond: Condition, st: Stores, o: Object, st': Stores, ds: seq<Delta>)
    requires GvkOf(o) in st && JoinReplaceStep(views, cond, st, o, st', Ok(ds))
    ensures st'.Keys == st.Keys
    ensures Apply(ds, map[]) == map[] <==> NoneMatches(views, cond, st, o)
  {
    hide GvkOf, KeyOf, JoinDeleteStep, JoinAddStep, Consolidated, Apply, IsThrough, Matches;
    var mid: Stores, rd, ra :| GvkOf(o) in mid && JoinDeleteStep(views, cond, st, o, mid, rd) && rd.Ok?
      && JoinAddStep(views, cond, mid, o, st', ra) && ra.Ok? && ds == Consolidated(rd.value, ra.value);
    UnseenDelete(views, cond, st, o, mid, rd.value);
    UnseenAdd(views, cond, mid, o, st', ra.value);
    ConsolidatedOnEmpty(rd.value, ra.value);
    forall t ensures IsThrough(views, st, o, t) <==> IsThrough(views, mid, o, t) {
      ThroughIgnoresOwnStore(views, st, mid, o, t);
    }
  }

  /** While a view is unseen the emitted deltas agree with the full join, which is empty, if and only if no
      tuple through a newly stored object matches. */
  lemma UnseenViewIff(views: seq<GVK>, cond: Condition, st: Stores, d: Delta, st': Stores, ds: seq<Delta>, unseen: GVK)
    requires unseen in views && unseen !in st && unseen != GvkOf(d.obj)
    requires JoinStep(views, cond, st, d, st', Ok(ds))
    ensures JoinView(views, cond, st) == map[] == JoinView(views, cond, st')
    ensures Apply(ds, map[]) == map[] <==> (NewlyStored(st, d) ==> NoneMatches(views, cond, st, d.obj))
  {
    var g := GvkOf(d.obj);
    var st0 := InitStore(st, g);
    hide GvkOf, KeyOf, JoinDeleteStep, JoinAddStep, JoinReplaceStep, Apply, IsThrough, Matches, JoinView;
    forall t ensures IsThrough(views, st, d.obj, t) <==> IsThrough(views, st0, d.obj, t) {
      ThroughIgnoresOwnStore(views, st, st0, d.obj, t);
    }
    assert NoneMatches(views, cond, st, d.obj) <==> NoneMatches(views, cond, st0, d.obj);
    assert NewlyStored(st, d) <==> ValidEvent(st0, d) && d.typ != Deleted && d.typ != Sync;
    NothingApplied();
    if ValidEvent(st0, d) {
      match Resolve(st0, d)
      case Added => UnseenAdd(views, cond, st0, d.obj, st', ds);
      case Updated => UnseenReplace(views, cond, st0, d.obj, st', ds);
      case Replaced => UnseenReplace(views, cond, st0, d.obj, st', ds);
      case Deleted => UnseenDelete(views, cond, st0, d.obj, st', ds);
      case Sync =>
    }
    NoJoinYet(views, cond, st, unseen);
    NoJoinYet(views, cond, st', unseen);
  }

  lemma NothingApplied()
    ensures Apply([], map[]) == map[]
  {
  }

  /** Incremental join equals full join, with the exact condition: a successful step on a well-formed event
      leads to the full join if and only if no tuple through a newly stored object matches with a member
      missing. Deletes are always right. */
  lemma JoinStepCorrectIff(views: seq<GVK>, cond: Condition, st: Stores, d: Delta, st': Stores, ds: seq<Delta>)
    requires JoinReady(views, st) && WfEvent(views, st, d)
    requires d.typ != Deleted && d.typ != Sync ==> IdSafe(views, d.obj)
    requires JoinStep(views, cond, st, d, st', Ok(ds))
    ensures Apply(ds, JoinView(views, cond, st)) == JoinView(views, cond, st') <==>
              (NewlyStored(st, d) ==> Complete(views, cond, st, d.obj))
  {
    hide KeyOf, GvkOf, JoinStep, Complete, Apply, JoinView, IdSafe, WfViews, MinimalDiff, NewlyStored, NoneMatches;
    if unseen :| unseen in views && unseen !in st && unseen != GvkOf(d.obj) {
      UnseenViewIff(views, cond, st, d, st', ds, unseen);
      UnseenComplete(views, cond, st, d.obj, unseen);
    } else {
      SeenIsComplete(views, cond, st, d.obj);
      if GvkOf(d.obj) in st && KeyOf(d.obj) in st[GvkOf(d.obj)] {
        assert StoreOk(views, GvkOf(d.obj), st[GvkOf(d.obj)]);
        SeenIsComplete(views, cond, st, st[GvkOf(d.obj)][KeyOf(d.obj)]);
      }
      assert SafeEvent(views, cond, st, d);
      JoinStepIsExactDifference(views, cond, st, d, st', ds);
      MinimalDiffApplies(ds, JoinView(views, cond, st), JoinView(views, cond, st'));
    }
  }
}
