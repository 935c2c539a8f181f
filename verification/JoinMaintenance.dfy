/** How the join view reacts when one base store gains, loses or replaces one object: the rows through
    that object are exactly the difference. */
module JoinMaintenance {
  import opened JsonTrees
  import opened Objects
  import opened Deltas
  import opened Joins

  function InitStore(st: Stores, gvk: GVK): Stores {
    if gvk in st then st else st[gvk := map[]]
  }

  function Put(st: Stores, o: Object): Stores
    requires GvkOf(o) in st
  {
    st[GvkOf(o) := st[GvkOf(o)][KeyOf(o) := o]]
  }

  function Remove(st: Stores, gvk: GVK, key: string): Stores
    requires gvk in st
  {
    st[gvk := st[gvk] - {key}]
  }

  function AsDeltas(t: DeltaType, rows: seq<Object>): (ds: seq<Delta>)
    ensures |ds| == |rows| && forall i :: 0 <= i < |rows| ==> ds[i] == Delta(t, rows[i])
  {
    seq(|rows|, i requires 0 <= i < |rows| => Delta(t, rows[i]))
  }

  /** `o` is new to its store. */
  ghost predicate Fresh(st: Stores, o: Object) {
    GvkOf(o) in st && KeyOf(o) !in st[GvkOf(o)]
  }

  lemma PutValues(st: Stores, o: Object)
    requires Fresh(st, o)
    ensures Put(st, o)[GvkOf(o)].Values == st[GvkOf(o)].Values + {o}
  {
    var g, k := GvkOf(o), KeyOf(o);
    var s, s' := st[g], Put(st, o)[g];
    forall x | x in s'.Values ensures x in s.Values + {o} {
      var i :| i in s' && s'[i] == x;
    }
    forall x | x in s.Values + {o} ensures x in s'.Values {
      if x in s.Values {
        var i :| i in s && s[i] == x;
        assert i in s' && s'[i] == x;
      } else {
        assert k in s' && s'[k] == o;
      }
    }
  }

  /** Stores that differ at most in the view of `o`. */
  ghost predicate SameElsewhere(st: Stores, st': Stores, o: Object) {
    forall g :: g != GvkOf(o) ==> (g in st <==> g in st') && (g in st ==> st[g] == st'[g])
  }

  lemma ThroughIgnoresOwnStore(views: seq<GVK>, st: Stores, st': Stores, o: Object, t: Tuple)
    requires SameElsewhere(st, st', o)
    ensures IsThrough(views, st, o, t) <==> IsThrough(views, st', o, t)
  {
    hide GvkOf;
    forall i | 0 <= i < |views| && |t| == |views|
      ensures ThroughSlot(views[i], st, o, t[i]) <==> ThroughSlot(views[i], st', o, t[i])
    {
    }
  }

  lemma OwnStoreIrrelevant(views: seq<GVK>, cond: Condition, st: Stores, st': Stores, o: Object)
    requires SameElsewhere(st, st', o)
    ensures Complete(views, cond, st, o) <==> Complete(views, cond, st', o)
    ensures forall rows :: RowsThrough(views, cond, st, o, rows) <==> RowsThrough(views, cond, st', o, rows)
  {
    forall t ensures IsThrough(views, st, o, t) <==> IsThrough(views, st', o, t) {
      ThroughIgnoresOwnStore(views, st, st', o, t);
    }
    hide IsThrough, SelectRows, AllPresent, JoinInput;
    forall ts ensures EnumeratesThrough(views, st, o, ts) <==> EnumeratesThrough(views, st', o, ts) {
    }
  }

  /** The n-ary product splits: the tuples after `o` has arrived are those before, and those through `o`. */
  lemma TupleDecomposition(views: seq<GVK>, st: Stores, o: Object, t: Tuple)
    requires WfViews(views) && GvkOf(o) in views && Fresh(st, o)
    ensures IsTuple(views, Put(st, o), t) <==>
              IsTuple(views, st, t) || (IsThrough(views, st, o, t) && AllPresent(t))
  {
    var st' := Put(st, o);
    PutValues(st, o);
    var p :| 0 <= p < |views| && views[p] == GvkOf(o);
    forall i | 0 <= i < |views| && i != p ensures views[i] != GvkOf(o) {
      assert views[i].kind != views[p].kind;
    }
    if IsTuple(views, st', t) {
      assert t[p].value in st[views[p]].Values || t[p].value == o;
    }
  }

  /** A tuple of the old stores never goes through a fresh object. */
  lemma OldTupleMissesFresh(views: seq<GVK>, st: Stores, o: Object, t: Tuple, u: Tuple)
    requires WfViews(views) && StoresOk(views, st) && GvkOf(o) in views && Fresh(st, o) && IdSafe(views, o)
    requires IsTuple(views, st, t)
    requires IsThrough(views, st, o, u) && FullTuple(views, u)
    ensures KeyOf(JoinObject(t)) != KeyOf(JoinObject(u))
  {
    var p :| 0 <= p < |views| && views[p] == GvkOf(o);
    if KeyOf(JoinObject(t)) == KeyOf(JoinObject(u)) {
      TupleIsFull(views, st, t);
      KeyDeterminesMembers(views, t, u);
      assert false;
    }
  }

  lemma PutKeepsStoresOk(views: seq<GVK>, st: Stores, o: Object)
    requires StoresOk(views, st) && GvkOf(o) in st && IdSafe(views, o)
    ensures StoresOk(views, Put(st, o))
  {
  }

  /** The rows through a fresh object are exactly what the join view gains: none was there before, each
      is there afterwards, no key is listed twice, and no other key changes. */
  ghost predicate ExactGain(rows: seq<Object>, v: Keyed, w: Keyed) {
    && DistinctObjects(rows)
    && (forall r :: r in rows ==> KeyOf(r) !in v && Lookup(w, KeyOf(r)) == Some(r))
    && (forall k :: Lookup(v, k) != Lookup(w, k) ==> exists r :: r in rows && KeyOf(r) == k)
  }

  ghost predicate TemporaryRows(rows: seq<Object>) {
    forall r :: r in rows ==> GvkOf(r) == ViewGvk(TMP_JOIN_VIEW) && NamespaceOf(r) == ""
  }

  /** Everything the difference theorems ask of the views, the condition, the stores and the object. */
  ghost predicate Maintainable(views: seq<GVK>, cond: Condition, st: Stores, o: Object) {
    && WfViews(views) && StoresOk(views, st)
    && GvkOf(o) in views && IdSafe(views, o) && Complete(views, cond, st, o)
  }

  lemma RowsOfEnumeration(views: seq<GVK>, cond: Condition, st: Stores, o: Object, ts: seq<Tuple>, r: Object)
    returns (t: Tuple)
    requires Maintainable(views, cond, st, o) && EnumeratesThrough(views, st, o, ts)
    requires r in SelectRows(cond, ts)
    ensures IsThrough(views, st, o, t) && Matches(cond, t) && FullTuple(views, t) && r == JoinObject(t)
  {
    SelectRowsElements(cond, ts);
    t :| t in ts && Matches(cond, t) && r == JoinObject(t);
    MatchingThroughIsFull(views, cond, st, o, t);
  }

  lemma GainedRowsAreNew(views: seq<GVK>, cond: Condition, st: Stores, o: Object, ts: seq<Tuple>, r: Object)
    requires Maintainable(views, cond, st, o) && Fresh(st, o) && EnumeratesThrough(views, st, o, ts)
    requires r in SelectRows(cond, ts)
    ensures KeyOf(r) !in JoinView(views, cond, st)
    ensures Lookup(JoinView(views, cond, Put(st, o)), KeyOf(r)) == Some(r)
    ensures GvkOf(r) == ViewGvk(TMP_JOIN_VIEW) && NamespaceOf(r) == ""
  {
    var t := RowsOfEnumeration(views, cond, st, o, ts, r);
    JoinObjectIdentity(views, t);
    TupleDecomposition(views, st, o, t);
    PutKeepsStoresOk(views, st, o);
    JoinViewExact(views, cond, Put(st, o));
    JoinViewExact(views, cond, st);
    if KeyOf(r) in JoinView(views, cond, st) {
      var u :| IsTuple(views, st, u) && Matches(cond, u) && KeyOf(JoinObject(u)) == KeyOf(r);
      OldTupleMissesFresh(views, st, o, u, t);
      assert false;
    }
  }

  lemma ChangedKeysAreGained(views: seq<GVK>, cond: Condition, st: Stores, o: Object, ts: seq<Tuple>, k: string)
    requires Maintainable(views, cond, st, o) && Fresh(st, o) && EnumeratesThrough(views, st, o, ts)
    requires Lookup(JoinView(views, cond, st), k) != Lookup(JoinView(views, cond, Put(st, o)), k)
    ensures exists r :: r in SelectRows(cond, ts) && KeyOf(r) == k
  {
    hide JoinObject, JoinInput, KeyOf, JoinView, WfViews;
    var v, w := JoinView(views, cond, st), JoinView(views, cond, Put(st, o));
    PutKeepsStoresOk(views, st, o);
    JoinViewExact(views, cond, st);
    JoinViewExact(views, cond, Put(st, o));
    if k in v {
      var t :| IsTuple(views, st, t) && Matches(cond, t) && KeyOf(JoinObject(t)) == k;
      TupleDecomposition(views, st, o, t);
      assert false;
    } else {
      var t :| IsTuple(views, Put(st, o), t) && Matches(cond, t) && KeyOf(JoinObject(t)) == k;
      TupleDecomposition(views, st, o, t);
      SelectRowsElements(cond, ts);
      assert JoinObject(t) in SelectRows(cond, ts);
    }
  }

  lemma EnumeratedRowsDistinct(views: seq<GVK>, cond: Condition, st: Stores, o: Object, ts: seq<Tuple>)
    requires Maintainable(views, cond, st, o) && Fresh(st, o) && EnumeratesThrough(views, st, o, ts)
    ensures DistinctObjects(SelectRows(cond, ts))
  {
    forall t, u | t in ts && u in ts && Matches(cond, t) && Matches(cond, u) && t != u
      ensures KeyOf(JoinObject(t)) != KeyOf(JoinObject(u))
    {
      if KeyOf(JoinObject(t)) == KeyOf(JoinObject(u)) {
        MatchingThroughIsFull(views, cond, st, o, t);
        MatchingThroughIsFull(views, cond, st, o, u);
        TupleDecomposition(views, st, o, t);
        TupleDecomposition(views, st, o, u);
        PutKeepsStoresOk(views, st, o);
        KeyDeterminesTuple(views, Put(st, o), t, u);
        assert false;
      }
    }
    SelectRowsDistinct(cond, ts);
  }

  lemma RowsThroughAreExactGain(views: seq<GVK>, cond: Condition, st: Stores, o: Object, rows: seq<Object>)
    requires Maintainable(views, cond, st, o) && Fresh(st, o)
    requires RowsThrough(views, cond, st, o, rows)
    ensures ExactGain(rows, JoinView(views, cond, st), JoinView(views, cond, Put(st, o)))
    ensures TemporaryRows(rows)
  {
    var ts :| EnumeratesThrough(views, st, o, ts) && rows == SelectRows(cond, ts);
    EnumeratedRowsDistinct(views, cond, st, o, ts);
    var v, w := JoinView(views, cond, st), JoinView(views, cond, Put(st, o));
    forall r | r in rows
      ensures KeyOf(r) !in v && Lookup(w, KeyOf(r)) == Some(r)
      ensures GvkOf(r) == ViewGvk(TMP_JOIN_VIEW) && NamespaceOf(r) == ""
    {
      GainedRowsAreNew(views, cond, st, o, ts, r);
    }
    forall k | Lookup(v, k) != Lookup(w, k) ensures exists r :: r in rows && KeyOf(r) == k {
      ChangedKeysAreGained(views, cond, st, o, ts, k);
    }
  }

  lemma ExactGainAsAdds(rows: seq<Object>, v: Keyed, w: Keyed)
    requires ExactGain(rows, v, w)
    ensures MinimalDiff(AsDeltas(Added, rows), v, w)
  {
    var ds := AsDeltas(Added, rows);
    forall k | Lookup(v, k) != Lookup(w, k) ensures exists d :: d in ds && DeltaKey(d) == k {
      var r :| r in rows && KeyOf(r) == k;
      var i :| 0 <= i < |rows| && rows[i] == r;
      assert ds[i] in ds;
    }
    forall d | d in ds ensures DiffDelta(d, v, w) {
      var i :| 0 <= i < |ds| && ds[i] == d;
      assert rows[i] in rows;
    }
  }

  lemma ExactGainAsDeletes(rows: seq<Object>, v: Keyed, w: Keyed)
    requires ExactGain(rows, v, w)
    ensures MinimalDiff(AsDeltas(Deleted, rows), w, v)
  {
    var ds := AsDeltas(Deleted, rows);
    forall k | Lookup(w, k) != Lookup(v, k) ensures exists d :: d in ds && DeltaKey(d) == k {
      var r :| r in rows && KeyOf(r) == k;
      var i :| 0 <= i < |rows| && rows[i] == r;
      assert ds[i] in ds;
    }
    forall d | d in ds ensures DiffDelta(d, w, v) {
      var i :| 0 <= i < |ds| && ds[i] == d;
      assert rows[i] in rows;
    }
  }

  /** Removing the stored object at a key makes it fresh again, and putting it back restores the stores. */
  lemma RemoveThenPut(views: seq<GVK>, st: Stores, gvk: GVK, key: string)
    requires gvk in views && gvk in st && key in st[gvk] && StoresOk(views, st)
    ensures var o := st[gvk][key];
            && GvkOf(o) == gvk && KeyOf(o) == key && IdSafe(views, o)
            && Fresh(Remove(st, gvk, key), o) && Put(Remove(st, gvk, key), o) == st
            && StoresOk(views, Remove(st, gvk, key))
  {
    assert StoreOk(views, gvk, st[gvk]);
    var o := st[gvk][key];
    var r := Put(Remove(st, gvk, key), o);
    assert r[gvk] == st[gvk];
    assert r == st;
  }

  /** Adding an object: the rows through it, as adds, are the exact difference of the join views. */
  lemma AddIsMinimalDiff(views: seq<GVK>, cond: Condition, st: Stores, o: Object, rows: seq<Object>)
    requires Maintainable(views, cond, st, o) && Fresh(st, o)
    requires RowsThrough(views, cond, st, o, rows)
    ensures MinimalDiff(AsDeltas(Added, rows), JoinView(views, cond, st), JoinView(views, cond, Put(st, o)))
    ensures TemporaryRows(rows)
  {
    RowsThroughAreExactGain(views, cond, st, o, rows);
    ExactGainAsAdds(rows, JoinView(views, cond, st), JoinView(views, cond, Put(st, o)));
  }

  /** Deleting a stored object: the rows through it, as deletes, are the exact difference. */
  lemma DeleteIsMinimalDiff(views: seq<GVK>, cond: Condition, st: Stores, gvk: GVK, key: string, rows: seq<Object>)
    requires WfViews(views) && StoresOk(views, st)
    requires gvk in views && gvk in st && key in st[gvk] && Complete(views, cond, st, st[gvk][key])
    requires RowsThrough(views, cond, st, st[gvk][key], rows)
    ensures MinimalDiff(AsDeltas(Deleted, rows), JoinView(views, cond, st), JoinView(views, cond, Remove(st, gvk, key)))
    ensures TemporaryRows(rows)
  {
    var o, st' := st[gvk][key], Remove(st, gvk, key);
    RemoveThenPut(views, st, gvk, key);
    OwnStoreIrrelevant(views, cond, st, st', o);
    RowsThroughAreExactGain(views, cond, st', o, rows);
    ExactGainAsDeletes(rows, JoinView(views, cond, st'), JoinView(views, cond, st));
  }

  /** A row through the old object differs from the row with the same key through the new one. */
  lemma ReplacedRowsDiffer(views: seq<GVK>, cond: Condition, st: Stores, o: Object, n: Object,
                           olds: seq<Object>, news: seq<Object>, r: Object, r': Object)
    requires Maintainable(views, cond, st, o) && Maintainable(views, cond, st, n)
    requires GvkOf(o) == GvkOf(n) && o != n
    requires RowsThrough(views, cond, st, o, olds) && RowsThrough(views, cond, st, n, news)
    requires r in olds && r' in news
    ensures r != r'
  {
    hide JoinObject, JoinInput, SelectRows, WfViews, StoresOk, IdSafe, KeyOf;
    var ts :| EnumeratesThrough(views, st, o, ts) && olds == SelectRows(cond, ts);
    var us :| EnumeratesThrough(views, st, n, us) && news == SelectRows(cond, us);
    var t := RowsOfEnumeration(views, cond, st, o, ts, r);
    var u := RowsOfEnumeration(views, cond, st, n, us, r');
    JoinObjectIdentity(views, t);
    JoinObjectIdentity(views, u);
    var p :| 0 <= p < |views| && views[p] == GvkOf(o);
    assert ThroughSlot(views[p], st, o, t[p]) && ThroughSlot(views[p], st, n, u[p]);
    assert r[views[p].kind] == Obj(o) && r'[views[p].kind] == Obj(n);
  }
}
