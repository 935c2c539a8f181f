/** Feeding an exact difference through a projection, one row at a time. The outcome is the projected
    view exactly when no key passes from one updated row to another updated earlier in the list. */
module Feeding {
  import opened JsonTrees
  import opened Objects
  import opened Deltas
  import opened Aggregations
  import opened ImageViews

  /** The deltas produced by the rows of `ds` in turn, starting from view `v`. */
  ghost function Feed(p: Projection, v: Keyed, ds: seq<Delta>): seq<Delta> {
    if ds == [] then []
    else
      var pre, k := ds[..|ds| - 1], DeltaKey(ds[|ds| - 1]);
      Feed(p, v, pre) + ImageDeltas(ImageOf(p, Lookup(Apply(pre, v), k)), ImageOf(p, Lookup(Apply(ds, v), k)))
  }

  // ---- Sufficient: every intermediate view is injective ----

  ghost predicate Owned(p: Projection, w: Keyed, ds: seq<Delta>, key: string) {
    exists k :: HasKey(ds, k) && ImageKey(p, Lookup(w, k)) == Some(key)
  }

  /** The keys an image replacement touches; an add comes last and carries the new image. */
  lemma ImageDeltasKeys(before: Option<Object>, after: Option<Object>)
    ensures var ds := ImageDeltas(before, after);
            && AddsAreFinal(ds)
            && (forall d :: d in ds ==> Settled(d))
            && (forall d :: d in ds ==>
                  || (before.Some? && DeltaKey(d) == KeyOf(before.value))
                  || (after.Some? && DeltaKey(d) == KeyOf(after.value)))
            && (forall d :: d in ds && d.typ == Added ==> after.Some? && d.obj == after.value)
  {
    hide KeyOf;
  }

  lemma ApplyLastRow(v: Keyed, ds: seq<Delta>)
    requires ds != []
    ensures DiffersAt(Apply(ds[..|ds| - 1], v), Apply(ds, v), DeltaKey(ds[|ds| - 1]))
  {
    hide DeltaKey;
  }

  /** What feeding `ds` from `v` achieves. */
  ghost predicate Maintains(p: Projection, v: Keyed, ds: seq<Delta>) {
    && Apply(Feed(p, v, ds), ImageView(p, v)) == ImageView(p, Apply(ds, v))
    && Strict(Feed(p, v, ds), ImageView(p, v))
    && AddsAreFinal(Feed(p, v, ds))
    && forall d :: d in Feed(p, v, ds) && d.typ == Added ==> Owned(p, Apply(ds, v), ds, DeltaKey(d))
  }

  lemma {:induction false} FeedMaintains(p: Projection, v: Keyed, ds: seq<Delta>)
    requires DistinctKeys(ds)
    requires forall i :: 0 <= i <= |ds| ==> Injective(p, Apply(ds[..i], v))
    ensures Maintains(p, v, ds)
  {
    hide Injective, ImageView, Feed, Maintains, DeltaKey;
    if ds == [] {
      EmptyFeed(p, v);
    } else {
      var pre := ds[..|ds| - 1];
      assert ds[..|ds|] == ds;
      assert forall i :: 0 <= i <= |pre| ==> pre[..i] == ds[..i];
      FeedMaintains(p, v, pre);
      FeedLastRow(p, v, ds);
    }
  }

  /** The last row of `ds` extends what its prefix achieves. */
  lemma FeedLastRow(p: Projection, v: Keyed, ds: seq<Delta>)
    requires ds != [] && DistinctKeys(ds)
    requires Maintains(p, v, ds[..|ds| - 1])
    requires Injective(p, Apply(ds[..|ds| - 1], v)) && Injective(p, Apply(ds, v))
    ensures Maintains(p, v, ds)
  {
    hide Injective, ImageView, DeltaKey, ImageKey, ImageOf, ImageDeltas, Owned, AddsAreFinal, DiffersAt, Apply, Strict,
         DistinctKeys;
    var pre, last := ds[..|ds| - 1], ds[|ds| - 1];
    var u, w, k := Apply(pre, v), Apply(ds, v), DeltaKey(last);
    ApplyLastRow(v, ds);
    RowChange(p, u, w, k);
    var out, s := Feed(p, v, pre), ImageDeltas(ImageOf(p, Lookup(u, k)), ImageOf(p, Lookup(w, k)));
    assert Feed(p, v, ds) == out + s;
    ApplyConcat(out, s, ImageView(p, v));
    StrictConcat(out, s, ImageView(p, v));
    assert ds == pre + [last];
    FeedOwners(p, u, w, pre, last, out);
  }

  lemma EmptyFeed(p: Projection, v: Keyed)
    ensures Maintains(p, v, [])
  {
  }

  /** Adds stay owned by the rows that made them, so no later row touches their keys. */
  lemma FeedOwners(p: Projection, u: Keyed, w: Keyed, pre: seq<Delta>, last: Delta, out: seq<Delta>)
    requires DistinctKeys(pre + [last])
    requires Injective(p, u) && Injective(p, w) && DiffersAt(u, w, DeltaKey(last))
    requires AddsAreFinal(out)
    requires forall d :: d in out && d.typ == Added ==> Owned(p, u, pre, DeltaKey(d))
    ensures var s := ImageDeltas(ImageOf(p, Lookup(u, DeltaKey(last))), ImageOf(p, Lookup(w, DeltaKey(last))));
            && AddsAreFinal(out + s)
            && forall d :: d in out + s && d.typ == Added ==> Owned(p, w, pre + [last], DeltaKey(d))
  {
    var k, ds := DeltaKey(last), pre + [last];
    var a, b := ImageOf(p, Lookup(u, k)), ImageOf(p, Lookup(w, k));
    var s := ImageDeltas(a, b);
    ImageDeltasKeys(a, b);
    assert last in ds;
    forall d | d in out && d.typ == Added
      ensures Owned(p, w, ds, DeltaKey(d))
      ensures forall e :: e in s ==> DeltaKey(e) != DeltaKey(d)
    {
      OwnerElsewhere(p, u, w, pre, last, DeltaKey(d));
    }
    forall d | d in s && d.typ == Added ensures Owned(p, w, ds, DeltaKey(d)) {
      assert HasKey(ds, k) && ImageKey(p, Lookup(w, k)) == Some(DeltaKey(d));
    }
    var all := out + s;
    forall i, j | 0 <= i < j < |all| && all[i].typ == Added ensures DeltaKey(all[i]) != DeltaKey(all[j]) {
      if i < |out| <= j {
        assert all[i] in out && all[j] in s;
      } else if |out| <= i {
        assert s[i - |out|] == all[i] && s[j - |out|] == all[j];
      }
    }
  }

  lemma OwnerElsewhere(p: Projection, u: Keyed, w: Keyed, pre: seq<Delta>, last: Delta, key: string)
    requires DistinctKeys(pre + [last])
    requires Injective(p, u) && Injective(p, w) && DiffersAt(u, w, DeltaKey(last))
    requires Owned(p, u, pre, key)
    ensures Owned(p, w, pre + [last], key)
    ensures ImageKey(p, Lookup(u, DeltaKey(last))) != Some(key)
    ensures ImageKey(p, Lookup(w, DeltaKey(last))) != Some(key)
  {
    var k0 :| HasKey(pre, k0) && ImageKey(p, Lookup(u, k0)) == Some(key);
    var d :| d in pre && DeltaKey(d) == k0;
    var i :| 0 <= i < |pre| && pre[i] == d;
    var ds := pre + [last];
    assert ds[i] == d && ds[|pre|] == last;
    assert d in ds && HasKey(ds, k0);
    assert Lookup(u, k0) == Lookup(w, k0);
  }

  // ---- Which intermediate views are injective ----

  /** The key of the new image of `ds[i]` is the key of the old image of `ds[j]`: it passes from `ds[j]`
      to `ds[i]`, but is claimed before it is released. */
  ghost predicate Passes(p: Projection, v: Keyed, w: Keyed, ds: seq<Delta>, i: int, j: int)
    requires 0 <= i < j < |ds|
  {
    && ds[i].typ == Updated && ds[j].typ == Updated
    && ImageKey(p, Lookup(w, DeltaKey(ds[i]))).Some?
    && ImageKey(p, Lookup(w, DeltaKey(ds[i]))) == ImageKey(p, Lookup(v, DeltaKey(ds[j])))
  }

  ghost predicate NonePasses(p: Projection, v: Keyed, w: Keyed, ds: seq<Delta>) {
    forall i, j :: 0 <= i < j < |ds| ==> !Passes(p, v, w, ds, i, j)
  }

  /** After a prefix of an exact difference, processed rows are new and the others are old. */
  lemma PrefixLookup(v: Keyed, w: Keyed, ds: seq<Delta>, n: nat, k: string)
    requires MinimalDiff(ds, v, w) && n <= |ds|
    ensures Lookup(Apply(ds[..n], v), k) == if HasKey(ds[..n], k) then Lookup(w, k) else Lookup(v, k)
  {
    var pre := ds[..n];
    assert forall d :: d in pre ==> d in ds;
    assert forall d :: d in pre ==> Settled(d) && DiffDelta(d, v, w);
    ApplyByUniq(pre, v);
    OutcomeOfDistinct(pre, v, k);
    if HasKey(pre, k) {
      var d :| d in pre && DeltaKey(d) == k;
    }
  }

  lemma PrefixInjective(p: Projection, v: Keyed, w: Keyed, ds: seq<Delta>, n: nat)
    requires MinimalDiff(ds, v, w) && n <= |ds|
    requires Injective(p, v) && Injective(p, w) && NonePasses(p, v, w, ds)
    ensures Injective(p, Apply(ds[..n], v))
  {
    var u := Apply(ds[..n], v);
    forall a, b | a != b && ImageKey(p, Lookup(u, a)).Some?
      ensures ImageKey(p, Lookup(u, a)) != ImageKey(p, Lookup(u, b))
    {
      PrefixLookup(v, w, ds, n, a);
      PrefixLookup(v, w, ds, n, b);
      if HasKey(ds[..n], a) && !HasKey(ds[..n], b) {
        NewAgainstOld(p, v, w, ds, n, a, b);
      } else if HasKey(ds[..n], b) && !HasKey(ds[..n], a) && ImageKey(p, Lookup(w, b)).Some? {
        NewAgainstOld(p, v, w, ds, n, b, a);
      }
    }
  }

  /** A processed row cannot clash with a row still to come unless a key passes between them. */
  lemma NewAgainstOld(p: Projection, v: Keyed, w: Keyed, ds: seq<Delta>, n: nat, a: string, b: string)
    requires MinimalDiff(ds, v, w) && n <= |ds|
    requires Injective(p, w) && NonePasses(p, v, w, ds)
    requires a != b && HasKey(ds[..n], a) && !HasKey(ds[..n], b)
    requires ImageKey(p, Lookup(w, a)).Some?
    ensures ImageKey(p, Lookup(w, a)) != ImageKey(p, Lookup(v, b))
  {
    if Lookup(v, b) != Lookup(w, b) && ImageKey(p, Lookup(v, b)).Some? {
      var da :| da in ds[..n] && DeltaKey(da) == a;
      var i :| 0 <= i < n && ds[i] == da;
      var db :| db in ds && DeltaKey(db) == b;
      var j :| 0 <= j < |ds| && ds[j] == db;
      assert j >= n;
      assert DiffDelta(ds[i], v, w) && DiffDelta(ds[j], v, w);
      assert !Passes(p, v, w, ds, i, j);
      assert Rank(ds[i].typ) <= Rank(ds[j].typ);
    }
  }

  /** Sufficiency: with injective end views and no key passing, the fed deltas take the old projected view
      to the new one, each accepted by a strict target, and adds are final. */
  lemma FeedCorrect(p: Projection, v: Keyed, w: Keyed, ds: seq<Delta>)
    requires MinimalDiff(ds, v, w)
    requires Injective(p, v) && Injective(p, w) && NonePasses(p, v, w, ds)
    ensures Apply(Feed(p, v, ds), ImageView(p, v)) == ImageView(p, w)
    ensures Strict(Feed(p, v, ds), ImageView(p, v))
    ensures AddsAreFinal(Feed(p, v, ds))
  {
    forall n | 0 <= n <= |ds| ensures Injective(p, Apply(ds[..n], v)) {
      PrefixInjective(p, v, w, ds, n);
    }
    MinimalDiffApplies(ds, v, w);
    FeedMaintains(p, v, ds);
  }

  // ---- Necessary ----

  /** Replacing an image drops `key` when the old image owned it, or nobody did, and the new one does not. */
  lemma ReplacementDropsKey(a: Option<Object>, b: Option<Object>, v: Keyed, key: string)
    requires b.Some? ==> KeyOf(b.value) != key
    requires Lookup(v, key) == None || (a.Some? && KeyOf(a.value) == key)
    ensures Lookup(Apply(ImageDeltas(a, b), v), key) == None
  {
    SameNameSameKey(a, b);
    ApplyImageDeltas(a, b, v, key);
  }

  /** Once a passed key has been released it is never claimed again. */
  lemma {:induction false} FeedLosesKey(p: Projection, v: Keyed, w: Keyed, ds: seq<Delta>, i: nat, j: nat, n: nat,
                                        key: string)
    requires MinimalDiff(ds, v, w) && Injective(p, w)
    requires i < j < n <= |ds| && Passes(p, v, w, ds, i, j)
    requires ImageKey(p, Lookup(v, DeltaKey(ds[j]))) == Some(key)
    ensures Lookup(Apply(Feed(p, v, ds[..n]), ImageView(p, v)), key) == None
  {
    hide Apply, ImageView, KeyOf, ImageDeltas;
    var m := n - 1;
    var pre, k, x := ds[..m], DeltaKey(ds[m]), ImageView(p, v);
    assert ds[..n][..m] == pre;
    var a, b := ImageOf(p, Lookup(Apply(pre, v), k)), ImageOf(p, Lookup(Apply(ds[..n], v), k));
    FedRow(v, w, ds, n);
    assert ImageKey(p, Lookup(w, k)) != Some(key);
    hide MinimalDiff, Injective;
    ApplyConcat(Feed(p, v, pre), ImageDeltas(a, b), x);
    if m > j {
      FeedLosesKey(p, v, w, ds, i, j, m, key);
    }
    ReplacementDropsKey(a, b, Apply(Feed(p, v, pre), x), key);
  }

  lemma SameNameSameKey(a: Option<Object>, b: Option<Object>)
    ensures a.Some? && b.Some? && SameName(a.value, b.value) ==> KeyOf(a.value) == KeyOf(b.value)
  {
  }

  /** The row fed at position `n - 1` goes from its old image to its new image. */
  lemma FedRow(v: Keyed, w: Keyed, ds: seq<Delta>, n: nat)
    requires MinimalDiff(ds, v, w) && 0 < n <= |ds|
    ensures var k := DeltaKey(ds[n - 1]);
            && Lookup(Apply(ds[..n - 1], v), k) == Lookup(v, k)
            && Lookup(Apply(ds[..n], v), k) == Lookup(w, k)
  {
    var k := DeltaKey(ds[n - 1]);
    PrefixLookup(v, w, ds, n - 1, k);
    PrefixLookup(v, w, ds, n, k);
    assert ds[..n][n - 1] == ds[n - 1];
    assert HasKey(ds[..n], k);
    assert !HasKey(ds[..n - 1], k);
  }

  /** The exact condition: between injective views, feeding a difference through the projection yields
      the recomputed view if and only if no updated row claims the key of a row updated after it. */
  lemma FeedCorrectIff(p: Projection, v: Keyed, w: Keyed, ds: seq<Delta>)
    requires MinimalDiff(ds, v, w) && Injective(p, v) && Injective(p, w)
    ensures Apply(Feed(p, v, ds), ImageView(p, v)) == ImageView(p, w) <==> NonePasses(p, v, w, ds)
  {
    hide MinimalDiff, Feed, ImageView, Injective, DeltaKey;
    if NonePasses(p, v, w, ds) {
      FeedCorrect(p, v, w, ds);
    } else {
      var i, j :| 0 <= i < j < |ds| && Passes(p, v, w, ds, i, j);
      var key := ImageKey(p, Lookup(v, DeltaKey(ds[j]))).value;
      assert ds[..|ds|] == ds;
      FeedLosesKey(p, v, w, ds, i, j, |ds|, key);
      ImageLookup(p, w, key, DeltaKey(ds[i]));
    }
  }

  /** Row `k` is in both views and has changed. */
  ghost predicate Survives(v: Keyed, w: Keyed, k: string) {
    k in v && k in w && v[k] != w[k]
  }

  /** The order-free form a caller can check on the two views: no key passes between two rows that both
      survive the change. */
  ghost predicate KeysStay(p: Projection, v: Keyed, w: Keyed) {
    forall a, b :: a != b && Survives(v, w, a) && Survives(v, w, b) && ImageKey(p, Lookup(w, a)).Some? ==>
      ImageKey(p, Lookup(w, a)) != ImageKey(p, Lookup(v, b))
  }

  lemma KeysStaySuffices(p: Projection, v: Keyed, w: Keyed, ds: seq<Delta>)
    requires MinimalDiff(ds, v, w) && KeysStay(p, v, w)
    ensures NonePasses(p, v, w, ds)
  {
    forall i, j | 0 <= i < j < |ds| ensures !Passes(p, v, w, ds, i, j) {
      assert ds[i] in ds && ds[j] in ds;
      assert DiffDelta(ds[i], v, w) && DiffDelta(ds[j], v, w);
    }
  }
}
