/** Views defined by a projection: the image of a keyed view under a partial function on objects, and
    how feeding an exact difference through the projection, row by row, maintains the image. */
module ImageViews {
  import opened JsonTrees
  import opened Objects
  import opened Deltas
  import opened Joins
  import opened Aggregations

  /** At most one image per row. */
  type Projection = Object -> Option<Object>

  ghost function ImageOf(p: Projection, x: Option<Object>): Option<Object> {
    if x.Some? then p(x.value) else None
  }

  ghost function ImageKey(p: Projection, x: Option<Object>): Option<string> {
    if ImageOf(p, x).Some? then Some(KeyOf(ImageOf(p, x).value)) else None
  }

  ghost function ImageRows(p: Projection, v: Keyed): set<Object> {
    set k | k in v && p(v[k]).Some? :: p(v[k]).value
  }

  /** The projected view, recomputed from nothing. */
  ghost function ImageView(p: Projection, v: Keyed): Keyed {
    ByKey(ImageRows(p, v))
  }

  /** No two rows project to one key. */
  ghost predicate Injective(p: Projection, v: Keyed) {
    forall i, j :: i != j && ImageKey(p, Lookup(v, i)).Some? ==> ImageKey(p, Lookup(v, i)) != ImageKey(p, Lookup(v, j))
  }

  lemma ImageViewExact(p: Projection, v: Keyed)
    requires Injective(p, v)
    ensures forall k :: ImageKey(p, Lookup(v, k)).Some? ==>
              Lookup(ImageView(p, v), ImageKey(p, Lookup(v, k)).value) == ImageOf(p, Lookup(v, k))
    ensures forall key :: key in ImageView(p, v) ==> exists k :: ImageKey(p, Lookup(v, k)) == Some(key)
  {
    var rows, w := ImageRows(p, v), ImageView(p, v);
    forall k | ImageKey(p, Lookup(v, k)).Some?
      ensures Lookup(w, ImageKey(p, Lookup(v, k)).value) == ImageOf(p, Lookup(v, k))
    {
      var o := p(v[k]).value;
      assert o in rows;
      var x := w[KeyOf(o)];
      assert x in rows && KeyOf(x) == KeyOf(o);
      var j :| j in v && p(v[j]).Some? && p(v[j]).value == x;
      assert ImageKey(p, Lookup(v, j)) == ImageKey(p, Lookup(v, k));
    }
    forall key | key in w ensures exists k :: ImageKey(p, Lookup(v, k)) == Some(key) {
      var o :| o in rows && KeyOf(o) == key;
      var j :| j in v && p(v[j]).Some? && p(v[j]).value == o;
      assert ImageKey(p, Lookup(v, j)) == Some(key);
    }
  }

  /** What the projected view holds under `key`, given the row `k` that owns it or the absence of one. */
  lemma ImageLookup(p: Projection, v: Keyed, key: string, k: string)
    requires Injective(p, v) && ImageKey(p, Lookup(v, k)) == Some(key)
    ensures Lookup(ImageView(p, v), key) == ImageOf(p, Lookup(v, k))
  {
    ImageViewExact(p, v);
  }

  lemma ImageLookupNone(p: Projection, v: Keyed, key: string)
    requires Injective(p, v) && forall k :: ImageKey(p, Lookup(v, k)) != Some(key)
    ensures Lookup(ImageView(p, v), key) == None
  {
    ImageViewExact(p, v);
  }

  /** `w` is `v` with row `k` changed. */
  ghost predicate DiffersAt(v: Keyed, w: Keyed, k: string) {
    forall j :: j != k ==> Lookup(v, j) == Lookup(w, j)
  }

  /** Changing one row: the deltas that replace its image turn the old projected view into the new one,
      and the old view accepts them. */
  lemma RowChange(p: Projection, v: Keyed, w: Keyed, k: string)
    requires Injective(p, v) && Injective(p, w) && DiffersAt(v, w, k)
    ensures var ds := ImageDeltas(ImageOf(p, Lookup(v, k)), ImageOf(p, Lookup(w, k)));
            && Apply(ds, ImageView(p, v)) == ImageView(p, w)
            && Strict(ds, ImageView(p, v))
  {
    var a, b := ImageOf(p, Lookup(v, k)), ImageOf(p, Lookup(w, k));
    var ds, x, y := ImageDeltas(a, b), ImageView(p, v), ImageView(p, w);
    RowChangeStrict(p, v, w, k);
    forall key ensures Lookup(Apply(ds, x), key) == Lookup(y, key) {
      RowChangeAt(p, v, w, k, key);
    }
    SameLookups(Apply(ds, x), y);
  }

  /** The two-element delta lists of `ImageDeltas`, applied. */
  lemma ApplyImageDeltas(before: Option<Object>, after: Option<Object>, v: Keyed, key: string)
    requires before.Some? && after.Some? && SameName(before.value, after.value) ==>
               KeyOf(before.value) == KeyOf(after.value)
    ensures Lookup(Apply(ImageDeltas(before, after), v), key) ==
              if after.Some? && KeyOf(after.value) == key then after
              else if before.Some? && KeyOf(before.value) == key then None
              else Lookup(v, key)
  {
    hide KeyOf;
    var ds := ImageDeltas(before, after);
    if |ds| > 0 {
      ShortLists(ds[0], ds[|ds| - 1], v);
      assert ds == if |ds| == 1 then [ds[0]] else [ds[0], ds[1]];
    }
  }

  lemma RowChangeAt(p: Projection, v: Keyed, w: Keyed, k: string, key: string)
    requires Injective(p, v) && Injective(p, w) && DiffersAt(v, w, k)
    ensures Lookup(Apply(ImageDeltas(ImageOf(p, Lookup(v, k)), ImageOf(p, Lookup(w, k))), ImageView(p, v)), key)
            == Lookup(ImageView(p, w), key)
  {
    var a, b := ImageOf(p, Lookup(v, k)), ImageOf(p, Lookup(w, k));
    ApplyImageDeltas(a, b, ImageView(p, v), key);
    hide KeyOf, ImageView, Apply, ImageDeltas;
    if b.Some? && KeyOf(b.value) == key {
      ImageLookup(p, w, key, k);
    } else if j :| ImageKey(p, Lookup(w, j)) == Some(key) {
      ImageLookup(p, w, key, j);
      ImageLookup(p, v, key, j);
      assert ImageKey(p, Lookup(v, k)) != Some(key);
    } else {
      ImageLookupNone(p, w, key);
      if a.None? || KeyOf(a.value) != key {
        forall j ensures ImageKey(p, Lookup(v, j)) != Some(key) {
          if j != k { assert Lookup(v, j) == Lookup(w, j); }
        }
        ImageLookupNone(p, v, key);
      }
    }
  }

  lemma RowChangeStrict(p: Projection, v: Keyed, w: Keyed, k: string)
    requires Injective(p, v) && Injective(p, w) && DiffersAt(v, w, k)
    ensures Strict(ImageDeltas(ImageOf(p, Lookup(v, k)), ImageOf(p, Lookup(w, k))), ImageView(p, v))
  {
    var a, b := ImageOf(p, Lookup(v, k)), ImageOf(p, Lookup(w, k));
    var ds, x := ImageDeltas(a, b), ImageView(p, v);
    if a.Some? {
      ImageLookup(p, v, KeyOf(a.value), k);
    }
    if b.Some? && (a.None? || KeyOf(a.value) != KeyOf(b.value)) {
      NewOwner(p, v, w, k, KeyOf(b.value));
    }
    assert a.Some? && b.Some? && SameName(a.value, b.value) ==> KeyOf(a.value) == KeyOf(b.value);
    hide ImageView, Injective, DiffersAt, KeyOf;
    if |ds| > 0 {
      ShortLists(ds[0], ds[|ds| - 1], x);
      assert ds == if |ds| == 1 then [ds[0]] else [ds[0], ds[1]];
    }
  }

  lemma NewOwner(p: Projection, v: Keyed, w: Keyed, k: string, key: string)
    requires Injective(p, v) && Injective(p, w) && DiffersAt(v, w, k)
    requires ImageKey(p, Lookup(w, k)) == Some(key) && ImageKey(p, Lookup(v, k)) != Some(key)
    ensures key !in ImageView(p, v)
  {
    forall j ensures ImageKey(p, Lookup(v, j)) != Some(key) {
      if j != k { assert Lookup(v, j) == Lookup(w, j); }
    }
    ImageLookupNone(p, v, key);
  }
}
