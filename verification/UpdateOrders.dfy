/** The condition on projected keys is exact: it holds if and only if every order in which an exact
    difference may be listed leads to the recomputed view. */
module UpdateOrders {
  import opened Deltas
  import opened Joins
  import opened ImageViews
  import opened Feeding

  ghost predicate Enumerated<T(!new)>(ks: seq<T>, s: set<T>) {
    NoDuplicates(ks) && forall k :: k in ks <==> k in s
  }

  lemma {:induction false} SomeOrder<T(!new)>(s: set<T>) returns (ks: seq<T>)
    ensures Enumerated(ks, s)
  {
    if s == {} {
      ks := [];
    } else {
      var k :| k in s;
      var rest := SomeOrder(s - {k});
      ks := [k] + rest;
      forall x ensures x in ks <==> x in s { assert x in ks <==> x == k || x in rest; }
      forall i, j | 0 <= i < j < |ks| ensures ks[i] != ks[j] {
        if i == 0 { assert ks[j] in rest; }
      }
    }
  }

  /** One delta of type `t` per listed key, carrying the object of `v`. */
  ghost function Listing(t: DeltaType, ks: seq<string>, v: Keyed): (ds: seq<Delta>)
    requires forall k :: k in ks ==> k in v
    ensures |ds| == |ks| && forall i :: 0 <= i < |ks| ==> ds[i] == Delta(t, v[ks[i]])
  {
    seq(|ks|, i requires 0 <= i < |ks| => Delta(t, v[ks[i]]))
  }

  ghost function Gone(v: Keyed, w: Keyed): set<string> { v.Keys - w.Keys }

  ghost function Changed(v: Keyed, w: Keyed): set<string> { set k | k in v && Survives(v, w, k) }

  /** Deletes, updates and adds in the listed orders. */
  ghost function DifferenceInOrder(v: Keyed, w: Keyed, dels: seq<string>, upds: seq<string>,
                                   adds: seq<string>): seq<Delta>
    requires Enumerated(dels, Gone(v, w)) && Enumerated(upds, Changed(v, w)) && Enumerated(adds, Gone(w, v))
  {
    Listing(Deleted, dels, v) + Listing(Updated, upds, w) + Listing(Added, adds, w)
  }

  /** The key and the type found at a position of the difference. */
  lemma DifferenceAt(v: Keyed, w: Keyed, dels: seq<string>, upds: seq<string>, adds: seq<string>, i: nat)
    requires WellKeyed(v) && WellKeyed(w)
    requires Enumerated(dels, Gone(v, w)) && Enumerated(upds, Changed(v, w)) && Enumerated(adds, Gone(w, v))
    requires i < |DifferenceInOrder(v, w, dels, upds, adds)|
    ensures var d, ks := DifferenceInOrder(v, w, dels, upds, adds)[i], dels + upds + adds;
            && DeltaKey(d) == ks[i] && DiffDelta(d, v, w)
            && Rank(d.typ) == if i < |dels| then 0 else if i < |dels| + |upds| then 1 else 2
  {
    var ks := dels + upds + adds;
    if i < |dels| {
      assert dels[i] in dels;
    } else if i < |dels| + |upds| {
      assert upds[i - |dels|] in upds;
    } else {
      assert adds[i - |dels| - |upds|] in adds;
    }
  }

  /** Every choice of orders lists an exact difference. */
  lemma AnyOrderIsMinimal(v: Keyed, w: Keyed, dels: seq<string>, upds: seq<string>, adds: seq<string>)
    requires WellKeyed(v) && WellKeyed(w)
    requires Enumerated(dels, Gone(v, w)) && Enumerated(upds, Changed(v, w)) && Enumerated(adds, Gone(w, v))
    ensures MinimalDiff(DifferenceInOrder(v, w, dels, upds, adds), v, w)
  {
    var ds, ks := DifferenceInOrder(v, w, dels, upds, adds), dels + upds + adds;
    forall i, j | 0 <= i < j < |ds| ensures DeltaKey(ds[i]) != DeltaKey(ds[j]) && Rank(ds[i].typ) <= Rank(ds[j].typ) {
      DifferenceAt(v, w, dels, upds, adds, i);
      DifferenceAt(v, w, dels, upds, adds, j);
      hide DeltaKey, Listing;
      KeysApart(v, w, dels, upds, adds, i, j);
    }
    forall d | d in ds ensures DiffDelta(d, v, w) {
      var i :| 0 <= i < |ds| && ds[i] == d;
      DifferenceAt(v, w, dels, upds, adds, i);
    }
    forall k | Lookup(v, k) != Lookup(w, k) ensures exists d :: d in ds && DeltaKey(d) == k {
      assert k in Gone(v, w) || k in Changed(v, w) || k in Gone(w, v);
      assert k in ks;
      var i :| 0 <= i < |ks| && ks[i] == k;
      DifferenceAt(v, w, dels, upds, adds, i);
      assert ds[i] in ds;
    }
  }

  lemma KeysApart(v: Keyed, w: Keyed, dels: seq<string>, upds: seq<string>, adds: seq<string>, i: nat, j: nat)
    requires Enumerated(dels, Gone(v, w)) && Enumerated(upds, Changed(v, w)) && Enumerated(adds, Gone(w, v))
    requires i < j < |dels + upds + adds|
    ensures (dels + upds + adds)[i] != (dels + upds + adds)[j]
  {
    var ks := dels + upds + adds;
    var x, y := ks[i], ks[j];
    assert i < |dels| ==> x in dels;
    assert |dels| <= i < |dels| + |upds| ==> x in upds;
    assert j < |dels| ==> y in dels;
    assert |dels| <= j < |dels| + |upds| ==> y in upds;
    assert |dels| + |upds| <= j ==> y in adds;
    assert |dels| + |upds| <= i ==> x in adds;
  }

  /** If a key passes between two surviving rows, some order claims it before it is released. */
  lemma SomeOrderPasses(p: Projection, v: Keyed, w: Keyed) returns (ds: seq<Delta>)
    requires WellKeyed(v) && WellKeyed(w) && !KeysStay(p, v, w)
    ensures MinimalDiff(ds, v, w) && !NonePasses(p, v, w, ds)
  {
    var a, b :| a != b && Survives(v, w, a) && Survives(v, w, b) && ImageKey(p, Lookup(w, a)).Some?
      && ImageKey(p, Lookup(w, a)) == ImageKey(p, Lookup(v, b));
    var dels := SomeOrder(Gone(v, w));
    var adds := SomeOrder(Gone(w, v));
    var rest := SomeOrder(Changed(v, w) - {a, b});
    var upds := [a, b] + rest;
    FrontedOrder(Changed(v, w), a, b, rest);
    ds := DifferenceInOrder(v, w, dels, upds, adds);
    AnyOrderIsMinimal(v, w, dels, upds, adds);
    var i := |dels|;
    DifferenceAt(v, w, dels, upds, adds, i);
    DifferenceAt(v, w, dels, upds, adds, i + 1);
    assert (dels + upds + adds)[i] == a && (dels + upds + adds)[i + 1] == b;
    hide DeltaKey, MinimalDiff, Listing;
    assert ds[i].typ == Updated && ds[i + 1].typ == Updated;
    assert Passes(p, v, w, ds, i, i + 1);
  }

  lemma FrontedOrder<T(!new)>(s: set<T>, a: T, b: T, rest: seq<T>)
    requires a in s && b in s && a != b && Enumerated(rest, s - {a, b})
    ensures Enumerated([a, b] + rest, s)
  {
    var ks := [a, b] + rest;
    forall x ensures x in ks <==> x in s { assert x in ks <==> x == a || x == b || x in rest; }
    forall i, j | 0 <= i < j < |ks| ensures ks[i] != ks[j] {
      assert j >= 2 ==> ks[j] in rest;
    }
  }

  /** The caller's condition is exact: between views with unique projected keys, feeding the difference gives
      the recomputed view in every order if and only if no key passes between two surviving rows. */
  lemma KeysStayIff(p: Projection, v: Keyed, w: Keyed)
    requires WellKeyed(v) && WellKeyed(w) && Injective(p, v) && Injective(p, w)
    ensures KeysStay(p, v, w) <==>
              forall ds :: MinimalDiff(ds, v, w) ==> Apply(Feed(p, v, ds), ImageView(p, v)) == ImageView(p, w)
  {
    hide MinimalDiff, Feed, ImageView, Injective, KeysStay, WellKeyed;
    if KeysStay(p, v, w) {
      forall ds | MinimalDiff(ds, v, w) ensures Apply(Feed(p, v, ds), ImageView(p, v)) == ImageView(p, w) {
        KeysStaySuffices(p, v, w, ds);
        FeedCorrect(p, v, w, ds);
      }
    } else {
      var ds := SomeOrderPasses(p, v, w);
      FeedCorrectIff(p, v, w, ds);
    }
  }

  /** A swap passes a key whichever of the two rows comes first. */
  lemma SwapPasses(p: Projection, v: Keyed, w: Keyed, x: string, y: string, ds: seq<Delta>)
    requires MinimalDiff(ds, v, w) && x != y && Survives(v, w, x) && Survives(v, w, y)
    requires ImageKey(p, Lookup(w, x)).Some? && ImageKey(p, Lookup(w, x)) == ImageKey(p, Lookup(v, y))
    requires ImageKey(p, Lookup(w, y)).Some? && ImageKey(p, Lookup(w, y)) == ImageKey(p, Lookup(v, x))
    ensures !NonePasses(p, v, w, ds)
  {
    hide DeltaKey, ImageKey;
    var d :| d in ds && DeltaKey(d) == x;
    var e :| e in ds && DeltaKey(e) == y;
    var i :| 0 <= i < |ds| && ds[i] == d;
    var j :| 0 <= j < |ds| && ds[j] == e;
    assert DiffDelta(d, v, w) && DiffDelta(e, v, w);
    hide MinimalDiff;
    assert if i < j then Passes(p, v, w, ds, i, j) else Passes(p, v, w, ds, j, i);
  }
}
