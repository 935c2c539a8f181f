/** Deltas, their effect on a keyed view, exact differences of two views, and the two routines that
    consolidate delta lists: `diffDeltas` and `collapseDeltas`. */
module Deltas {
  import opened JsonTrees
  import opened Objects

  datatype DeltaType = Deleted | Updated | Added | Replaced | Sync | Upserted

  datatype Delta = Delta(typ: DeltaType, obj: Object)

  /** The contents of a store or of a view: objects by key. */
  type Keyed = map<string, Object>

  ghost predicate WellKeyed(v: Keyed) {
    forall k :: k in v ==> KeyOf(v[k]) == k
  }

  function Lookup(v: Keyed, k: string): Option<Object> {
    if k in v then Some(v[k]) else None
  }

  lemma SameLookups(v: Keyed, w: Keyed)
    requires forall k :: Lookup(v, k) == Lookup(w, k)
    ensures v == w
  {
    forall k ensures (k in v <==> k in w) && (k in v ==> v[k] == w[k]) {
      assert Lookup(v, k) == Lookup(w, k);
    }
  }

  function DeltaKey(d: Delta): string {
    KeyOf(d.obj)
  }

  // ---- Meaning of a delta list: upsert and remove, in order ----

  function ApplyOne(d: Delta, v: Keyed): Keyed {
    match d.typ
    case Deleted => v - {DeltaKey(d)}
    case Sync => v
    case _ => v[DeltaKey(d) := d.obj]
  }

  function Apply(ds: seq<Delta>, v: Keyed): Keyed {
    if ds == [] then v else ApplyOne(ds[|ds| - 1], Apply(ds[..|ds| - 1], v))
  }

  lemma {:induction false} ApplyConcat(ds: seq<Delta>, es: seq<Delta>, v: Keyed)
    ensures Apply(ds + es, v) == Apply(es, Apply(ds, v))
  {
    if es == [] {
      assert ds + es == ds;
    } else {
      ApplyConcat(ds, es[..|es| - 1], v);
      assert (ds + es)[..|ds + es| - 1] == ds + es[..|es| - 1];
    }
  }

  /** A delta an authoritative target accepts: adds are new, updates and deletes are known. */
  predicate StrictOne(d: Delta, v: Keyed) {
    match d.typ
    case Added => DeltaKey(d) !in v
    case Deleted => DeltaKey(d) in v
    case Updated => DeltaKey(d) in v
    case _ => false
  }

  predicate Strict(ds: seq<Delta>, v: Keyed) {
    ds == [] || (Strict(ds[..|ds| - 1], v) && StrictOne(ds[|ds| - 1], Apply(ds[..|ds| - 1], v)))
  }

  lemma {:induction false} StrictConcat(ds: seq<Delta>, es: seq<Delta>, v: Keyed)
    requires Strict(ds, v) && Strict(es, Apply(ds, v))
    ensures Strict(ds + es, v)
  {
    if es == [] {
      assert ds + es == ds;
    } else {
      StrictConcat(ds, es[..|es| - 1], v);
      ApplyConcat(ds, es[..|es| - 1], v);
      assert (ds + es)[..|ds + es| - 1] == ds + es[..|es| - 1];
    }
  }

  lemma ShortLists(d: Delta, e: Delta, v: Keyed)
    ensures Apply([d], v) == ApplyOne(d, v) && (Strict([d], v) <==> StrictOne(d, v))
    ensures Apply([d, e], v) == ApplyOne(e, ApplyOne(d, v))
    ensures Strict([d, e], v) <==> StrictOne(d, v) && StrictOne(e, ApplyOne(d, v))
  {
    hide DeltaKey;
    assert [d][..0] == [];
    assert Apply([d], v) == ApplyOne(d, Apply([], v));
    assert Strict([d], v) <==> StrictOne(d, v);
    assert [d, e][..1] == [d];
  }

  predicate DistinctKeys(ds: seq<Delta>) {
    forall i, j :: 0 <= i < j < |ds| ==> DeltaKey(ds[i]) != DeltaKey(ds[j])
  }

  /** Emission order: deletes, updates, adds, replaces, syncs. Upserts have no place in it. */
  function Rank(t: DeltaType): nat {
    match t
    case Deleted => 0
    case Updated => 1
    case Added => 2
    case Replaced => 3
    case Sync => 4
    case Upserted => 5
  }

  predicate Ordered(ds: seq<Delta>) {
    forall i, j :: 0 <= i < j < |ds| ==> Rank(ds[i].typ) <= Rank(ds[j].typ)
  }

  // ---- collapseDeltas ----

  /** What `uniq` records for `d`: a delete followed by an add or update becomes an update. */
  function Merge(u: map<string, Delta>, d: Delta): Delta {
    if DeltaKey(d) in u && u[DeltaKey(d)].typ == Deleted && (d.typ == Added || d.typ == Updated)
    then Delta(Updated, d.obj)
    else d
  }

  /** The `uniq` map: the merged last delta per key. */
  function Uniq(ds: seq<Delta>): map<string, Delta> {
    if ds == [] then map[]
    else
      var u, d := Uniq(ds[..|ds| - 1]), ds[|ds| - 1];
      u[DeltaKey(d) := Merge(u, d)]
  }

  /** `out` lists the collapsed deltas of `ds`, one per key, in emission order; the iteration order of
      the map is free. */
  ghost predicate IsCollapse(ds: seq<Delta>, out: seq<Delta>) {
    var u := Uniq(ds);
    && DistinctKeys(out) && Ordered(out)
    && (forall d :: d in out ==> d.typ != Upserted && DeltaKey(d) in u && u[DeltaKey(d)] == d)
    && (forall k :: k in u && u[k].typ != Upserted ==> u[k] in out)
  }

  predicate Settled(d: Delta) {
    d.typ == Added || d.typ == Updated || d.typ == Replaced || d.typ == Deleted
  }

  lemma {:induction false} UniqKeys(ds: seq<Delta>)
    ensures forall k :: k in Uniq(ds) ==> DeltaKey(Uniq(ds)[k]) == k
    ensures forall k :: k in Uniq(ds) <==> exists d :: d in ds && DeltaKey(d) == k
    ensures (forall d :: d in ds ==> Settled(d)) ==> forall k :: k in Uniq(ds) ==> Settled(Uniq(ds)[k])
  {
    if ds != [] {
      var pre, last := ds[..|ds| - 1], ds[|ds| - 1];
      assert ds == pre + [last];
      UniqKeys(pre);
    }
  }

  /** What a collapsed map does to key `k` of `v`. */
  function Outcome(u: map<string, Delta>, v: Keyed, k: string): Option<Object> {
    if k !in u then Lookup(v, k)
    else if u[k].typ == Deleted then None
    else Some(u[k].obj)
  }

  /** The collapsed map decides the outcome of the whole list, key by key. */
  lemma {:induction false} ApplyByUniq(ds: seq<Delta>, v: Keyed)
    requires forall d :: d in ds ==> Settled(d)
    ensures forall k :: Lookup(Apply(ds, v), k) == Outcome(Uniq(ds), v, k)
  {
    if ds != [] {
      var pre, last := ds[..|ds| - 1], ds[|ds| - 1];
      ApplyByUniq(pre, v);
      assert last in ds && Settled(last);
      var r := Apply(pre, v);
      forall k ensures Lookup(ApplyOne(last, r), k) == Outcome(Uniq(ds), v, k) {
        assert Lookup(r, k) == Outcome(Uniq(pre), v, k);
      }
    }
  }

  lemma {:induction false} UniqOfDistinct(ds: seq<Delta>)
    requires DistinctKeys(ds)
    ensures forall d :: d in ds ==> DeltaKey(d) in Uniq(ds) && Uniq(ds)[DeltaKey(d)] == d
  {
    if ds != [] {
      var pre, last := ds[..|ds| - 1], ds[|ds| - 1];
      UniqOfDistinct(pre);
      UniqKeys(pre);
      forall d | d in pre ensures DeltaKey(d) != DeltaKey(last) { }
      assert DeltaKey(last) !in Uniq(pre);
      forall d | d in ds ensures DeltaKey(d) in Uniq(ds) && Uniq(ds)[DeltaKey(d)] == d {
        assert d in pre || d == last;
      }
    }
  }

  /** Collapsing keeps the meaning of every list of adds, updates, replaces and deletes, from every
      start and for every iteration order of the map. */
  lemma CollapsePreservesMeaning(ds: seq<Delta>, out: seq<Delta>, v: Keyed)
    requires forall d :: d in ds ==> Settled(d)
    requires IsCollapse(ds, out)
    ensures Apply(out, v) == Apply(ds, v)
  {
    CollapseHasSameUniq(ds, out);
    assert forall d :: d in out ==> Settled(d) by { UniqKeys(ds); }
    ApplyByUniq(ds, v);
    ApplyByUniq(out, v);
    SameLookups(Apply(out, v), Apply(ds, v));
  }

  lemma CollapseHasSameUniq(ds: seq<Delta>, out: seq<Delta>)
    requires forall d :: d in ds ==> Settled(d)
    requires IsCollapse(ds, out)
    ensures Uniq(out) == Uniq(ds)
  {
    var u, w := Uniq(ds), Uniq(out);
    UniqKeys(ds);
    UniqKeys(out);
    UniqOfDistinct(out);
    forall k | k in u ensures k in w && w[k] == u[k] {
      assert u[k] in out && DeltaKey(u[k]) == k;
    }
    forall k | k in w ensures k in u {
      var d :| d in out && DeltaKey(d) == k;
    }
  }

  /** Nothing touches a key again after it has been added. */
  predicate AddsAreFinal(ds: seq<Delta>) {
    forall i, j :: 0 <= i < j < |ds| && ds[i].typ == Added ==> DeltaKey(ds[i]) != DeltaKey(ds[j])
  }

  lemma {:induction false} StrictIsSettled(ds: seq<Delta>, v: Keyed)
    requires Strict(ds, v)
    ensures forall d :: d in ds ==> Settled(d)
  {
    if ds != [] {
      StrictIsSettled(ds[..|ds| - 1], v);
      assert ds == ds[..|ds| - 1] + [ds[|ds| - 1]];
    }
  }

  lemma {:induction false} UniqTypesMatchStart(ds: seq<Delta>, v: Keyed)
    requires Strict(ds, v) && AddsAreFinal(ds)
    ensures forall k :: k in Uniq(ds) ==> StrictOne(Uniq(ds)[k], v)
    ensures forall k :: k in Uniq(ds) && Uniq(ds)[k].typ == Added ==> Uniq(ds)[k] in ds
  {
    if ds != [] {
      var pre, last := ds[..|ds| - 1], ds[|ds| - 1];
      UniqTypesMatchStart(pre, v);
      LastIsStrict(pre, last, v);
      assert forall d :: d in pre ==> d in ds;
    }
  }

  /** The step of the previous lemma. */
  lemma LastIsStrict(pre: seq<Delta>, last: Delta, v: Keyed)
    requires Strict(pre, v) && StrictOne(last, Apply(pre, v)) && AddsAreFinal(pre + [last])
    requires forall k :: k in Uniq(pre) ==> StrictOne(Uniq(pre)[k], v)
    requires forall k :: k in Uniq(pre) && Uniq(pre)[k].typ == Added ==> Uniq(pre)[k] in pre
    ensures StrictOne(Uniq(pre + [last])[DeltaKey(last)], v)
  {
    StrictIsSettled(pre, v);
    ApplyByUniq(pre, v);
    UniqKeys(pre);
    assert (pre + [last])[..|pre|] == pre;
    var k := DeltaKey(last);
    assert Lookup(Apply(pre, v), k) == Outcome(Uniq(pre), v, k);
    if k in Uniq(pre) && Uniq(pre)[k] in pre {
      var i :| 0 <= i < |pre| && pre[i] == Uniq(pre)[k];
      assert (pre + [last])[i] == pre[i] && (pre + [last])[|pre|] == last;
      assert pre[i].typ != Added;
    }
  }

  lemma {:induction false} DistinctIsStrict(ds: seq<Delta>, v: Keyed)
    requires DistinctKeys(ds)
    requires forall d :: d in ds ==> StrictOne(d, v)
    ensures Strict(ds, v)
  {
    if ds != [] {
      var pre, last := ds[..|ds| - 1], ds[|ds| - 1];
      assert ds == pre + [last];
      DistinctIsStrict(pre, v);
      assert forall d :: d in pre ==> StrictOne(d, v) && Settled(d);
      ApplyByUniq(pre, v);
      UniqKeys(pre);
      assert StrictOne(last, v);
      assert DeltaKey(last) !in Uniq(pre);
      assert Lookup(Apply(pre, v), DeltaKey(last)) == Lookup(v, DeltaKey(last));
    }
  }

  /** A strict list in which adds are final collapses to a strict list. */
  lemma CollapseKeepsStrict(ds: seq<Delta>, out: seq<Delta>, v: Keyed)
    requires Strict(ds, v) && AddsAreFinal(ds)
    requires IsCollapse(ds, out)
    ensures Strict(out, v)
  {
    UniqTypesMatchStart(ds, v);
    DistinctIsStrict(out, v);
  }

  method CollapseDeltas(ds: seq<Delta>) returns (out: seq<Delta>)
    ensures IsCollapse(ds, out)
  {
    var uniq := LastPerKey(ds);
    UniqKeys(ds);
    out := EmitByType(uniq);
    AllEmitted(ds, out);
  }

  /** The second loop of `collapseDeltas`: first the deletes, then the updates and finally the adds. */
  method EmitByType(uniq: map<string, Delta>) returns (out: seq<Delta>)
    requires forall k :: k in uniq ==> DeltaKey(uniq[k]) == k
    ensures Emitted(uniq, out, 5, uniq.Keys)
  {
    hide Emitted, DeltaKey;
    out := [];
    NothingEmitted(uniq);
    var types := [Deleted, Updated, Added, Replaced, Sync];
    for j := 0 to |types|
      invariant Emitted(uniq, out, j, uniq.Keys)
    {
      out := EmitType(uniq, types[j], out);
      NextRank(uniq, out, j);
    }
  }

  /** The first loop of `collapseDeltas`. */
  method LastPerKey(ds: seq<Delta>) returns (uniq: map<string, Delta>)
    ensures uniq == Uniq(ds)
  {
    uniq := map[];
    for i := 0 to |ds|
      invariant uniq == Uniq(ds[..i])
    {
      assert ds[..i + 1][..i] == ds[..i];
      var d := ds[i];
      var key := DeltaKey(d);
      if key in uniq && uniq[key].typ == Deleted && (d.typ == Added || d.typ == Updated) {
        uniq := uniq[key := Delta(Updated, d.obj)];
      } else {
        uniq := uniq[key := d];
      }
    }
    assert ds[..|ds|] == ds;
  }

  /** The inner loop of `collapseDeltas`: append the deltas of one type, in map order. */
  method EmitType(uniq: map<string, Delta>, t: DeltaType, before: seq<Delta>) returns (out: seq<Delta>)
    requires forall k :: k in uniq ==> DeltaKey(uniq[k]) == k
    requires Emitted(uniq, before, Rank(t), uniq.Keys)
    ensures Emitted(uniq, out, Rank(t), {})
  {
    out := before;
    var keys := uniq.Keys;
    while keys != {}
      invariant keys <= uniq.Keys
      invariant Emitted(uniq, out, Rank(t), keys)
    {
      var k :| k in keys;
      if uniq[k].typ == t {
        EmitOne(uniq, out, Rank(t), keys, k);
        out := out + [uniq[k]];
      }
      keys := keys - {k};
    }
  }

  lemma NothingEmitted(u: map<string, Delta>)
    ensures Emitted(u, [], 0, u.Keys)
  {
  }

  lemma AllEmitted(ds: seq<Delta>, out: seq<Delta>)
    requires Emitted(Uniq(ds), out, 5, Uniq(ds).Keys)
    ensures IsCollapse(ds, out)
  {
    var u := Uniq(ds);
    forall k | k in u && u[k].typ != Upserted ensures u[k] in out { assert Rank(u[k].typ) < 5; }
  }

  lemma NextRank(u: map<string, Delta>, out: seq<Delta>, j: nat)
    requires Emitted(u, out, j, {})
    ensures Emitted(u, out, j + 1, u.Keys)
  {
  }

  /** Progress of the emission: all types of rank below `j` are out, and those of rank `j` outside `todo`. */
  ghost predicate Emitted(u: map<string, Delta>, out: seq<Delta>, j: nat, todo: set<string>) {
    && DistinctKeys(out) && Ordered(out)
    && (forall d :: d in out ==>
          && DeltaKey(d) in u && u[DeltaKey(d)] == d
          && (Rank(d.typ) < j || (Rank(d.typ) == j && DeltaKey(d) !in todo)))
    && (forall k :: k in u && (Rank(u[k].typ) < j || (Rank(u[k].typ) == j && k !in todo)) ==> u[k] in out)
  }

  lemma EmitOne(u: map<string, Delta>, out: seq<Delta>, j: nat, todo: set<string>, k: string)
    requires Emitted(u, out, j, todo) && k in todo && k in u && Rank(u[k].typ) == j && DeltaKey(u[k]) == k
    ensures Emitted(u, out + [u[k]], j, todo - {k})
  {
    var out' := out + [u[k]];
    forall i | 0 <= i < |out| ensures DeltaKey(out[i]) != k && Rank(out[i].typ) <= j {
      assert out[i] in out;
    }
    forall d | d in out' ensures
        && DeltaKey(d) in u && u[DeltaKey(d)] == d
        && (Rank(d.typ) < j || (Rank(d.typ) == j && DeltaKey(d) !in todo - {k}))
    {
      assert d in out || d == u[k];
    }
  }

  /** Deletes come first, then updates, adds, replaces and syncs; a key whose last delta is an upsert is left
      out, and every other key of the list keeps one delta. */
  lemma CollapseOrder(ds: seq<Delta>, out: seq<Delta>)
    requires IsCollapse(ds, out)
    ensures forall i, j :: 0 <= i < j < |out| ==>
              && (out[j].typ == Deleted ==> out[i].typ == Deleted)
              && (out[j].typ == Updated ==> out[i].typ in {Deleted, Updated})
              && (out[j].typ == Added ==> out[i].typ in {Deleted, Updated, Added})
              && (out[j].typ == Replaced ==> out[i].typ in {Deleted, Updated, Added, Replaced})
    ensures forall k :: k in Uniq(ds) ==> (HasKey(out, k) <==> Uniq(ds)[k].typ != Upserted)
  {
    assert forall d :: d in out ==> d.typ != Upserted;
    assert forall i :: 0 <= i < |out| ==> out[i] in out;
    UniqKeys(ds);
    hide KeyOf, Uniq;
    forall k | k in Uniq(ds) ensures HasKey(out, k) <==> Uniq(ds)[k].typ != Upserted {
      var u := Uniq(ds)[k];
      assert u.typ != Upserted ==> u in out && DeltaKey(u) == k;
    }
  }

  lemma {:induction false} RankExists(u: map<string, Delta>, out: seq<Delta>, j: nat, todo: set<string>)
    returns (out': seq<Delta>)
    requires forall k :: k in u ==> DeltaKey(u[k]) == k
    requires Emitted(u, out, j, todo) && todo <= u.Keys
    ensures Emitted(u, out', j, {})
    decreases todo
  {
    if todo == {} {
      out' := out;
    } else {
      var k :| k in todo;
      if Rank(u[k].typ) == j {
        EmitOne(u, out, j, todo, k);
        out' := RankExists(u, out + [u[k]], j, todo - {k});
      } else {
        out' := RankExists(u, out, j, todo - {k});
      }
    }
  }

  /** Every list can be collapsed. */
  lemma CollapseExists(ds: seq<Delta>) returns (out: seq<Delta>)
    ensures IsCollapse(ds, out)
  {
    UniqKeys(ds);
    var u := Uniq(ds);
    hide Emitted, DeltaKey, Uniq;
    out := [];
    NothingEmitted(u);
    for j := 0 to 5
      invariant Emitted(u, out, j, u.Keys)
    {
      out := RankExists(u, out, j, u.Keys);
      NextRank(u, out, j);
    }
    AllEmitted(ds, out);
  }

  // ---- Exact differences ----

  /** `d` is the one delta that takes its key from `old` to `new`. */
  predicate DiffDelta(d: Delta, old': Keyed, new': Keyed) {
    var k := DeltaKey(d);
    match d.typ
    case Deleted => k in old' && old'[k] == d.obj && k !in new'
    case Updated => k in old' && k in new' && new'[k] == d.obj && old'[k] != d.obj
    case Added => k !in old' && k in new' && new'[k] == d.obj
    case _ => false
  }

  /** `ds` is exactly the difference of two views: one correct delta per changed key, in emission order. */
  ghost predicate MinimalDiff(ds: seq<Delta>, old': Keyed, new': Keyed) {
    && DistinctKeys(ds) && Ordered(ds)
    && (forall d :: d in ds ==> DiffDelta(d, old', new'))
    && (forall k :: Lookup(old', k) != Lookup(new', k) ==> exists d :: d in ds && DeltaKey(d) == k)
  }

  lemma MinimalDiffApplies(ds: seq<Delta>, old': Keyed, new': Keyed)
    requires MinimalDiff(ds, old', new')
    ensures Apply(ds, old') == new'
    ensures Strict(ds, old')
  {
    assert forall d :: d in ds ==> Settled(d);
    UniqKeys(ds);
    UniqOfDistinct(ds);
    ApplyByUniq(ds, old');
    var r := Apply(ds, old');
    forall k ensures Lookup(r, k) == Lookup(new', k) {
      if k in Uniq(ds) {
        var d :| d in ds && DeltaKey(d) == k;
        assert Uniq(ds)[k] == d && DiffDelta(d, old', new');
      } else {
        assert Lookup(old', k) == Lookup(new', k);
      }
    }
    SameLookups(r, new');
    assert forall d :: d in ds ==> StrictOne(d, old');
    DistinctIsStrict(ds, old');
  }

  // ---- diffDeltas ----

  /** The identity test of `containsDelta`: same GVK and name; the namespace is not compared. */
  predicate SameRow(d: Delta, e: Delta) {
    GvkOf(d.obj) == GvkOf(e.obj) && NameOf(d.obj) == NameOf(e.obj)
  }

  predicate Contains(ds: seq<Delta>, d: Delta) {
    exists i :: 0 <= i < |ds| && SameRow(d, ds[i])
  }

  /** The deltas of `ds` that occur (or do not occur) in `others`, retyped. */
  function Retype(ds: seq<Delta>, others: seq<Delta>, present: bool, t: DeltaType): seq<Delta> {
    if ds == [] then []
    else
      var pre, last := Retype(ds[..|ds| - 1], others, present, t), ds[|ds| - 1];
      if Contains(others, last) == present then pre + [Delta(t, last.obj)] else pre
  }

  method ContainsDelta(ds: seq<Delta>, d: Delta) returns (found: bool)
    ensures found == Contains(ds, d)
    ensures found <==> exists e :: e in ds && GvkOf(e.obj) == GvkOf(d.obj) && NameOf(e.obj) == NameOf(d.obj)
  {
    assert forall j :: 0 <= j < |ds| ==> ds[j] in ds;
    for i := 0 to |ds|
      invariant !exists j :: 0 <= j < i && SameRow(d, ds[j])
    {
      if SameRow(d, ds[i]) { return true; }
    }
    return false;
  }

  method DiffDeltas(dels: seq<Delta>, adds: seq<Delta>)
    returns (a: seq<Delta>, m: seq<Delta>, d: seq<Delta>)
    ensures d == Retype(dels, adds, false, Deleted)
    ensures m == Retype(adds, dels, true, Updated)
    ensures a == Retype(adds, dels, false, Added)
  {
    a, m, d := [], [], [];
    for i := 0 to |dels|
      invariant d == Retype(dels[..i], adds, false, Deleted)
    {
      assert dels[..i + 1][..i] == dels[..i];
      var found := ContainsDelta(adds, dels[i]);
      if !found {
        d := d + [Delta(Deleted, dels[i].obj)];
      }
    }
    assert dels[..|dels|] == dels;
    for i := 0 to |adds|
      invariant m == Retype(adds[..i], dels, true, Updated)
      invariant a == Retype(adds[..i], dels, false, Added)
    {
      assert adds[..i + 1][..i] == adds[..i];
      var found := ContainsDelta(dels, adds[i]);
      if found {
        m := m + [Delta(Updated, adds[i].obj)];
      } else {
        a := a + [Delta(Added, adds[i].obj)];
      }
    }
    assert adds[..|adds|] == adds;
  }

  /** Rows of one kind without namespaces: here `SameRow` is equality of keys. */
  ghost predicate Rows(ds: seq<Delta>, gvk: GVK) {
    forall d :: d in ds ==> GvkOf(d.obj) == gvk && NamespaceOf(d.obj) == ""
  }

  lemma {:induction false} RetypeElements(ds: seq<Delta>, others: seq<Delta>, present: bool, t: DeltaType)
    requires DistinctKeys(ds)
    ensures var r := Retype(ds, others, present, t);
            && DistinctKeys(r)
            && (forall e :: e in r ==>
                e.typ == t && exists d :: d in ds && d.obj == e.obj && Contains(others, d) == present)
            && (forall d :: d in ds && Contains(others, d) == present ==> Delta(t, d.obj) in r)
  {
    if ds != [] {
      var pre, last := ds[..|ds| - 1], ds[|ds| - 1];
      assert ds == pre + [last];
      RetypeElements(pre, others, present, t);
      var r0 := Retype(pre, others, present, t);
      forall e | e in r0 ensures DeltaKey(e) != DeltaKey(last) {
        var d :| d in pre && d.obj == e.obj;
      }
      var r := Retype(ds, others, present, t);
      forall e | e in r ensures e.typ == t && exists d :: d in ds && d.obj == e.obj && Contains(others, d) == present {
        if e in r0 {
          var d :| d in pre && d.obj == e.obj && Contains(others, d) == present;
          assert d in ds;
        } else {
          assert e.obj == last.obj && last in ds;
        }
      }
      forall d | d in ds && Contains(others, d) == present ensures Delta(t, d.obj) in r {
        if d in pre { assert Delta(t, d.obj) in r0; }
      }
    }
  }

  ghost predicate AllOfType(ds: seq<Delta>, t: DeltaType) {
    forall d :: d in ds ==> d.typ == t
  }

  ghost predicate HasKey(ds: seq<Delta>, k: string) {
    exists d :: d in ds && DeltaKey(d) == k
  }

  lemma ContainsIsKeyEquality(ds: seq<Delta>, d: Delta, gvk: GVK)
    requires Rows(ds, gvk) && GvkOf(d.obj) == gvk && NamespaceOf(d.obj) == ""
    ensures Contains(ds, d) <==> HasKey(ds, DeltaKey(d))
  {
    if e :| e in ds && DeltaKey(e) == DeltaKey(d) {
      var i :| 0 <= i < |ds| && ds[i] == e;
      assert SameRow(d, ds[i]);
    }
    if Contains(ds, d) {
      var i :| 0 <= i < |ds| && SameRow(d, ds[i]);
      assert ds[i] in ds;
    }
  }

  /** The consolidated list `evaluateJoin` emits for an update. */
  function Consolidated(dels: seq<Delta>, adds: seq<Delta>): seq<Delta> {
    Retype(dels, adds, false, Deleted) + Retype(adds, dels, true, Updated) + Retype(adds, dels, false, Added)
  }

  /** A delete list and an add list of rows of one kind, each without repeated keys. */
  ghost predicate DeleteAddPair(dels: seq<Delta>, adds: seq<Delta>, gvk: GVK) {
    && DistinctKeys(dels) && AllOfType(dels, Deleted) && Rows(dels, gvk)
    && DistinctKeys(adds) && AllOfType(adds, Added) && Rows(adds, gvk)
  }

  /** The membership rule of the consolidated list. */
  ghost predicate ConsolidatedDelta(e: Delta, dels: seq<Delta>, adds: seq<Delta>) {
    match e.typ
    case Deleted => e in dels && !HasKey(adds, DeltaKey(e))
    case Updated => Delta(Added, e.obj) in adds && HasKey(dels, DeltaKey(e))
    case Added => e in adds && !HasKey(dels, DeltaKey(e))
    case _ => false
  }

  lemma ConsolidatedElements(dels: seq<Delta>, adds: seq<Delta>, gvk: GVK)
    requires DeleteAddPair(dels, adds, gvk)
    ensures forall e :: e in Consolidated(dels, adds) <==> ConsolidatedDelta(e, dels, adds)
  {
    var d, m, a := Retype(dels, adds, false, Deleted), Retype(adds, dels, true, Updated),
                   Retype(adds, dels, false, Added);
    RetypeElements(dels, adds, false, Deleted);
    RetypeElements(adds, dels, true, Updated);
    RetypeElements(adds, dels, false, Added);
    forall x | x in dels ensures Contains(adds, x) <==> HasKey(adds, DeltaKey(x)) {
      ContainsIsKeyEquality(adds, x, gvk);
    }
    forall x | x in adds ensures Contains(dels, x) <==> HasKey(dels, DeltaKey(x)) {
      ContainsIsKeyEquality(dels, x, gvk);
    }
    forall e ensures e in d + m + a <==> ConsolidatedDelta(e, dels, adds) {
      if e in d {
        var x :| x in dels && x.obj == e.obj && !Contains(adds, x);
        assert x == e;
      } else if e in m {
        var x :| x in adds && x.obj == e.obj && Contains(dels, x);
        assert x == Delta(Added, e.obj);
      } else if e in a {
        var x :| x in adds && x.obj == e.obj && !Contains(dels, x);
        assert x == e;
      }
    }
  }

  lemma ConsolidatedShape(dels: seq<Delta>, adds: seq<Delta>, gvk: GVK)
    requires DeleteAddPair(dels, adds, gvk)
    ensures DistinctKeys(Consolidated(dels, adds)) && Ordered(Consolidated(dels, adds))
  {
    var d, m, a := Retype(dels, adds, false, Deleted), Retype(adds, dels, true, Updated),
                   Retype(adds, dels, false, Added);
    ConsolidatedElements(dels, adds, gvk);
    RetypeElements(dels, adds, false, Deleted);
    RetypeElements(adds, dels, true, Updated);
    RetypeElements(adds, dels, false, Added);
    var out := d + m + a;
    forall i, j | 0 <= i < j < |out|
      ensures DeltaKey(out[i]) != DeltaKey(out[j]) && Rank(out[i].typ) <= Rank(out[j].typ)
    {
      assert ConsolidatedDelta(out[i], dels, adds) && ConsolidatedDelta(out[j], dels, adds);
      assert out[i].typ == (if i < |d| then Deleted else if i < |d| + |m| then Updated else Added);
      assert out[j].typ == (if j < |d| then Deleted else if j < |d| + |m| then Updated else Added);
      if out[i].typ == Deleted && out[j].typ != Deleted {
        assert Delta(Added, out[j].obj) in adds;
      }
    }
  }

  /** The updates and adds of the consolidated list are the add list, retyped. */
  lemma RetypedAdds(dels: seq<Delta>, adds: seq<Delta>)
    requires DistinctKeys(adds)
    ensures var r := Retype(adds, dels, true, Updated) + Retype(adds, dels, false, Added);
            && DistinctKeys(r) && (forall e :: e in r ==> e.typ != Deleted && Settled(e))
            && (forall e :: e in r ==> exists a :: a in adds && a.obj == e.obj)
            && (forall a :: a in adds ==> exists e :: e in r && e.obj == a.obj)
  {
    var m, a := Retype(adds, dels, true, Updated), Retype(adds, dels, false, Added);
    RetypeElements(adds, dels, true, Updated);
    RetypeElements(adds, dels, false, Added);
    hide Retype, Contains, KeyOf;
    var r := m + a;
    forall x, y | x in m && y in a ensures DeltaKey(x) != DeltaKey(y) {
      var p :| p in adds && p.obj == x.obj && Contains(dels, p);
      var q :| q in adds && q.obj == y.obj && !Contains(dels, q);
    }
    assert DistinctKeys(r) by { DistinctConcat(m, a); }
    forall x | x in adds ensures exists e :: e in r && e.obj == x.obj {
      assert if Contains(dels, x) then Delta(Updated, x.obj) in m else Delta(Added, x.obj) in a;
      assert Delta(Updated, x.obj) in r || Delta(Added, x.obj) in r;
    }
  }

  lemma DistinctConcat(xs: seq<Delta>, ys: seq<Delta>)
    requires DistinctKeys(xs) && DistinctKeys(ys)
    requires forall x, y :: x in xs && y in ys ==> DeltaKey(x) != DeltaKey(y)
    ensures DistinctKeys(xs + ys)
  {
    hide DeltaKey;
    var r := xs + ys;
    forall i, j | 0 <= i < j < |r| ensures DeltaKey(r[i]) != DeltaKey(r[j]) {
      assert i < |xs| <= j ==> r[i] in xs && r[j] in ys;
      assert |xs| <= i ==> r[i] == ys[i - |xs|] && r[j] == ys[j - |xs|];
    }
  }

  /** What the consolidated list and the two lists make of one key. */
  lemma ConsolidatedAt(dels: seq<Delta>, adds: seq<Delta>, v: Keyed, k: string)
    requires DistinctKeys(dels) && AllOfType(dels, Deleted) && DistinctKeys(adds) && AllOfType(adds, Added)
    ensures Lookup(Apply(Consolidated(dels, adds), v), k) == Lookup(Apply(adds, Apply(dels, v)), k) <==>
              (k in v && !HasKey(adds, k) ==> forall d :: d in dels && DeltaKey(d) == k ==> !Contains(adds, d))
  {
    var ds, r := Retype(dels, adds, false, Deleted),
                 Retype(adds, dels, true, Updated) + Retype(adds, dels, false, Added);
    RetypeElements(dels, adds, false, Deleted);
    RetypedAdds(dels, adds);
    hide Contains;
    assert Consolidated(dels, adds) == ds + r;
    hide Retype, Consolidated;
    ApplyConcat(ds, r, v);
    assert forall e :: e in ds ==> Settled(e);
    hide KeyOf, Rank, Ordered;
    ApplyDistinctAt(ds, v, k);
    ApplyDistinctAt(r, Apply(ds, v), k);
    ApplyDistinctAt(dels, v, k);
    ApplyDistinctAt(adds, Apply(dels, v), k);
    hide Apply;
    if HasKey(adds, k) {
      var x :| x in adds && DeltaKey(x) == k;
      var e :| e in r && e.obj == x.obj;
      assert DeltaKey(e) == k;
    } else {
      assert !HasKey(r, k);
      if d :| d in dels && DeltaKey(d) == k {
        assert forall e :: e in dels && DeltaKey(e) == k ==> e == d by { SameKeySameDelta(dels, d, k); }
        if !Contains(adds, d) {
          assert Delta(Deleted, d.obj) in ds;
        } else {
          assert !HasKey(ds, k);
        }
      } else {
        assert !HasKey(ds, k);
      }
    }
  }

  lemma SameKeySameDelta(ds: seq<Delta>, d: Delta, k: string)
    requires DistinctKeys(ds) && d in ds && DeltaKey(d) == k
    ensures forall e :: e in ds && DeltaKey(e) == k ==> e == d
  {
    hide DeltaKey;
  }

  lemma ApplyDistinctAt(ds: seq<Delta>, v: Keyed, k: string)
    requires DistinctKeys(ds) && forall d :: d in ds ==> Settled(d)
    ensures HasKey(ds, k) ==> forall d :: d in ds && DeltaKey(d) == k ==>
              Lookup(Apply(ds, v), k) == if d.typ == Deleted then None else Some(d.obj)
    ensures !HasKey(ds, k) ==> Lookup(Apply(ds, v), k) == Lookup(v, k)
  {
    ApplyByUniq(ds, v);
    OutcomeOfDistinct(ds, v, k);
  }

  /** `diffDeltas` replaces the old rows by the new ones in a view if and only if every deleted row it drops
      for an added row of the same kind and name is overwritten: it does not compare namespaces. */
  lemma DiffDeltasReplacesIff(dels: seq<Delta>, adds: seq<Delta>, v: Keyed)
    requires DistinctKeys(dels) && AllOfType(dels, Deleted) && DistinctKeys(adds) && AllOfType(adds, Added)
    ensures Apply(Consolidated(dels, adds), v) == Apply(adds, Apply(dels, v)) <==>
              forall d :: d in dels && Contains(adds, d) && DeltaKey(d) in v ==> HasKey(adds, DeltaKey(d))
  {
    hide Apply, Consolidated, Contains, DeltaKey;
    var x, y := Apply(Consolidated(dels, adds), v), Apply(adds, Apply(dels, v));
    forall k ensures Lookup(x, k) == Lookup(y, k) <==>
        (k in v && !HasKey(adds, k) ==> forall d :: d in dels && DeltaKey(d) == k ==> !Contains(adds, d)) {
      ConsolidatedAt(dels, adds, v, k);
    }
    if forall d :: d in dels && Contains(adds, d) && DeltaKey(d) in v ==> HasKey(adds, DeltaKey(d)) {
      SameLookups(x, y);
    }
  }

  /** Lists of rows of one kind without namespaces always meet the condition, and then every key has one
      delta, deletes before updates before adds. */
  lemma DiffDeltasReplaces(dels: seq<Delta>, adds: seq<Delta>, gvk: GVK, v: Keyed)
    requires DeleteAddPair(dels, adds, gvk)
    ensures DistinctKeys(Consolidated(dels, adds)) && Ordered(Consolidated(dels, adds))
    ensures Apply(Consolidated(dels, adds), v) == Apply(adds, Apply(dels, v))
  {
    ConsolidatedShape(dels, adds, gvk);
    DiffDeltasReplacesIff(dels, adds, v);
    hide Apply, Consolidated;
    forall d | d in dels ensures Contains(adds, d) <==> HasKey(adds, DeltaKey(d)) {
      ContainsIsKeyEquality(adds, d, gvk);
    }
  }

  /** In a list without repeated keys each delta alone decides its key. */
  lemma OutcomeOfDistinct(ds: seq<Delta>, v: Keyed, k: string)
    requires DistinctKeys(ds)
    ensures HasKey(ds, k) ==> forall d :: d in ds && DeltaKey(d) == k ==>
              Outcome(Uniq(ds), v, k) == if d.typ == Deleted then None else Some(d.obj)
    ensures !HasKey(ds, k) ==> Outcome(Uniq(ds), v, k) == Lookup(v, k)
  {
    UniqKeys(ds);
    UniqOfDistinct(ds);
  }

  /** Deleting the old rows and adding the new ones consolidates to the exact difference. */
  lemma ConsolidatedIsMinimalDiff(dels: seq<Delta>, adds: seq<Delta>, gvk: GVK, v: Keyed, mid: Keyed, w: Keyed)
    requires DeleteAddPair(dels, adds, gvk)
    requires MinimalDiff(dels, v, mid) && MinimalDiff(adds, mid, w)
    requires forall d, a :: d in dels && a in adds && DeltaKey(d) == DeltaKey(a) ==> d.obj != a.obj
    ensures MinimalDiff(Consolidated(dels, adds), v, w)
  {
    var out := Consolidated(dels, adds);
    ConsolidatedShape(dels, adds, gvk);
    ConsolidatedElements(dels, adds, gvk);
    forall e | e in out ensures DiffDelta(e, v, w) {
      ConsolidatedDiffDelta(e, dels, adds, v, mid, w);
    }
    forall k | Lookup(v, k) != Lookup(w, k) ensures exists e :: e in out && DeltaKey(e) == k {
      if HasKey(adds, k) {
        var a :| a in adds && DeltaKey(a) == k;
        var e := if HasKey(dels, k) then Delta(Updated, a.obj) else a;
        assert ConsolidatedDelta(e, dels, adds);
      } else {
        assert Lookup(mid, k) == Lookup(w, k);
        assert HasKey(dels, k);
        var d :| d in dels && DeltaKey(d) == k;
        assert ConsolidatedDelta(d, dels, adds);
      }
    }
  }

  lemma ConsolidatedDiffDelta(e: Delta, dels: seq<Delta>, adds: seq<Delta>, v: Keyed, mid: Keyed, w: Keyed)
    requires ConsolidatedDelta(e, dels, adds)
    requires AllOfType(dels, Deleted) && AllOfType(adds, Added)
    requires MinimalDiff(dels, v, mid) && MinimalDiff(adds, mid, w)
    requires forall d, a :: d in dels && a in adds && DeltaKey(d) == DeltaKey(a) ==> d.obj != a.obj
    ensures DiffDelta(e, v, w)
  {
    var k := DeltaKey(e);
    match e.typ
    case Deleted =>
      assert DiffDelta(e, v, mid);
      assert Lookup(mid, k) == Lookup(w, k);
    case Updated =>
      assert DiffDelta(Delta(Added, e.obj), mid, w);
      var d :| d in dels && DeltaKey(d) == k;
      assert DiffDelta(d, v, mid);
    case Added =>
      assert DiffDelta(e, mid, w);
      assert Lookup(v, k) == Lookup(mid, k);
  }
}
