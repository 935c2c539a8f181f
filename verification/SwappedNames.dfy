/** A pipeline on which incremental evaluation goes wrong although projected keys are unique before and
    after every event: items are joined with a table that names them, and one update of the table swaps the
    names of two items. */
module SwappedNames {
  import opened JsonTrees
  import opened Objects
  import opened Deltas
  import opened Joins
  import opened Aggregations
  import opened Engine
  import opened ImageViews
  import opened Feeding
  import opened UpdateOrders
  import opened Pipelines
  import opened JoinRefinement
  import opened PipelineRefinement

  function ItemView(): GVK {
    ViewGvk("item")
  }

  function TableView(): GVK {
    ViewGvk("table")
  }

  function Views(): seq<GVK> {
    [ItemView(), TableView()]
  }

  function Item(name: string): Object {
    map["apiVersion" := Str(VIEW_API_VERSION), "kind" := Str("item"), "metadata" := Obj(map["name" := Str(name)])]
  }

  function Table(name: string, names: Object): Object {
    map["apiVersion" := Str(VIEW_API_VERSION), "kind" := Str("table"), "metadata" := Obj(map["name" := Str(name)]),
        "names" := Obj(names)]
  }

  /** The join condition: both members are there. */
  function Both(c: Object): Result<bool> {
    Ok("item" in c && "table" in c)
  }

  function ObjectField(o: Object, k: string): Object {
    if k in o && o[k].Obj? then o[k].fields else map[]
  }

  /** The projection: an object with the name the table gives to the item. */
  function Rename(row: Object): Result<Object> {
    var names := ObjectField(ObjectField(row, "table"), "names");
    Ok(map["metadata" := Obj(map["name" := Str(StringField(names, NameOf(ObjectField(row, "item"))))])])
  }

  function Naming(view: string): Aggregate {
    Aggregate(view, [Project(Rename)])
  }

  function NamingPipeline(view: string): Config {
    Config(Views(), Some(Both), Some(Naming(view)))
  }

  function Names(x: string, a: string, y: string, b: string): Object {
    map[x := Str(a), y := Str(b)]
  }

  // ---- The pipeline is well-formed ----

  lemma ViewFacts()
    ensures WfViews(Views()) && InnerCondition(Views(), Both)
    ensures ViewKinds(Views()) == {"item", "table"} && ItemView() != TableView()
    ensures |Views()| == 2 && Views()[0] == ItemView() && Views()[1] == TableView()
    ensures ItemView().kind == "item" && TableView().kind == "table"
  {
    assert Views()[0].kind == "item" && Views()[1].kind == "table";
    assert "item"[0] != "table"[0];
    forall v ensures v in Views() <==> v == ItemView() || v == TableView() { }
    assert ItemView() in Views() && TableView() in Views();
    assert |"item"| != |TMP_JOIN_VIEW| && |"table"| != |TMP_JOIN_VIEW|;
  }

  lemma ViewsAreWf()
    ensures WfViews(Views()) && InnerCondition(Views(), Both)
  {
    hide WfViews, InnerCondition;
    ViewFacts();
  }

  lemma ViewsDiffer()
    ensures ItemView() != TableView() && ItemView() in Views() && TableView() in Views()
  {
    ViewFacts();
    hide *;
    assert Views()[0] in Views() && Views()[1] in Views();
  }

  lemma Identities(name: string, names: Object)
    ensures GvkOf(Item(name)) == ItemView() && GvkOf(Table(name, names)) == TableView()
    ensures NamespaceOf(Item(name)) == "" && NamespaceOf(Table(name, names)) == ""
    ensures NameOf(Item(name)) == name && NameOf(Table(name, names)) == name
    ensures KeyOf(Item(name)) == name && KeyOf(Table(name, names)) == name
  {
    assert Metadata(Item(name)) == map["name" := Str(name)];
    assert Metadata(Table(name, names)) == map["name" := Str(name)];
  }

  /** A name that does not contain the marker `--table:`. */
  ghost predicate ItemName(name: string) {
    !Ids.Occurs(Ids.Marker("table"), name)
  }

  lemma IdsAreSafe(name: string, names: Object)
    ensures ItemName(name) ==> IdSafe(Views(), Item(name))
    ensures IdSafe(Views(), Table(name, names))
  {
    ViewFacts();
    Identities(name, names);
    assert !Ids.Before("table", "item") by { assert ("table" + ":")[0] > ("item" + ":")[0]; }
    hide Ids.Before, Item, Table, GvkOf, NamespaceOf, NameOf, ViewKinds;
    forall k | Ids.Follows({"item", "table"}, "item", k) ensures k == "table" { }
    forall k ensures !Ids.Follows({"item", "table"}, "table", k) { }
  }

  // ---- The rows ----

  function RowOf(item: string, table: string, names: Object): Tuple {
    [Some(Item(item)), Some(Table(table, names))]
  }

  function RowKey(item: string, table: string, names: Object): string {
    KeyOf(JoinObject(RowOf(item, table, names)))
  }

  lemma RowIsFull(item: string, table: string, names: Object)
    requires ItemName(item)
    ensures FullTuple(Views(), RowOf(item, table, names))
  {
    Identities(item, names);
    Identities(table, names);
    IdsAreSafe(item, names);
    IdsAreSafe(table, names);
    hide IdSafe, Item, Table, GvkOf;
  }

  lemma RowMembers(item: string, table: string, names: Object)
    requires ItemName(item)
    ensures Members(RowOf(item, table, names)) == [Ids.Member("item", "", item), Ids.Member("table", "", table)]
  {
    var t := RowOf(item, table, names);
    RowIsFull(item, table, names);
    MembersOfFull(Views(), t);
    Identities(item, names);
    Identities(table, names);
    hide Item, Table, GvkOf, Members, NameOf, NamespaceOf, FullTuple;
  }

  /** The key of a row does not depend on the names in the table. */
  lemma RowKeyIsStable(item: string, table: string, names: Object, names': Object)
    requires ItemName(item)
    ensures RowKey(item, table, names) == RowKey(item, table, names')
  {
    ViewsAreWf();
    RowIsFull(item, table, names);
    RowIsFull(item, table, names');
    RowMembers(item, table, names);
    RowMembers(item, table, names');
    hide RowOf, JoinObject, Members, NameOf, NamespaceOf, FullTuple, WfViews, Views, Ids.JoinId, ItemName;
    JoinObjectIdentity(Views(), RowOf(item, table, names));
    JoinObjectIdentity(Views(), RowOf(item, table, names'));
  }

  lemma RowRenamed(item: string, table: string, names: Object)
    requires ItemName(item)
    ensures Rename(JoinObject(RowOf(item, table, names)))
            == Ok(map["metadata" := Obj(map["name" := Str(StringField(names, item))])])
  {
    var r := JoinObject(RowOf(item, table, names));
    ViewFacts();
    RowIsFull(item, table, names);
    Identities(item, names);
    hide WfViews, InnerCondition, JoinObject, Views, NameOf, StringField, FullTuple;
    JoinObjectIdentity(Views(), RowOf(item, table, names));
    assert r[Views()[0].kind] == Obj(Item(item)) && r[Views()[1].kind] == Obj(Table(table, names));
  }

  lemma NamedImage(view: string, r: Object, name: string)
    requires Rename(r) == Ok(map["metadata" := Obj(map["name" := Str(name)])]) && name != ""
    ensures var image := Image(view, [Project(Rename)], r);
            image.Ok? && image.value.Some? && KeyOf(image.value.value) == name
  {
    var content: Object := map["metadata" := Obj(map["name" := Str(name)])];
    hide Rename;
    assert StagesImage([Project(Rename)], r) == Ok(Some(content)) by {
      assert [Project(Rename)][..0] == [];
      assert StagesImage([], r) == Ok(Some(r));
    }
    assert Metadata(content) == map["name" := Str(name)];
    NormalizeYieldsNamedViewObject(view, content);
    hide Normalize;
  }

  lemma RowImage(view: string, item: string, table: string, names: Object)
    requires ItemName(item) && StringField(names, item) != ""
    ensures var image := Image(view, [Project(Rename)], JoinObject(RowOf(item, table, names)));
            image.Ok? && image.value.Some? && KeyOf(image.value.value) == StringField(names, item)
  {
    hide *;
    RowRenamed(item, table, names);
    NamedImage(view, JoinObject(RowOf(item, table, names)), StringField(names, item));
  }

  // ---- States with one table and two items ----

  /** The table `m` names item `x` by `a` and item `y` by `b`. */
  ghost predicate Named(st: Stores, m: string, x: string, a: string, y: string, b: string) {
    && StoreAt(st, ItemView()) == map[x := Item(x), y := Item(y)]
    && StoreAt(st, TableView()) == map[m := Table(m, Names(x, a, y, b))]
  }

  ghost predicate Distinct(x: string, a: string, y: string, b: string) {
    x != y && a != b && a != "" && b != "" && ItemName(x) && ItemName(y)
  }

  lemma TuplesAre(st: Stores, m: string, x: string, a: string, y: string, b: string, t: Tuple)
    requires Named(st, m, x, a, y, b)
    ensures IsTuple(Views(), st, t) <==>
              t == RowOf(x, m, Names(x, a, y, b)) || t == RowOf(y, m, Names(x, a, y, b))
  {
    TupleByStores(Views(), st, t);
    var items, tables := StoreAt(st, ItemView()), StoreAt(st, TableView());
    assert forall o :: o in items.Values <==> o == Item(x) || o == Item(y) by {
      assert x in items && y in items;
    }
    assert forall o :: o in tables.Values <==> o == Table(m, Names(x, a, y, b)) by { assert m in tables; }
    hide Item, Table, Names, StoreAt, ItemView, TableView;
    assert Views()[0] == ItemView() && Views()[1] == TableView();
    if |t| == 2 { assert t == [t[0], t[1]]; }
  }

  lemma RowMatches(item: string, table: string, names: Object)
    requires ItemName(item)
    ensures Matches(Both, RowOf(item, table, names))
  {
    ViewFacts();
    RowIsFull(item, table, names);
    hide Views, ItemView, TableView, Ids.JoinId, Item, Table;
    InputFieldsOfFull(Views(), RowOf(item, table, names));
    var f := InputFields(RowOf(item, table, names));
    assert Views()[0].kind in f && Views()[1].kind in f;
  }

  /** `v` holds the two rows of the table and nothing else. */
  ghost predicate TwoRows(v: Keyed, m: string, x: string, y: string, names: Object) {
    && Lookup(v, RowKey(x, m, names)) == Some(JoinObject(RowOf(x, m, names)))
    && Lookup(v, RowKey(y, m, names)) == Some(JoinObject(RowOf(y, m, names)))
    && RowKey(x, m, names) != RowKey(y, m, names)
    && forall k :: k in v ==> k == RowKey(x, m, names) || k == RowKey(y, m, names)
  }

  lemma RowsDiffer(x: string, y: string, m: string, names: Object)
    requires x != y
    ensures RowOf(x, m, names) != RowOf(y, m, names)
  {
    Identities(x, names);
    Identities(y, names);
    hide Item, Table, NameOf;
    assert RowOf(x, m, names)[0] == Some(Item(x)) && RowOf(y, m, names)[0] == Some(Item(y));
  }

  lemma JoinIs(st: Stores, m: string, x: string, a: string, y: string, b: string)
    requires Named(st, m, x, a, y, b) && Distinct(x, a, y, b) && StoresOk(Views(), st)
    ensures TwoRows(JoinView(Views(), Both, st), m, x, y, Names(x, a, y, b))
  {
    hide JoinObject, JoinView, Matches, RowOf, Names, WfViews, StoresOk, Named, KeyOf, Views, IsTuple, Both,
         InnerCondition, ItemName;
    var v, ns := JoinView(Views(), Both, st), Names(x, a, y, b);
    ViewsAreWf();
    RowMatches(x, m, ns);
    RowMatches(y, m, ns);
    RowsDiffer(x, y, m, ns);
    JoinViewExact(Views(), Both, st);
    forall t ensures IsTuple(Views(), st, t) <==> t == RowOf(x, m, ns) || t == RowOf(y, m, ns) {
      TuplesAre(st, m, x, a, y, b, t);
    }
    if RowKey(x, m, ns) == RowKey(y, m, ns) {
      KeyDeterminesTuple(Views(), st, RowOf(x, m, ns), RowOf(y, m, ns));
    }
  }

  lemma NamesRead(x: string, a: string, y: string, b: string)
    requires x != y
    ensures StringField(Names(x, a, y, b), x) == a && StringField(Names(x, a, y, b), y) == b
  {
  }

  /** What the projection makes of the two rows: keys `a` and `b`, and never an error. */
  lemma ProjectionIs(view: string, v: Keyed, m: string, x: string, a: string, y: string, b: string)
    requires TwoRows(v, m, x, y, Names(x, a, y, b)) && Distinct(x, a, y, b)
    ensures var p, ns := ProjectionOf(Naming(view)), Names(x, a, y, b);
            && ImageKey(p, Lookup(v, RowKey(x, m, ns))) == Some(a)
            && ImageKey(p, Lookup(v, RowKey(y, m, ns))) == Some(b)
            && Injective(p, v) && AllImages(Naming(view), v)
  {
    hide JoinObject, Names, KeyOf, Image, RowKey, StringField, ItemName, RowOf, Rename;
    var p, ns := ProjectionOf(Naming(view)), Names(x, a, y, b);
    NamesRead(x, a, y, b);
    RowImage(view, x, m, ns);
    RowImage(view, y, m, ns);
    var kx, ky := RowKey(x, m, ns), RowKey(y, m, ns);
    assert ImageKey(p, Lookup(v, kx)) == Some(a) && ImageKey(p, Lookup(v, ky)) == Some(b);
    assert AllImages(Naming(view), v);
    assert forall k :: k != kx && k != ky ==> Lookup(v, k) == None;
    assert ImageKey(p, None) == None;
    hide *;
    TwoKeysInjective(p, v, kx, ky, a, b);
  }

  lemma TwoKeysInjective(p: Projection, v: Keyed, kx: string, ky: string, a: string, b: string)
    requires a != b && ImageKey(p, Lookup(v, kx)) == Some(a) && ImageKey(p, Lookup(v, ky)) == Some(b)
    requires forall k :: k != kx && k != ky ==> Lookup(v, k) == None
    ensures Injective(p, v)
  {
    assert ImageKey(p, None) == None;
    hide ImageKey, Lookup;
  }

  lemma NamedProjects(view: string, st: Stores, m: string, x: string, a: string, y: string, b: string)
    requires Named(st, m, x, a, y, b) && Distinct(x, a, y, b) && StoresOk(Views(), st)
    ensures Injective(ProjectionOf(Naming(view)), JoinView(Views(), Both, st))
    ensures AllImages(Naming(view), JoinView(Views(), Both, st))
  {
    hide *;
    JoinIs(st, m, x, a, y, b);
    ProjectionIs(view, JoinView(Views(), Both, st), m, x, a, y, b);
  }

  // ---- The swap ----

  /** The update that swaps the two names. */
  function Swap(m: string, x: string, a: string, y: string, b: string): Delta {
    Delta(Updated, Table(m, Names(x, b, y, a)))
  }

  /** Putting a table into its store is a well-formed event. */
  lemma TableIsWf(view: string, st: Stores, t: DeltaType, m: string, names: Object)
    requires StoresOk(Views(), st) && (t == Added ==> m !in StoreAt(st, TableView()))
    ensures WfConfig(NamingPipeline(view)) && WfStep(NamingPipeline(view), st, Delta(t, Table(m, names)))
    ensures GvkOf(Table(m, names)) == TableView() && KeyOf(Table(m, names)) == m
  {
    ViewsAreWf();
    Identities(m, names);
    IdsAreSafe(m, names);
    hide GvkOf, KeyOf, InnerCondition, WfViews, IdSafe, SafeEvent, Table, StoresOk, Views, ItemView, TableView;
    ViewsDiffer();
    InnerIsSafe(Views(), Both, st, Delta(t, Table(m, names)));
  }

  lemma SwapIsWf(view: string, st: Stores, m: string, x: string, a: string, y: string, b: string)
    requires Named(st, m, x, a, y, b) && Distinct(x, a, y, b) && StoresOk(Views(), st)
    ensures WfConfig(NamingPipeline(view)) && WfStep(NamingPipeline(view), st, Swap(m, x, a, y, b))
    ensures TableView() in st && GvkOf(Swap(m, x, a, y, b).obj) == TableView()
    ensures ValidEvent(st, Swap(m, x, a, y, b))
    ensures Named(StoresAfter(st, Swap(m, x, a, y, b)), m, x, b, y, a)
  {
    hide GvkOf, KeyOf, Names, Item, Table, StoresOk, ItemView, TableView, WfConfig, WfStep, StoresAfter, NamingPipeline;
    var d := Swap(m, x, a, y, b);
    TableIsWf(view, st, Updated, m, Names(x, b, y, a));
    assert Table(m, Names(x, a, y, b)) != Table(m, Names(x, b, y, a)) by { TablesDiffer(m, x, a, y, b); }
    assert ItemView() != TableView() by { ViewsDiffer(); }
    StoreAfter(st, d, ItemView());
    StoreAfter(st, d, TableView());
    assert m in StoreAt(st, TableView());
  }

  lemma TablesDiffer(m: string, x: string, a: string, y: string, b: string)
    requires x != y && a != b
    ensures Table(m, Names(x, a, y, b)) != Table(m, Names(x, b, y, a))
  {
    assert Names(x, a, y, b)[x] != Names(x, b, y, a)[x];
    assert Table(m, Names(x, a, y, b))["names"] != Table(m, Names(x, b, y, a))["names"];
  }

  lemma JoinNeverFails(st: Stores, d: Delta, st': Stores, r: Result<seq<Delta>>)
    requires JoinStep(Views(), Both, st, d, st', r)
    ensures r.Ok?
  {
    hide GvkOf, KeyOf, RowsThrough, IsThrough, JoinInput;
  }

  lemma RowsEvaluate(a: Aggregate, v: Keyed, w: Keyed, k: string)
    requires AllImages(a, v) && AllImages(a, w)
    ensures RowEvaluates(a, v, w, k)
  {
  }

  /** Whatever the listing orders, the update of the table succeeds: the exact difference of the two joins
      is fed to the aggregation, and no row fails. */
  lemma SwapSucceeds(view: string, st: Stores, m: string, x: string, a: string, y: string, b: string,
                     mid: Stores, js: Result<seq<Delta>>, st': Stores, r: Result<seq<Delta>>)
    requires Consistent(NamingPipeline(view), st) && Named(st, m, x, a, y, b) && Distinct(x, a, y, b)
    requires JoinStep(Views(), Both, st, Swap(m, x, a, y, b), mid, js)
    requires js.Ok? ==> OutputStep(NamingPipeline(view), mid, js.value, st', r)
    ensures js.Ok? && r.Ok?
  {
    var d := Swap(m, x, a, y, b);
    JoinNeverFails(st, d, mid, js);
    SwapIsWf(view, st, m, x, a, y, b);
    hide GvkOf, KeyOf, JoinView, MinimalDiff, Rows, WfViews, StoresOk, SafeEvent, JoinStep, Image, StoresAfter,
         WfEvent, Named, AggregateAll, IsCollapse, AllImages, RowEvaluates, Injective, Views, TableView, ItemView,
         Swap, Distinct;
    JoinStepIsExactDifference(Views(), Both, st, d, mid, js.value);
    NamedProjects(view, st, m, x, a, y, b);
    NamedProjects(view, mid, m, x, b, y, a);
    TemporaryStoreUntouched(Views(), st, d);
    assert js.value[..|js.value|] == js.value;
    FeedingSucceedsIff(Naming(view), mid, TMP_GVK, JoinView(Views(), Both, mid), js.value, |js.value|);
    forall k ensures RowEvaluates(Naming(view), JoinView(Views(), Both, st), JoinView(Views(), Both, mid), k) {
      RowsEvaluate(Naming(view), JoinView(Views(), Both, st), JoinView(Views(), Both, mid), k);
    }
  }

  /** The swapped rows survive and exchange their keys. */
  lemma SwapPassesKeys(view: string, v: Keyed, w: Keyed, m: string, x: string, a: string, y: string, b: string,
                       ds: seq<Delta>)
    requires TwoRows(v, m, x, y, Names(x, a, y, b)) && TwoRows(w, m, x, y, Names(x, b, y, a))
    requires Distinct(x, a, y, b) && MinimalDiff(ds, v, w)
    ensures !NonePasses(ProjectionOf(Naming(view)), v, w, ds)
  {
    var p, ns, ns' := ProjectionOf(Naming(view)), Names(x, a, y, b), Names(x, b, y, a);
    hide MinimalDiff, NonePasses, RowKey, Names, Injective, ProjectionOf, AllImages, ItemName, JoinObject;
    ProjectionIs(view, v, m, x, a, y, b);
    ProjectionIs(view, w, m, x, b, y, a);
    RowKeyIsStable(x, m, ns, ns');
    RowKeyIsStable(y, m, ns, ns');
    var kx, ky := RowKey(x, m, ns), RowKey(y, m, ns);
    assert Survives(v, w, kx) && Survives(v, w, ky);
    hide ImageKey, TwoRows;
    SwapPasses(p, v, w, kx, ky, ds);
  }

  /** The update that swaps two names is evaluated without an error, projected keys are unique before and
      after, and yet, in every listing order, the emitted deltas do not lead to the recomputed query. */
  lemma SwapIsNeverMaintained(view: string, st: Stores, m: string, x: string, a: string, y: string, b: string,
                              st': Stores, r: Result<seq<Delta>>)
    requires Consistent(NamingPipeline(view), st) && Named(st, m, x, a, y, b) && Distinct(x, a, y, b)
    requires PipelineStep(NamingPipeline(view), st, Swap(m, x, a, y, b), st', r)
    ensures WfConfig(NamingPipeline(view)) && WfStep(NamingPipeline(view), st, Swap(m, x, a, y, b))
    ensures Injective(ProjectionOf(Naming(view)), Source(NamingPipeline(view), st))
    ensures Injective(ProjectionOf(Naming(view)), Source(NamingPipeline(view), st'))
    ensures r.Ok? && Apply(r.value, Query(NamingPipeline(view), st)) != Query(NamingPipeline(view), st')
  {
    var c, d := NamingPipeline(view), Swap(m, x, a, y, b);
    SwapIsWf(view, st, m, x, a, y, b);
    hide GvkOf, KeyOf, JoinView, MinimalDiff, WfViews, StoresOk, JoinStep, WfStep, Named, IsCollapse, AggregateAll,
         Injective, NonePasses, ProjectionOf, Apply, ImageView, ValidEvent, StoresAfter, Views, TableView, ItemView,
         Swap, Distinct, TwoRows, Names, AllImages;
    var mid: Stores, js :| SourceStep(c, st, d, mid, js) &&
      (if js.Ok? then OutputStep(c, mid, js.value, st', r) else st' == mid && r == Err(js.error));
    SwapSucceeds(view, st, m, x, a, y, b, mid, js, st', r);
    PipelineStepCorrectIff(c, st, d, mid, js.value, st', r.value);
    NamedAfter(c, st, m, x, a, y, b, st');
    NamedProjects(view, st, m, x, a, y, b);
    NamedProjects(view, st', m, x, b, y, a);
    JoinIs(st, m, x, a, y, b);
    JoinIs(st', m, x, b, y, a);
    SwapPassesKeys(view, Source(c, st), Source(c, st'), m, x, a, y, b, js.value);
  }

  lemma NamedAfter(c: Config, st: Stores, m: string, x: string, a: string, y: string, b: string, st': Stores)
    requires c.views == Views() && c.join.Some? && StoresCorrect(c, st, Swap(m, x, a, y, b), st')
    requires Named(StoresAfter(st, Swap(m, x, a, y, b)), m, x, b, y, a)
    ensures StoresOk(Views(), st') && Named(st', m, x, b, y, a)
    ensures Distinct(x, a, y, b) ==> Distinct(x, b, y, a)
  {
    hide StoresOk, StoresAfter, JoinView, Item, Table, Names, ItemView, TableView;
    assert Views()[0] in Views() && Views()[1] in Views();
  }

  // ---- Such states are reached ----

  lemma ItemIsWf(view: string, st: Stores, name: string)
    requires StoresOk(Views(), st) && name !in StoreAt(st, ItemView()) && ItemName(name)
    ensures WfStep(NamingPipeline(view), st, Delta(Added, Item(name)))
    ensures GvkOf(Item(name)) == ItemView() && KeyOf(Item(name)) == name
  {
    ViewsAreWf();
    Identities(name, map[]);
    IdsAreSafe(name, map[]);
    hide GvkOf, KeyOf, InnerCondition, WfViews, IdSafe, SafeEvent, Item, StoresOk, Views, ItemView, TableView;
    ViewsDiffer();
    InnerIsSafe(Views(), Both, st, Delta(Added, Item(name)));
  }

  /** Adding an object of one of the two views to its store. */
  lemma AddStores(view: string, st: Stores, d: Delta, st': Stores, out: seq<Delta>, v: GVK)
    requires Consistent(NamingPipeline(view), st) && WfConfig(NamingPipeline(view))
             && WfStep(NamingPipeline(view), st, d)
    requires d.typ == Added && PipelineStep(NamingPipeline(view), st, d, st', Ok(out)) && v in Views()
    ensures Consistent(NamingPipeline(view), st')
    ensures StoreAt(st', v) == if v == GvkOf(d.obj) then StoreAt(st, v)[KeyOf(d.obj) := d.obj] else StoreAt(st, v)
  {
    hide GvkOf, KeyOf, PipelineStep, WfStep, WfConfig, Consistent, Views, StoresAfter;
    StoresStep(NamingPipeline(view), st, d, st', out);
    StoreAfter(st, d, v);
  }

  lemma AddItem(view: string, st: Stores, name: string, st': Stores, out: seq<Delta>)
    requires Consistent(NamingPipeline(view), st) && name !in StoreAt(st, ItemView()) && ItemName(name)
    requires PipelineStep(NamingPipeline(view), st, Delta(Added, Item(name)), st', Ok(out))
    ensures Consistent(NamingPipeline(view), st')
    ensures StoreAt(st', ItemView()) == StoreAt(st, ItemView())[name := Item(name)]
    ensures StoreAt(st', TableView()) == StoreAt(st, TableView())
  {
    hide GvkOf, KeyOf, PipelineStep, WfStep, WfConfig, Views, ItemView, TableView, Item, JoinView, ItemName, StoresOk;
    var d := Delta(Added, Item(name));
    ViewsDiffer();
    TableIsWf(view, st, Updated, name, map[]);
    ItemIsWf(view, st, name);
    hide Consistent;
    AddStores(view, st, d, st', out, ItemView());
    AddStores(view, st, d, st', out, TableView());
  }

  lemma AddTable(view: string, m: string, names: Object, st': Stores, out: seq<Delta>)
    requires PipelineStep(NamingPipeline(view), map[], Delta(Added, Table(m, names)), st', Ok(out))
    ensures Consistent(NamingPipeline(view), st')
    ensures StoreAt(st', ItemView()) == map[] && StoreAt(st', TableView()) == map[m := Table(m, names)]
  {
    assert StoresOk(Views(), map[]);
    hide GvkOf, KeyOf, PipelineStep, WfStep, WfConfig, Views, ItemView, TableView, Table, JoinView, StoresOk, Query,
         Consistent;
    var d := Delta(Added, Table(m, names));
    ViewsDiffer();
    TableIsWf(view, map[], Added, m, names);
    EmptyEngine(NamingPipeline(view));
    AddStores(view, map[], d, st', out, ItemView());
    AddStores(view, map[], d, st', out, TableView());
  }

  /** Adding the table and then the two items to an empty engine leads to such a state. */
  lemma NamedIsReached(view: string, m: string, x: string, a: string, y: string, b: string,
                       states: seq<Stores>, outs: seq<seq<Delta>>)
    requires Distinct(x, a, y, b)
    requires Run(NamingPipeline(view),
                 [Delta(Added, Table(m, Names(x, a, y, b))), Delta(Added, Item(x)), Delta(Added, Item(y))],
                 states, outs)
    ensures Consistent(NamingPipeline(view), states[3]) && Named(states[3], m, x, a, y, b)
  {
    var events := [Delta(Added, Table(m, Names(x, a, y, b))), Delta(Added, Item(x)), Delta(Added, Item(y))];
    assert events[0].typ == events[1].typ == events[2].typ == Added;
    hide PipelineStep, Consistent, Table, Item, Names, ItemView, TableView, ItemName, NamingPipeline;
    AddTable(view, m, Names(x, a, y, b), states[1], outs[0]);
    AddItem(view, states[1], x, states[2], outs[1]);
    AddItem(view, states[2], y, states[3], outs[2]);
  }
}
