/** Join tuples and the join view: the reference meaning of an inner join over keyed stores, and how it
    changes when one store gains or loses one object. */
module Joins {
  import opened JsonTrees
  import opened Objects
  import opened Deltas
  import Ids = JoinIds

  type Stores = map<GVK, Keyed>

  /** One slot per base view; `None` stands for a view of which nothing has been seen. */
  type Tuple = seq<Option<Object>>

  type Condition = Object -> Result<bool>

  // ---- The combined object of a tuple ----

  function MemberOf(o: Object): Ids.Member {
    Ids.Member(GvkOf(o).kind, NamespaceOf(o), NameOf(o))
  }

  function Members(t: Tuple): seq<Ids.Member> {
    if t == [] then []
    else
      var pre, last := Members(t[..|t| - 1]), t[|t| - 1];
      if last.None? then pre else pre + [MemberOf(last.value)]
  }

  function InputFields(t: Tuple): Object {
    if t == [] then NewViewObject(TMP_JOIN_VIEW)
    else
      var pre, last := InputFields(t[..|t| - 1]), t[|t| - 1];
      if last.None? then pre else pre[GvkOf(last.value).kind := Obj(last.value)]
  }

  /** What the join condition is evaluated on: each member under its kind, and the tuple id as name. */
  function JoinInput(t: Tuple): Object {
    InputFields(t)["metadata" := Obj(map["name" := Str(Ids.JoinId(Members(t)))])]
  }

  function JoinObject(t: Tuple): Object {
    SetContent(JoinInput(t), JoinInput(t))
  }

  ghost predicate Matches(cond: Condition, t: Tuple) {
    cond(JoinInput(t)) == Ok(true)
  }

  // ---- The join view ----

  /** `t` takes one stored object from every base view. */
  ghost predicate IsTuple(views: seq<GVK>, st: Stores, t: Tuple) {
    && |t| == |views|
    && forall i :: 0 <= i < |t| ==> t[i].Some? && views[i] in st && t[i].value in st[views[i]].Values
  }

  ghost function Tuples(views: seq<GVK>, st: Stores): set<Tuple> {
    if views == [] then {[]}
    else
      var n := |views| - 1;
      if views[n] !in st then {}
      else set t, o | t in Tuples(views[..n], st) && o in st[views[n]].Values :: t + [Some(o)]
  }

  lemma {:induction false} TuplesExact(views: seq<GVK>, st: Stores, t: Tuple)
    ensures t in Tuples(views, st) <==> IsTuple(views, st, t)
  {
    if views != [] {
      var n := |views| - 1;
      if t != [] {
        TuplesExact(views[..n], st, t[..|t| - 1]);
        assert t == t[..|t| - 1] + [t[|t| - 1]];
      }
      if t in Tuples(views, st) {
        var u, o :| u in Tuples(views[..n], st) && o in st[views[n]].Values && t == u + [Some(o)];
        assert u == t[..|t| - 1];
      }
    }
  }

  ghost function JoinRows(views: seq<GVK>, cond: Condition, st: Stores): set<Object> {
    set t | t in Tuples(views, st) && Matches(cond, t) :: JoinObject(t)
  }

  ghost function KeysOf(rows: set<Object>): set<string> {
    set o | o in rows :: KeyOf(o)
  }

  ghost function RowAt(rows: set<Object>, k: string): (o: Object)
    requires k in KeysOf(rows)
    ensures o in rows && KeyOf(o) == k
  {
    var o :| o in rows && KeyOf(o) == k; o
  }

  ghost function ByKey(rows: set<Object>): Keyed {
    map k | k in KeysOf(rows) :: RowAt(rows, k)
  }

  /** The full join of the stores, recomputed from nothing: the combined objects of all tuples that
      satisfy the condition, by key. */
  ghost function JoinView(views: seq<GVK>, cond: Condition, st: Stores): Keyed {
    ByKey(JoinRows(views, cond, st))
  }

  // ---- Well-formedness ----

  const RESERVED: set<string> := {"apiVersion", "kind", "metadata"}

  /** At least two base views with distinct, colon-free kinds that do not shadow an identity field, none
      of them the engine's own temporary view. */
  ghost predicate WfViews(views: seq<GVK>) {
    && |views| >= 2
    && ViewGvk(TMP_JOIN_VIEW) !in views
    && (forall i, j :: 0 <= i < j < |views| ==> views[i].kind != views[j].kind)
    && (forall i :: 0 <= i < |views| ==> views[i].kind !in RESERVED && Ids.ColonFree(views[i].kind))
  }

  /** The inner-join reading: the condition is false when a member is missing. */
  ghost predicate InnerCondition(views: seq<GVK>, cond: Condition) {
    forall c: Object, i :: 0 <= i < |views| && views[i].kind !in c ==> cond(c) == Ok(false)
  }

  function ViewKinds(views: seq<GVK>): set<string> {
    set v | v in views :: v.kind
  }

  /** The part `o` has in tuple ids can be told apart: its namespace has no `:`, and its name does not
      contain `--kind:` for the kind sorted behind its own. */
  ghost predicate IdSafe(views: seq<GVK>, o: Object) {
    Ids.Clear(ViewKinds(views), MemberOf(o))
  }

  ghost predicate MemberOk(views: seq<GVK>, gvk: GVK, o: Object) {
    GvkOf(o) == gvk && IdSafe(views, o)
  }

  ghost predicate StoreOk(views: seq<GVK>, gvk: GVK, store: Keyed) {
    forall k :: k in store ==> KeyOf(store[k]) == k && MemberOk(views, gvk, store[k])
  }

  ghost predicate StoresOk(views: seq<GVK>, st: Stores) {
    forall v :: v in views && v in st ==> StoreOk(views, v, st[v])
  }

  /** A tuple with a member of its view in every slot. */
  ghost predicate Filled(views: seq<GVK>, t: Tuple) {
    |t| == |views| && forall i :: 0 <= i < |t| ==> t[i].Some? && GvkOf(t[i].value) == views[i]
  }

  ghost predicate FullTuple(views: seq<GVK>, t: Tuple) {
    Filled(views, t) && forall i :: 0 <= i < |t| ==> IdSafe(views, t[i].value)
  }

  lemma TupleIsFull(views: seq<GVK>, st: Stores, t: Tuple)
    requires StoresOk(views, st) && IsTuple(views, st, t)
    ensures FullTuple(views, t)
  {
    forall i | 0 <= i < |t| ensures t[i].Some? && MemberOk(views, views[i], t[i].value) {
      var k :| k in st[views[i]] && st[views[i]][k] == t[i].value;
    }
  }

  // ---- Identity of combined objects ----

  lemma {:induction false} MembersOfFull(views: seq<GVK>, t: Tuple)
    requires Filled(views, t)
    ensures |Members(t)| == |t|
    ensures forall i :: 0 <= i < |t| ==> Members(t)[i] == MemberOf(t[i].value)
  {
    if t != [] {
      MembersOfFull(views[..|t| - 1], t[..|t| - 1]);
    }
  }

  /** A tuple whose members, as far as present, are of the views of their slots. */
  ghost predicate Slotted(views: seq<GVK>, t: Tuple) {
    |t| == |views| && forall i :: 0 <= i < |t| && t[i].Some? ==> GvkOf(t[i].value) == views[i]
  }

  /** Kinds that can be told apart from each other and from the identity fields. */
  ghost predicate SeparateKinds(views: seq<GVK>) {
    && (forall i, j :: 0 <= i < j < |views| ==> views[i].kind != views[j].kind)
    && forall i :: 0 <= i < |views| ==> views[i].kind !in RESERVED
  }

  lemma {:induction false} InputFieldsAre(views: seq<GVK>, t: Tuple)
    requires Slotted(views, t) && SeparateKinds(views)
    ensures forall i :: 0 <= i < |t| ==> (views[i].kind in InputFields(t) <==> t[i].Some?)
    ensures forall i :: 0 <= i < |t| && t[i].Some? ==> InputFields(t)[views[i].kind] == Obj(t[i].value)
    ensures forall k :: k in InputFields(t) ==>
              k in NewViewObject(TMP_JOIN_VIEW) || exists i :: 0 <= i < |t| && t[i].Some? && k == views[i].kind
    ensures forall k :: k in NewViewObject(TMP_JOIN_VIEW) ==>
              k in InputFields(t) && InputFields(t)[k] == NewViewObject(TMP_JOIN_VIEW)[k]
  {
    assert forall k :: k in NewViewObject(TMP_JOIN_VIEW) ==> k in RESERVED;
    hide NewViewObject, GvkOf;
    if t != [] {
      InputFieldsAre(views[..|t| - 1], t[..|t| - 1]);
    }
  }

  /** What the join condition is evaluated on, empty slots included: each present member, whole, under the
      kind of its view; the identity of the temporary view; the tuple id as the only metadata; nothing else. */
  lemma JoinInputIs(views: seq<GVK>, t: Tuple)
    requires Slotted(views, t) && SeparateKinds(views)
    ensures forall i :: 0 <= i < |t| ==> (views[i].kind in JoinInput(t) <==> t[i].Some?)
    ensures forall i :: 0 <= i < |t| && t[i].Some? ==> JoinInput(t)[views[i].kind] == Obj(t[i].value)
    ensures forall k :: k in JoinInput(t) ==>
              k in RESERVED || exists i :: 0 <= i < |t| && t[i].Some? && k == views[i].kind
    ensures GvkOf(JoinInput(t)) == ViewGvk(TMP_JOIN_VIEW)
    ensures "metadata" in JoinInput(t) && JoinInput(t)["metadata"] == Obj(map["name" := Str(Ids.JoinId(Members(t)))])
  {
    var f, meta := InputFields(t), Obj(map["name" := Str(Ids.JoinId(Members(t)))]);
    assert JoinInput(t) == f["metadata" := meta];
    hide Ids.JoinId, Members, InputFields, NewViewObject, JoinInput, GvkOf;
    InputFieldsAre(views, t);
    NamedViewObject(f, meta);
    assert forall i :: 0 <= i < |t| ==> views[i].kind != "metadata" by { assert "metadata" in RESERVED; }
  }

  lemma NamedViewObject(f: Object, meta: Json)
    requires forall k :: k in NewViewObject(TMP_JOIN_VIEW) ==> k in f && f[k] == NewViewObject(TMP_JOIN_VIEW)[k]
    ensures GvkOf(f["metadata" := meta]) == ViewGvk(TMP_JOIN_VIEW) && "metadata" in RESERVED
    ensures forall k :: k in NewViewObject(TMP_JOIN_VIEW) ==> k in RESERVED
  {
    var v := NewViewObject(TMP_JOIN_VIEW);
    assert "apiVersion" in v && "kind" in v;
  }

  /** The members the id is made from are those present, each once. */
  lemma {:induction false} MembersArePresent(views: seq<GVK>, t: Tuple)
    requires Slotted(views, t) && SeparateKinds(views)
    ensures Ids.DistinctKinds(Members(t))
    ensures forall m :: m in Members(t) <==> exists i :: 0 <= i < |t| && t[i].Some? && m == MemberOf(t[i].value)
  {
    if t != [] {
      var n := |t| - 1;
      MembersArePresent(views[..n], t[..n]);
      hide NamespaceOf, NameOf, GvkOf;
      var pre, ms := Members(t[..n]), Members(t);
      if t[n].Some? {
        forall i | 0 <= i < |pre| ensures pre[i].kind != views[n].kind { assert pre[i] in pre; }
        assert ms == pre + [MemberOf(t[n].value)];
      } else {
        assert ms == pre;
      }
      forall m ensures m in ms <==> exists i :: 0 <= i < |t| && t[i].Some? && m == MemberOf(t[i].value) {
        if i :| 0 <= i < n && t[..n][i].Some? && m == MemberOf(t[..n][i].value) { assert t[i] == t[..n][i]; }
      }
    }
  }

  lemma {:induction false} InputFieldsOfFull(views: seq<GVK>, t: Tuple)
    requires Filled(views, t) && SeparateKinds(views)
    ensures forall i :: 0 <= i < |t| ==>
              views[i].kind in InputFields(t) && InputFields(t)[views[i].kind] == Obj(t[i].value)
    ensures forall k :: k in RESERVED ==>
              (k in InputFields(t) <==> k in NewViewObject(TMP_JOIN_VIEW))
              && (k in InputFields(t) ==> InputFields(t)[k] == NewViewObject(TMP_JOIN_VIEW)[k])
  {
    InputFieldsAre(views, t);
  }

  /** Naming a combined object leaves its kind and its other fields alone. */
  lemma NamedInputIdentity(f: Object, id: string)
    ensures var input := f["metadata" := Obj(map["name" := Str(id)])];
            var r := SetContent(input, input);
            && GvkOf(r) == GvkOf(f) && NamespaceOf(r) == "" && NameOf(r) == id
            && (forall k :: k !in RESERVED && k in f ==> k in r && r[k] == f[k])
  {
    var input := f["metadata" := Obj(map["name" := Str(id)])];
    assert NamespaceOf(input) == "" && NameOf(input) == id;
    SetContentKeepsIdentity(input, input);
  }

  /** A combined object lives in the temporary view, carries the tuple id as its key, and holds each
      member under the member's kind. */
  lemma JoinObjectIdentity(views: seq<GVK>, t: Tuple)
    requires WfViews(views) && FullTuple(views, t)
    ensures GvkOf(JoinObject(t)) == ViewGvk(TMP_JOIN_VIEW)
    ensures NamespaceOf(JoinObject(t)) == ""
    ensures NameOf(JoinObject(t)) == Ids.JoinId(Members(t))
    ensures forall i :: 0 <= i < |t| ==>
              views[i].kind in JoinObject(t) && JoinObject(t)[views[i].kind] == Obj(t[i].value)
  {
    var f, id := InputFields(t), Ids.JoinId(Members(t));
    InputFieldsOfFull(views, t);
    assert "apiVersion" in RESERVED && "kind" in RESERVED;
    assert GvkOf(f) == ViewGvk(TMP_JOIN_VIEW);
    NamedInputIdentity(f, id);
  }

  lemma MembersAreSafe(views: seq<GVK>, t: Tuple)
    requires WfViews(views) && FullTuple(views, t)
    ensures Ids.ColonFreeKinds(Members(t)) && Ids.DistinctKinds(Members(t)) && Ids.AllClear(Members(t))
    ensures |Members(t)| == |views| && forall i :: 0 <= i < |views| ==> Members(t)[i].kind == views[i].kind
  {
    MembersOfFull(views, t);
    var ms := Members(t);
    hide Ids.Clear, Members;
    assert Ids.Kinds(ms) == ViewKinds(views) by {
      forall i | 0 <= i < |views| ensures views[i].kind in Ids.Kinds(ms) { assert ms[i] in ms; }
    }
  }

  /** Tuples with equal keys agree on the key of every member. */
  lemma KeyDeterminesMembers(views: seq<GVK>, t: Tuple, u: Tuple)
    requires WfViews(views) && FullTuple(views, t) && FullTuple(views, u)
    requires KeyOf(JoinObject(t)) == KeyOf(JoinObject(u))
    ensures forall i :: 0 <= i < |views| ==> KeyOf(t[i].value) == KeyOf(u[i].value)
  {
    hide JoinObject, Ids.JoinId, WfViews;
    assert Ids.JoinId(Members(t)) == Ids.JoinId(Members(u)) by {
      JoinObjectIdentity(views, t);
      JoinObjectIdentity(views, u);
    }
    assert Members(t) == Members(u) by {
      MembersAreSafe(views, t);
      MembersAreSafe(views, u);
      Ids.JoinIdDecodes(Members(t), Members(u));
    }
    MembersOfFull(views, t);
    MembersOfFull(views, u);
    forall i | 0 <= i < |views| ensures KeyOf(t[i].value) == KeyOf(u[i].value) {
      assert MemberOf(t[i].value) == MemberOf(u[i].value);
    }
  }

  lemma KeyDeterminesTuple(views: seq<GVK>, st: Stores, t: Tuple, u: Tuple)
    requires WfViews(views) && StoresOk(views, st)
    requires IsTuple(views, st, t) && IsTuple(views, st, u)
    requires KeyOf(JoinObject(t)) == KeyOf(JoinObject(u))
    ensures t == u
  {
    TupleIsFull(views, st, t);
    TupleIsFull(views, st, u);
    KeyDeterminesMembers(views, t, u);
    forall i | 0 <= i < |views| ensures t[i] == u[i] {
      var store := st[views[i]];
      assert StoreOk(views, views[i], store);
      var a :| a in store && store[a] == t[i].value;
      var b :| b in store && store[b] == u[i].value;
    }
  }

  /** The join view holds exactly the matching tuples, each under its own key. */
  lemma JoinViewExact(views: seq<GVK>, cond: Condition, st: Stores)
    requires WfViews(views) && StoresOk(views, st)
    ensures forall t :: IsTuple(views, st, t) && Matches(cond, t) ==>
              Lookup(JoinView(views, cond, st), KeyOf(JoinObject(t))) == Some(JoinObject(t))
    ensures forall k :: k in JoinView(views, cond, st) ==>
              exists t :: IsTuple(views, st, t) && Matches(cond, t) && KeyOf(JoinObject(t)) == k
  {
    var rows, v := JoinRows(views, cond, st), JoinView(views, cond, st);
    hide KeyOf, JoinObject, StoresOk, WfViews;
    forall t | IsTuple(views, st, t) && Matches(cond, t)
      ensures Lookup(v, KeyOf(JoinObject(t))) == Some(JoinObject(t))
    {
      TuplesExact(views, st, t);
      var k := KeyOf(JoinObject(t));
      assert JoinObject(t) in rows;
      var o := v[k];
      assert o in rows && KeyOf(o) == k;
      var u :| u in Tuples(views, st) && Matches(cond, u) && o == JoinObject(u);
      TuplesExact(views, st, u);
      KeyDeterminesTuple(views, st, t, u);
    }
    forall k | k in v
      ensures exists t :: IsTuple(views, st, t) && Matches(cond, t) && KeyOf(JoinObject(t)) == k
    {
      hide Lookup;
      var o :| o in rows && KeyOf(o) == k;
      var t :| t in Tuples(views, st) && Matches(cond, t) && o == JoinObject(t);
      TuplesExact(views, st, t);
    }
  }

  // ---- Tuples through one object ----

  /** The slot `recurseProd` fills at a view: the object itself at its own view, any stored object at
      another, nothing at a view not seen yet. */
  ghost predicate ThroughSlot(view: GVK, st: Stores, o: Object, slot: Option<Object>) {
    if GvkOf(o) == view then slot == Some(o)
    else if view in st then slot.Some? && slot.value in st[view].Values
    else slot == None
  }

  ghost predicate IsThrough(views: seq<GVK>, st: Stores, o: Object, t: Tuple) {
    |t| == |views| && forall i :: 0 <= i < |t| ==> ThroughSlot(views[i], st, o, t[i])
  }

  function SelectRows(cond: Condition, ts: seq<Tuple>): seq<Object> {
    if ts == [] then []
    else
      var pre, last := SelectRows(cond, ts[..|ts| - 1]), ts[|ts| - 1];
      if cond(JoinInput(last)) == Ok(true) then pre + [JoinObject(last)] else pre
  }

  ghost predicate NoDuplicates<T>(xs: seq<T>) {
    forall i, j :: 0 <= i < j < |xs| ==> xs[i] != xs[j]
  }

  /** `ts` lists every tuple through `o` exactly once, in some order. */
  ghost predicate EnumeratesThrough(views: seq<GVK>, st: Stores, o: Object, ts: seq<Tuple>) {
    NoDuplicates(ts) && forall t :: t in ts <==> IsThrough(views, st, o, t)
  }

  /** `rows` are the matching combined objects through `o`, each once, in some order. */
  ghost predicate RowsThrough(views: seq<GVK>, cond: Condition, st: Stores, o: Object, rows: seq<Object>) {
    exists ts :: EnumeratesThrough(views, st, o, ts) && rows == SelectRows(cond, ts)
  }

  lemma {:induction false} SelectRowsElements(cond: Condition, ts: seq<Tuple>)
    ensures forall t :: t in ts && Matches(cond, t) ==> JoinObject(t) in SelectRows(cond, ts)
    ensures forall r :: r in SelectRows(cond, ts) ==> exists t :: t in ts && Matches(cond, t) && r == JoinObject(t)
  {
    if ts != [] {
      var pre, last := ts[..|ts| - 1], ts[|ts| - 1];
      assert ts == pre + [last];
      SelectRowsElements(cond, pre);
      forall r | r in SelectRows(cond, ts) ensures exists t :: t in ts && Matches(cond, t) && r == JoinObject(t) {
        if r in SelectRows(cond, pre) {
          var t :| t in pre && Matches(cond, t) && r == JoinObject(t);
          assert t in ts;
        } else {
          assert last in ts;
        }
      }
    }
  }

  ghost predicate DistinctObjects(rows: seq<Object>) {
    forall i, j :: 0 <= i < j < |rows| ==> KeyOf(rows[i]) != KeyOf(rows[j])
  }

  lemma {:induction false} SelectRowsDistinct(cond: Condition, ts: seq<Tuple>)
    requires NoDuplicates(ts)
    requires forall t, u :: t in ts && u in ts && Matches(cond, t) && Matches(cond, u) && t != u ==>
               KeyOf(JoinObject(t)) != KeyOf(JoinObject(u))
    ensures DistinctObjects(SelectRows(cond, ts))
  {
    hide JoinInput, JoinObject, KeyOf;
    if ts != [] {
      var pre, last := ts[..|ts| - 1], ts[|ts| - 1];
      assert ts == pre + [last];
      SelectRowsDistinct(cond, pre);
      SelectRowsElements(cond, pre);
      forall r | r in SelectRows(cond, pre) && Matches(cond, last) ensures KeyOf(r) != KeyOf(JoinObject(last)) {
        var t :| t in pre && Matches(cond, t) && r == JoinObject(t);
        assert t in ts && last in ts && t != last;
      }
    }
  }

  /** The fields of a tuple's input are the reserved ones and the kinds of its members. */
  lemma {:induction false} InputFieldsKeys(t: Tuple, k: string)
    requires k in InputFields(t)
    ensures k in RESERVED || exists i :: 0 <= i < |t| && t[i].Some? && GvkOf(t[i].value).kind == k
  {
    if t != [] {
      var pre, last := t[..|t| - 1], t[|t| - 1];
      if k in InputFields(pre) {
        InputFieldsKeys(pre, k);
        if k !in RESERVED {
          var i :| 0 <= i < |pre| && pre[i].Some? && GvkOf(pre[i].value).kind == k;
          assert t[i] == pre[i];
        }
      }
    }
  }

  ghost predicate AllPresent(t: Tuple) {
    forall i :: 0 <= i < |t| ==> t[i].Some?
  }

  /** The inner-join reading, as far as it concerns one object: no tuple through it matches while a view
      has not been seen. */
  ghost predicate Complete(views: seq<GVK>, cond: Condition, st: Stores, o: Object) {
    forall t :: IsThrough(views, st, o, t) && Matches(cond, t) ==> AllPresent(t)
  }

  lemma MatchingThroughIsFull(views: seq<GVK>, cond: Condition, st: Stores, o: Object, t: Tuple)
    requires Complete(views, cond, st, o) && StoresOk(views, st)
    requires GvkOf(o) in views ==> IdSafe(views, o)
    requires IsThrough(views, st, o, t) && Matches(cond, t)
    ensures FullTuple(views, t)
  {
    forall i | 0 <= i < |t| ensures t[i].Some? && MemberOk(views, views[i], t[i].value) {
      if GvkOf(o) != views[i] {
        assert StoreOk(views, views[i], st[views[i]]);
        var k :| k in st[views[i]] && st[views[i]][k] == t[i].value;
      }
    }
  }

  /** A condition that is false on objects without one of the kinds is complete in every state. */
  lemma InnerIsComplete(views: seq<GVK>, cond: Condition, st: Stores, o: Object)
    requires WfViews(views) && InnerCondition(views, cond) && StoresOk(views, st)
    ensures Complete(views, cond, st, o)
  {
    forall t: Tuple | IsThrough(views, st, o, t) && Matches(cond, t) ensures AllPresent(t) {
      forall i | 0 <= i < |t| ensures t[i].Some? {
        var kind := views[i].kind;
        assert kind in JoinInput(t);
        InputFieldsKeys(t, kind);
        var j :| 0 <= j < |t| && t[j].Some? && GvkOf(t[j].value).kind == kind;
        ThroughKind(views, st, o, t, j);
        assert j == i;
      }
    }
  }

  lemma ThroughKind(views: seq<GVK>, st: Stores, o: Object, t: Tuple, i: nat)
    requires StoresOk(views, st) && IsThrough(views, st, o, t) && i < |t| && t[i].Some?
    ensures GvkOf(t[i].value) == views[i]
  {
    if GvkOf(o) != views[i] {
      assert StoreOk(views, views[i], st[views[i]]);
      var k :| k in st[views[i]] && st[views[i]][k] == t[i].value;
    }
  }

  /** Every tuple the product visits has its members in the slots of their views. */
  lemma ThroughIsSlotted(views: seq<GVK>, st: Stores, o: Object, t: Tuple)
    requires StoresOk(views, st) && IsThrough(views, st, o, t)
    ensures Slotted(views, t)
  {
    forall i | 0 <= i < |t| && t[i].Some? ensures GvkOf(t[i].value) == views[i] {
      ThroughKind(views, st, o, t, i);
    }
  }

  /** Once every view has been seen, every condition is complete. */
  lemma SeenIsComplete(views: seq<GVK>, cond: Condition, st: Stores, o: Object)
    requires forall v :: v in views ==> v in st || v == GvkOf(o)
    ensures Complete(views, cond, st, o)
  {
    hide GvkOf;
    forall t: Tuple | IsThrough(views, st, o, t) ensures AllPresent(t) {
      forall i | 0 <= i < |t| ensures t[i].Some? { assert ThroughSlot(views[i], st, o, t[i]); }
    }
  }
}
