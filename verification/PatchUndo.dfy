/** The delete form of a patch: `removeNested`, and what is left after a patch has been applied and then
    removed. */
module PatchUndo {
  import opened JsonTrees
  import opened Patches

  /** Scalars become null members, objects are hollowed out, lists are kept as they are. */
  function RemoveNested(m: Fields): Fields
    decreases Obj(m)
  {
    map k | k in m :: match m[k] case Obj(f) => Obj(RemoveNested(f)) case List(l) => List(l) case _ => Null
  }

  method RemoveNestedTree(m: Fields) returns (result: Fields)
    ensures result == RemoveNested(m)
    decreases Obj(m)
  {
    result := map[];
    var todo := m.Keys;
    while todo != {}
      invariant todo <= m.Keys && result.Keys == m.Keys - todo
      invariant forall k :: k in result ==> result[k] == RemoveNested(m)[k]
    {
      var k :| k in todo;
      match m[k] {
        case Obj(f) =>
          var nested := RemoveNestedTree(f);
          result := result[k := Obj(nested)];
        case List(l) => result := result[k := List(l)];
        case _ => result := result[k := Null];
      }
      todo := todo - {k};
    }
  }

  // ---- What remains ----

  predicate Scalar(j: Json) {
    !j.Obj? && !j.List?
  }

  /** What remains of target `o` after `m` has been patched in and removed again: members `m` does not
      name are untouched, scalars named by `m` are gone, objects are left in place with what remains of
      them, and lists keep the patch. */
  function Residue(o: Json, m: Fields): Fields
    decreases Obj(m)
  {
    var f := FieldsOf(o);
    map k | k in f.Keys + m.Keys && (k in m ==> m[k].Obj? || m[k].List?) ::
      if k !in m then f[k]
      else if m[k].Obj? then Obj(Residue(At(f, k), m[k].fields))
      else Patch(At(f, k), m[k])
  }

  /** Patching an object with an object that has no null members, member by member. */
  lemma PatchMembers(o: Json, m: Fields)
    requires forall k :: k in m ==> !m[k].Null?
    ensures var r := Patch(o, Obj(m));
            && r.Obj? && r.fields.Keys == FieldsOf(o).Keys + m.Keys
            && forall k :: k in r.fields ==>
                 r.fields[k] == if k in m then Patch(At(FieldsOf(o), k), m[k]) else FieldsOf(o)[k]
  {
    var r := Patch(o, Obj(m));
    if o == Obj(m) || !o.Obj? {
      forall k | k in m ensures r.fields[k] == Patch(At(FieldsOf(o), k), m[k]) {
        PatchSelf(m[k]);
      }
    }
  }

  /** The early equality exit is harmless unless a null member meets a null. */
  lemma PatchObjects(r: Fields, d: Fields)
    requires forall k :: k in d && d[k].Null? ==> k !in r || !r[k].Null?
    ensures Patch(Obj(r), Obj(d)) == Obj(PatchFields(r, d))
  {
    if r == d {
      forall k | k in d ensures Patch(r[k], d[k]) == d[k] { PatchSelf(d[k]); }
      assert PatchFields(r, d) == d;
    }
  }

  /** Member `k` of a target with members `f`, after the patch `m`. */
  function After(f: Fields, m: Fields, k: string): Json {
    if k in m then Patch(At(f, k), m[k]) else At(f, k)
  }

  /** One member of the target, the patch, and the delete patch: what the two patches leave of it. */
  ghost predicate MemberUndone(f: Fields, m: Fields, e: Fields, y: Fields, k: string) {
    && (k in y <==> (k in f || k in e) && !(k in e && e[k].Null?))
    && (k in y ==> y[k] == if k in e then Patch(After(f, m, k), e[k]) else f[k])
  }

  /** All members, for a delete patch that has the members of `m`, maybe others, and nulls only for scalars
      of `m`. */
  ghost predicate AllUndone(f: Fields, m: Fields, e: Fields, y: Fields) {
    && (forall k :: k in m ==> !m[k].Null?) && m.Keys <= e.Keys
    && (forall k :: k in e && e[k].Null? ==> k in m && Scalar(m[k]))
    && forall k :: MemberUndone(f, m, e, y, k)
  }

  /** The outcome of two object patches in a row is decided member by member. */
  lemma TwoPatches(o: Json, m: Fields, e: Fields, y: Fields)
    requires AllUndone(FieldsOf(o), m, e, y)
    ensures Patch(Patch(o, Obj(m)), Obj(e)) == Obj(y)
  {
    var f := FieldsOf(o);
    PatchMembers(o, m);
    var r := Patch(o, Obj(m)).fields;
    forall k | k in e && e[k].Null? ensures k in r ==> !r[k].Null? {
      assert r[k] == Patch(At(f, k), m[k]);
    }
    PatchObjects(r, e);
    forall k | k in e && k !in r ensures Patch(After(f, m, k), e[k]) == e[k] { PatchSelf(e[k]); }
    hide Patch;
    var x := PatchFields(r, e);
    forall k ensures (k in x <==> k in y) && (k in x ==> x[k] == y[k]) {
      assert MemberUndone(f, m, e, y, k);
    }
    assert x == y;
  }

  /** Delete-patch undoes add-patch: the exact outcome, for every target and every delta object without
      null members. */
  lemma {:induction false} RemoveUndoesPatch(o: Json, m: Fields)
    requires NullFreeObjects(Obj(m))
    ensures Patch(Patch(o, Obj(m)), Obj(RemoveNested(m))) == Obj(Residue(o, m))
    decreases Obj(m), 1
  {
    MembersUndone(o, m);
    TwoPatches(o, m, RemoveNested(m), Residue(o, m));
  }

  lemma {:induction false} MembersUndone(o: Json, m: Fields)
    requires NullFreeObjects(Obj(m))
    ensures AllUndone(FieldsOf(o), m, RemoveNested(m), Residue(o, m))
    decreases Obj(m), 0, 1
  {
    RemovedMembers(o, m);
    assert forall k :: k in m ==> !m[k].Null?;
    hide Patch, PatchFields, NullFreeObjects, FieldsOf, At;
    var e, y := RemoveNested(m), Residue(o, m);
    assert e.Keys == m.Keys && (forall k :: k in m ==> (e[k].Null? <==> Scalar(m[k])));
    forall k ensures MemberUndone(FieldsOf(o), m, e, y, k) {
      hide RemoveNested;
    }
  }

  /** Member by member: the delete patch turns the patched member into the residual one. */
  lemma {:induction false} RemovedMembers(o: Json, m: Fields)
    requires NullFreeObjects(Obj(m))
    ensures forall k :: k in m && (m[k].Obj? || m[k].List?) ==>
              Patch(Patch(At(FieldsOf(o), k), m[k]), RemoveNested(m)[k]) == Residue(o, m)[k]
    decreases Obj(m), 0, 0
  {
    forall k | k in m && (m[k].Obj? || m[k].List?)
      ensures Patch(Patch(At(FieldsOf(o), k), m[k]), RemoveNested(m)[k]) == Residue(o, m)[k]
    {
      if m[k].Obj? {
        RemoveUndoesPatch(At(FieldsOf(o), k), m[k].fields);
      } else {
        PatchIdempotent(At(FieldsOf(o), k), m[k]);
      }
    }
  }

  // ---- Read along paths ----

  function Get(j: Json, path: seq<string>): Option<Json>
    decreases |path|
  {
    if path == [] then Some(j)
    else if j.Obj? && path[0] in j.fields then Get(j.fields[path[0]], path[1..])
    else None
  }

  /** `path` leads to a scalar. */
  predicate HasLeaf(j: Json, path: seq<string>) {
    Get(j, path).Some? && Scalar(Get(j, path).value)
  }

  /** `path` leaves the tree `m` at a member `m` does not have. */
  predicate NotNamed(m: Json, path: seq<string>)
    decreases |path|
  {
    m.Obj? && path != [] && (path[0] in m.fields ==> NotNamed(m.fields[path[0]], path[1..]))
  }

  /** The delete patch, read along paths: it names what the delta object names, with null for every scalar, the
      same list for every list, and a hollow object for every object. */
  lemma {:induction false} RemovedReads(m: Fields, path: seq<string>)
    ensures Get(Obj(RemoveNested(m)), path) ==
              match Get(Obj(m), path)
              case None => None
              case Some(Obj(f)) => Some(Obj(RemoveNested(f)))
              case Some(List(l)) => Some(List(l))
              case Some(_) => Some(Null)
    decreases |path|
  {
    if path != [] && path[0] in m {
      var k := path[0];
      if m[k].Obj? {
        RemovedReads(m[k].fields, path[1..]);
      }
    }
  }

  /** No scalar leaf of the delta object survives its removal. */
  lemma {:induction false} LeavesAreGone(o: Json, m: Fields, path: seq<string>)
    requires path != [] && HasLeaf(Obj(m), path)
    ensures Get(Obj(Residue(o, m)), path) == None
    decreases |path|
  {
    var k := path[0];
    assert k in m && Get(Obj(m), path) == Get(m[k], path[1..]);
    if |path| == 1 {
      assert path[1..] == [];
    } else {
      LeavesAreGone(At(FieldsOf(o), k), m[k].fields, path[1..]);
    }
  }

  /** Everything the delta object does not name is as it was in the original. */
  lemma {:induction false} UnnamedIsKept(o: Json, m: Fields, path: seq<string>)
    requires NotNamed(Obj(m), path)
    ensures Get(Obj(Residue(o, m)), path) == Get(o, path)
    decreases |path|
  {
    var k := path[0];
    if k in m {
      var f := FieldsOf(o);
      UnnamedIsKept(At(f, k), m[k].fields, path[1..]);
    }
  }

  // ---- With the identity restored ----

  /** The delete patch of a Patcher target: `removeNested`, with GVK, namespace and name put back. */
  function DeletePatch(m: Fields, apiVersion: string, kind: string, namespace: string, name: string): Fields {
    var d := RemoveNested(m)["apiVersion" := Str(apiVersion)]["kind" := Str(kind)];
    if "metadata" in d && !d["metadata"].Obj? then d
    else d["metadata" := Obj(FieldsOf(At(d, "metadata"))["namespace" := Str(namespace)]["name" := Str(name)])]
  }

  /** What remains of `o` after the patch and its delete patch: the residue, and the identity. */
  function Restored(o: Json, m: Fields, apiVersion: string, kind: string, namespace: string, name: string): Fields {
    var y := Residue(o, m)["apiVersion" := Str(apiVersion)]["kind" := Str(kind)];
    if "metadata" in m && !m["metadata"].Obj? then y
    else
      var meta := Residue(At(FieldsOf(o), "metadata"), FieldsOf(At(m, "metadata")));
      y["metadata" := Obj(meta["namespace" := Str(namespace)]["name" := Str(name)])]
  }

  /** Add-patch followed by the delete patch leaves the residue and the identity, for every target and every
      delta object without null members. */
  lemma DeletePatchUndoesPatch(o: Json, m: Fields, apiVersion: string, kind: string, namespace: string, name: string)
    requires NullFreeObjects(Obj(m))
    ensures Patch(Patch(o, Obj(m)), Obj(DeletePatch(m, apiVersion, kind, namespace, name))) ==
            Obj(Restored(o, m, apiVersion, kind, namespace, name))
  {
    var f, mm := FieldsOf(o), FieldsOf(At(m, "metadata"));
    var hollow := Obj(RemoveNested(mm)["namespace" := Str(namespace)]["name" := Str(name)]);
    var rest := Obj(Residue(At(f, "metadata"), mm)["namespace" := Str(namespace)]["name" := Str(name)]);
    var e0, y0 := RemoveNested(m), Residue(o, m);
    var e1, y1 := e0["apiVersion" := Str(apiVersion)], y0["apiVersion" := Str(apiVersion)];
    var e2, y2 := e1["kind" := Str(kind)], y1["kind" := Str(kind)];
    MembersUndone(o, m);
    ScalarPatch(After(f, m, "apiVersion"), apiVersion);
    ScalarPatch(After(f, m, "kind"), kind);
    DeletePatchShape(m, apiVersion, kind, namespace, name);
    var metadata := !("metadata" in m && !m["metadata"].Obj?);
    if metadata { MetadataUndone(f, m, namespace, name); }
    assert Restored(o, m, apiVersion, kind, namespace, name) == if metadata then y2["metadata" := rest] else y2;
    hide *;
    RestoreOne(f, m, e0, y0, "apiVersion", Str(apiVersion), Str(apiVersion));
    RestoreOne(f, m, e1, y1, "kind", Str(kind), Str(kind));
    if metadata {
      RestoreOne(f, m, e2, y2, "metadata", hollow, rest);
      TwoPatches(o, m, e2["metadata" := hollow], y2["metadata" := rest]);
    } else {
      TwoPatches(o, m, e2, y2);
    }
  }

  lemma DeletePatchShape(m: Fields, apiVersion: string, kind: string, namespace: string, name: string)
    ensures var d := RemoveNested(m)["apiVersion" := Str(apiVersion)]["kind" := Str(kind)];
            DeletePatch(m, apiVersion, kind, namespace, name) ==
            if "metadata" in m && !m["metadata"].Obj? then d
            else
              var hollow := RemoveNested(FieldsOf(At(m, "metadata")));
              d["metadata" := Obj(hollow["namespace" := Str(namespace)]["name" := Str(name)])]
  {
    var d := RemoveNested(m)["apiVersion" := Str(apiVersion)]["kind" := Str(kind)];
    assert "metadata" in d <==> "metadata" in m;
    assert RemoveNested(map[]) == map[];
    if "metadata" in m && m["metadata"].Obj? {
      assert d["metadata"] == Obj(RemoveNested(m["metadata"].fields));
    }
  }

  /** Overriding one member of the delete patch overrides it in the outcome. */
  lemma RestoreOne(f: Fields, m: Fields, e: Fields, y: Fields, a: string, v: Json, w: Json)
    requires AllUndone(f, m, e, y)
    requires !v.Null? && Patch(After(f, m, a), v) == w
    ensures AllUndone(f, m, e[a := v], y[a := w])
  {
    hide Patch, After;
    var e', y' := e[a := v], y[a := w];
    forall k ensures MemberUndone(f, m, e', y', k) {
      assert MemberUndone(f, m, e, y, k);
    }
  }

  lemma ScalarPatch(o: Json, s: string)
    ensures Patch(o, Str(s)) == Str(s)
  {
  }

  /** The metadata, whether or not the delta object has any. */
  lemma MetadataUndone(f: Fields, m: Fields, namespace: string, name: string)
    requires NullFreeObjects(Obj(m)) && ("metadata" in m ==> m["metadata"].Obj?)
    ensures var mm := FieldsOf(At(m, "metadata"));
            Patch(After(f, m, "metadata"), Obj(RemoveNested(mm)["namespace" := Str(namespace)]["name" := Str(name)])) ==
            Obj(Residue(At(f, "metadata"), mm)["namespace" := Str(namespace)]["name" := Str(name)])
  {
    var x, mm := At(f, "metadata"), FieldsOf(At(m, "metadata"));
    if "metadata" in m {
      IdentityUndone(x, mm, namespace, name);
    } else {
      var e: Fields := map["namespace" := Str(namespace), "name" := Str(name)];
      assert RemoveNested(map[])["namespace" := Str(namespace)]["name" := Str(name)] == e;
      PatchMembers(x, e);
      var y := Residue(x, map[])["namespace" := Str(namespace)]["name" := Str(name)];
      assert Patch(x, Obj(e)).fields == y;
    }
  }

  lemma IdentityUndone(x: Json, mm: Fields, namespace: string, name: string)
    requires NullFreeObjects(Obj(mm))
    ensures Patch(Patch(x, Obj(mm)), Obj(RemoveNested(mm)["namespace" := Str(namespace)]["name" := Str(name)])) ==
            Obj(Residue(x, mm)["namespace" := Str(namespace)]["name" := Str(name)])
  {
    var f, e, y := FieldsOf(x), RemoveNested(mm), Residue(x, mm);
    MembersUndone(x, mm);
    ScalarPatch(After(f, mm, "namespace"), namespace);
    ScalarPatch(After(f, mm, "name"), name);
    hide *;
    RestoreOne(f, mm, e, y, "namespace", Str(namespace), Str(namespace));
    var e1, y1 := e["namespace" := Str(namespace)], y["namespace" := Str(namespace)];
    RestoreOne(f, mm, e1, y1, "name", Str(name), Str(name));
    TwoPatches(x, mm, e1["name" := Str(name)], y1["name" := Str(name)]);
  }

  // ---- What is left, read along paths ----

  /** The fields the delete patch puts back, and what lies below or above them. */
  predicate IdentityPath(path: seq<string>) {
    path != [] &&
    (|| path[0] == "apiVersion" || path[0] == "kind"
     || (path[0] == "metadata" && (|path| == 1 || path[1] == "namespace" || path[1] == "name")))
  }

  /** Apart from the identity, reading the outcome is reading the residue. */
  lemma RestoredReads(o: Json, m: Fields, apiVersion: string, kind: string, namespace: string, name: string,
                      path: seq<string>)
    requires path != [] && !IdentityPath(path)
    requires path[0] == "metadata" ==> "metadata" in m && m["metadata"].Obj?
    ensures Get(Obj(Restored(o, m, apiVersion, kind, namespace, name)), path) == Get(Obj(Residue(o, m)), path)
  {
    if path[0] == "metadata" {
      var meta := Residue(At(FieldsOf(o), "metadata"), m["metadata"].fields);
      assert Residue(o, m)["metadata"] == Obj(meta);
      hide Residue;
      assert Get(Obj(meta["namespace" := Str(namespace)]["name" := Str(name)]), path[1..]) == Get(Obj(meta), path[1..]);
    } else {
      hide Residue;
    }
  }

  /** Without metadata in the delta object, the metadata of the original stays. */
  lemma MetadataKept(o: Json, m: Fields, apiVersion: string, kind: string, namespace: string, name: string,
                     path: seq<string>)
    requires path != [] && !IdentityPath(path) && path[0] == "metadata" && "metadata" !in m
    ensures Get(Obj(Restored(o, m, apiVersion, kind, namespace, name)), path) == Get(o, path)
  {
    var x := At(FieldsOf(o), "metadata");
    assert Residue(x, map[]) == FieldsOf(x);
    var y := FieldsOf(x)["namespace" := Str(namespace)]["name" := Str(name)];
    assert Get(Obj(y), path[1..]) == Get(Obj(FieldsOf(x)), path[1..]);
  }

  /** What add-patch and delete patch leave of `o`: no scalar leaf of the delta object but its identity, and
      every path it does not name as it was, but for the identity. */
  lemma RestoredPaths(o: Json, m: Fields, apiVersion: string, kind: string, namespace: string, name: string,
                      path: seq<string>)
    requires path != [] && !IdentityPath(path)
    ensures HasLeaf(Obj(m), path) ==>
              Get(Obj(Restored(o, m, apiVersion, kind, namespace, name)), path) == None
    ensures NotNamed(Obj(m), path) ==>
              Get(Obj(Restored(o, m, apiVersion, kind, namespace, name)), path) == Get(o, path)
  {
    if path[0] == "metadata" && "metadata" !in m {
      MetadataKept(o, m, apiVersion, kind, namespace, name, path);
    } else if path[0] == "metadata" && !m["metadata"].Obj? {
      assert |path| > 1 && !NotNamed(m["metadata"], path[1..]) && !NotNamed(Obj(m), path);
    } else {
      RestoredReads(o, m, apiVersion, kind, namespace, name, path);
      if HasLeaf(Obj(m), path) { LeavesAreGone(o, m, path); }
      if NotNamed(Obj(m), path) { UnnamedIsKept(o, m, path); }
    }
  }
}
