/** Unstructured objects: identity accessors, the setters the engine relies on, view objects and
    `Normalize`. An object is its JSON content; deep copies are equal values. */
module Objects {
  import opened JsonTrees

  type Object = map<string, Json>

  /** Group and version are kept as the `apiVersion` string they are stored under. */
  datatype GVK = GVK(apiVersion: string, kind: string)

  const VIEW_API_VERSION := "view.dcontroller.io/v1alpha1"
  const TMP_JOIN_VIEW := "__tmp_join_view"

  function ViewGvk(view: string): GVK {
    GVK(VIEW_API_VERSION, view)
  }

  // Accessors: a field of the wrong type reads as the empty string.

  function StringField(o: Object, k: string): string {
    if k in o && o[k].Str? then o[k].s else ""
  }

  function Metadata(o: Object): Object {
    if "metadata" in o && o["metadata"].Obj? then o["metadata"].fields else map[]
  }

  function GvkOf(o: Object): GVK {
    GVK(StringField(o, "apiVersion"), StringField(o, "kind"))
  }

  function NameOf(o: Object): string {
    StringField(Metadata(o), "name")
  }

  function NamespaceOf(o: Object): string {
    StringField(Metadata(o), "namespace")
  }

  /** The key every store uses, and the string form of `ObjectKey`. */
  function KeyString(namespace: string, name: string): string {
    if namespace == "" then name else namespace + "/" + name
  }

  function KeyOf(o: Object): string {
    KeyString(NamespaceOf(o), NameOf(o))
  }

  // Setters.

  function SetGvk(o: Object, gvk: GVK): Object {
    o["apiVersion" := Str(gvk.apiVersion)]["kind" := Str(gvk.kind)]
  }

  /** Sets `metadata.field`; an empty value removes it, and metadata that is not a map is left alone. */
  function SetMetaField(o: Object, field: string, value: string): Object {
    if "metadata" in o && !o["metadata"].Obj? then o
    else if value == "" then
      if "metadata" in o then o["metadata" := Obj(o["metadata"].fields - {field})] else o
    else o["metadata" := Obj(Metadata(o)[field := Str(value)])]
  }

  function SetName(o: Object, namespace: string, name: string): Object {
    SetMetaField(SetMetaField(o, "namespace", namespace), "name", name)
  }

  /** Replaces the content of `o` and keeps its GVK, namespace and name. */
  function SetContent(o: Object, content: Object): Object {
    SetName(SetGvk(content, GvkOf(o)), NamespaceOf(o), NameOf(o))
  }

  function NewViewObject(view: string): Object {
    SetGvk(map[], ViewGvk(view))
  }

  /** Recasts a piece of content into an object of the target view. */
  function Normalize(view: string, content: Object): Result<Object> {
    if "metadata" !in content || !content["metadata"].Obj? then Err(InvalidObject)
    else
      var meta := content["metadata"].fields;
      if "name" !in meta || !meta["name"].Str? || meta["name"].s == "" then Err(InvalidObject)
      else if "namespace" in meta && !meta["namespace"].Str? then Err(InvalidObject)
      else
        var ns := if "namespace" in meta then meta["namespace"].s else "";
        Ok(SetContent(SetName(NewViewObject(view), ns, meta["name"].s), content))
  }

  /** Content can be given an identity when its metadata, if any, is a map. */
  predicate HasMetaMap(content: Object) {
    "metadata" in content ==> content["metadata"].Obj?
  }

  const IDENTITY: set<string> := {"apiVersion", "kind", "metadata"}

  /** The two objects have the same members outside `except`, with the same values. */
  ghost predicate SameBut(o: Object, p: Object, except: set<string>) {
    forall k :: k !in except ==> (k in o <==> k in p) && (k in o && k in p ==> o[k] == p[k])
  }

  lemma SetGvkReads(o: Object, gvk: GVK)
    ensures GvkOf(SetGvk(o, gvk)) == gvk && SameBut(SetGvk(o, gvk), o, {"apiVersion", "kind"})
    ensures NamespaceOf(SetGvk(o, gvk)) == NamespaceOf(o) && NameOf(SetGvk(o, gvk)) == NameOf(o)
    ensures KeyOf(SetGvk(o, gvk)) == KeyOf(o) && Metadata(SetGvk(o, gvk)) == Metadata(o)
  {
  }

  /** Setting a metadata field changes that field and nothing else. */
  lemma SetMetaFieldReads(o: Object, field: string, value: string)
    requires HasMetaMap(o)
    ensures var r := SetMetaField(o, field, value);
            && HasMetaMap(r) && GvkOf(r) == GvkOf(o) && SameBut(r, o, {"metadata"})
            && SameBut(Metadata(r), Metadata(o), {field})
            && (field in Metadata(r) <==> value != "") && StringField(Metadata(r), field) == value
  {
  }

  /** What `SetContent` promises: the identity of `o`, and the content everywhere else, the rest of the
      metadata included. Metadata that is not a map is kept as it is. */
  lemma SetContentKeepsIdentity(o: Object, content: Object)
    ensures var r := SetContent(o, content);
            && GvkOf(r) == GvkOf(o) && SameBut(r, content, IDENTITY)
            && (if HasMetaMap(content) then
                  && NamespaceOf(r) == NamespaceOf(o) && NameOf(r) == NameOf(o)
                  && SameBut(Metadata(r), Metadata(content), {"namespace", "name"})
                else "metadata" in r && r["metadata"] == content["metadata"])
  {
    var c1 := SetGvk(content, GvkOf(o));
    SetGvkReads(content, GvkOf(o));
    if HasMetaMap(content) {
      var c2 := SetMetaField(c1, "namespace", NamespaceOf(o));
      SetMetaFieldReads(c1, "namespace", NamespaceOf(o));
      SetMetaFieldReads(c2, "name", NameOf(o));
      hide SetMetaField, SetGvk;
      NamespaceSurvives(c2, SetMetaField(c2, "name", NameOf(o)));
    }
  }

  lemma NamespaceSurvives(o: Object, r: Object)
    requires SameBut(Metadata(r), Metadata(o), {"name"})
    ensures NamespaceOf(r) == NamespaceOf(o)
  {
    assert "namespace" !in {"name"};
  }

  /** `Normalize` always yields an object of the view, named as the content asks, never anonymous, and with
      everything else the content has, the rest of the metadata included. */
  lemma NormalizeYieldsNamedViewObject(view: string, content: Object)
    ensures Normalize(view, content).Ok? <==>
              && "metadata" in content && content["metadata"].Obj?
              && NameOf(content) != ""
              && ("namespace" in Metadata(content) ==> Metadata(content)["namespace"].Str?)
    ensures Normalize(view, content).Ok? ==>
              var r := Normalize(view, content).value;
              && GvkOf(r) == ViewGvk(view)
              && NameOf(r) == NameOf(content) && NamespaceOf(r) == NamespaceOf(content)
              && SameBut(r, content, IDENTITY) && SameBut(Metadata(r), Metadata(content), {"namespace", "name"})
  {
    if Normalize(view, content).Ok? {
      var meta := content["metadata"].fields;
      var ns := if "namespace" in meta then meta["namespace"].s else "";
      ViewObjectNamed(view, ns, meta["name"].s);
      SetContentKeepsIdentity(SetName(NewViewObject(view), ns, meta["name"].s), content);
    }
  }

  lemma ViewObjectNamed(view: string, namespace: string, name: string)
    ensures var r := SetName(NewViewObject(view), namespace, name);
            GvkOf(r) == ViewGvk(view) && NamespaceOf(r) == namespace && NameOf(r) == name
  {
    var o := NewViewObject(view);
    SetGvkReads(map[], ViewGvk(view));
    var c := SetMetaField(o, "namespace", namespace);
    SetMetaFieldReads(o, "namespace", namespace);
    SetMetaFieldReads(c, "name", name);
    hide SetMetaField;
    NamespaceSurvives(c, SetMetaField(c, "name", name));
  }
}
