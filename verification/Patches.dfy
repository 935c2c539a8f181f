/** The local merge patch and its delete form: `patch`, `deepCopy` and `removeNested` on JSON trees. */
module Patches {
  import opened JsonTrees

  type Fields = map<string, Json>

  // ---- The patch as a function ----

  function Patch(o: Json, m: Json): Json
    decreases m, 1
  {
    if o == m || o.Null? then m
    else
      match m
      case List(lm) => if o.List? then List(PatchItems(o.items, lm)) else m
      case Obj(mm) => if o.Obj? then Obj(PatchFields(o.fields, mm)) else m
      case _ => m
  }

  /** Lists merge by index; the longer list decides the length. */
  function PatchItems(lo: seq<Json>, lm: seq<Json>): (r: seq<Json>)
    ensures |r| == if |lo| < |lm| then |lm| else |lo|
    decreases lm, 0
  {
    seq(if |lo| < |lm| then |lm| else |lo|,
        i requires 0 <= i < (if |lo| < |lm| then |lm| else |lo|) =>
          if i >= |lm| then lo[i] else if i >= |lo| then lm[i] else Patch(lo[i], lm[i]))
  }

  /** Null members delete, other members are patched in, the rest of the target stays. */
  function PatchFields(mo: Fields, mm: Fields): Fields
    decreases Obj(mm), 0
  {
    map k | k in mo.Keys + mm.Keys && !(k in mm && mm[k].Null?) ::
      if k !in mm then mo[k] else if k !in mo then mm[k] else Patch(mo[k], mm[k])
  }

  // ---- The program's loops ----

  method DeepCopy(v: Json) returns (r: Json)
    ensures r == v
    decreases v
  {
    match v
    case List(items) =>
      var newList: seq<Json> := [];
      for i := 0 to |items|
        invariant newList == items[..i]
      {
        var x := DeepCopy(items[i]);
        newList := newList + [x];
      }
      return List(newList);
    case Obj(fields) =>
      var newMap: Fields := map[];
      var todo := fields.Keys;
      while todo != {}
        invariant todo <= fields.Keys
        invariant newMap.Keys == fields.Keys - todo
        invariant forall k :: k in newMap ==> newMap[k] == fields[k]
      {
        var k :| k in todo;
        var x := DeepCopy(fields[k]);
        newMap := newMap[k := x];
        todo := todo - {k};
      }
      assert newMap == fields;
      return Obj(newMap);
    case _ => return v;
  }

  method PatchTree(o: Json, m: Json) returns (r: Json)
    ensures r == Patch(o, m)
    decreases m, 1
  {
    if o == m {
      r := DeepCopy(m);
      return;
    }
    if o.Null? {
      r := DeepCopy(m);
      return;
    }
    match m
    case List(lm) =>
      if !o.List? {
        r := DeepCopy(m);
        return;
      }
      var retl := PatchListTree(o.items, lm);
      return List(retl);
    case Obj(mm) =>
      if !o.Obj? {
        r := DeepCopy(m);
        return;
      }
      var retm := PatchFieldsTree(o.fields, mm);
      return Obj(retm);
    case Null => return Null;
    case _ => return m;
  }

  method PatchListTree(lo: seq<Json>, lm: seq<Json>) returns (retl: seq<Json>)
    ensures retl == PatchItems(lo, lm)
    ensures forall i :: |lm| <= i < |lo| ==> retl[i] == lo[i]
    ensures forall i :: |lo| <= i < |lm| ==> retl[i] == lm[i]
    decreases lm, 0
  {
    retl := lo;
    for i := 0 to |lm|
      invariant |retl| == if |lo| < i then i else |lo|
      invariant forall j :: 0 <= j < |retl| ==>
                  retl[j] == if j >= i then lo[j] else if j >= |lo| then lm[j] else Patch(lo[j], lm[j])
    {
      if i >= |lo| {
        var x := DeepCopy(lm[i]);
        retl := retl + [x];
      } else if lo[i] == lm[i] {
        var x := DeepCopy(lm[i]);
        retl := retl[i := x];
      } else {
        var x := PatchTree(lo[i], lm[i]);
        retl := retl[i := x];
      }
    }
  }

  method PatchFieldsTree(mo: Fields, mm: Fields) returns (retm: Fields)
    ensures retm == PatchFields(mo, mm)
    decreases Obj(mm), 0
  {
    retm := mo;
    var todo := mm.Keys;
    while todo != {}
      invariant todo <= mm.Keys
      invariant forall k :: k in retm <==>
                  (k in mo && (k !in mm || k in todo)) || (k in mm && k !in todo && !mm[k].Null?)
      invariant forall k :: k in retm ==>
                  retm[k] == if k !in mm || k in todo then mo[k] else if k !in mo then mm[k] else Patch(mo[k], mm[k])
    {
      var k :| k in todo;
      var v := mm[k];
      if v.Null? {
        retm := retm - {k};
      } else if k !in mo {
        var x := DeepCopy(v);
        retm := retm[k := x];
      } else if mo[k] == v {
        var x := DeepCopy(v);
        retm := retm[k := x];
      } else {
        var x := PatchTree(mo[k], v);
        retm := retm[k := x];
      }
      todo := todo - {k};
    }
  }

  // ---- Idempotence ----

  lemma PatchSelf(m: Json)
    ensures Patch(m, m) == m && Patch(Null, m) == m
  {
  }

  /** Patching twice is patching once, on all trees. */
  lemma {:induction false} PatchIdempotent(o: Json, m: Json)
    ensures Patch(Patch(o, m), m) == Patch(o, m)
    decreases m
  {
    var r := Patch(o, m);
    if r != m && m.List? {
      var lo, lm := o.items, m.items;
      assert r == List(PatchItems(lo, lm));
      forall i | 0 <= i < |r.items| ensures PatchItems(r.items, lm)[i] == r.items[i] {
        if i < |lm| && i < |lo| { PatchIdempotent(lo[i], lm[i]); }
      }
      assert PatchItems(r.items, lm) == r.items;
    } else if r != m && m.Obj? {
      var mo, mm := o.fields, m.fields;
      assert r == Obj(PatchFields(mo, mm));
      forall k | k in mm && !mm[k].Null? ensures Patch(r.fields[k], mm[k]) == r.fields[k] {
        if k in mo { PatchIdempotent(mo[k], mm[k]); }
      }
      assert PatchFields(r.fields, mm) == r.fields;
    }
  }

  // ---- Section 2 of RFC 7396 ----

  function FieldsOf(t: Json): Fields {
    if t.Obj? then t.fields else map[]
  }

  function At(f: Fields, k: string): Json {
    if k in f then f[k] else Null
  }

  /** MergePatch; an undefined target is represented by `Null`, which it treats alike. */
  function MergePatch(t: Json, p: Json): Json
    decreases p
  {
    if !p.Obj? then p
    else
      var tf := FieldsOf(t);
      Obj(map k | k in tf.Keys + p.fields.Keys && !(k in p.fields && p.fields[k].Null?) ::
            if k !in p.fields then tf[k] else MergePatch(At(tf, k), p.fields[k]))
  }

  /** No null member on any path of objects; lists are not looked into. */
  predicate NullFreeObjects(m: Json) {
    m.Obj? ==> forall k :: k in m.fields ==> !m.fields[k].Null? && NullFreeObjects(m.fields[k])
  }

  /** The inputs on which a patch replaces its target outright. */
  predicate Absorbs(o: Json, m: Json)
    decreases m
  {
    || o == m || o.Null?
    || match m
       case List(lm) =>
         o.List? ==> |o.items| <= |lm| && forall i :: 0 <= i < |o.items| ==> Absorbs(o.items[i], lm[i])
       case Obj(mm) =>
         o.Obj? ==>
           && o.fields.Keys <= mm.Keys
           && (forall k :: k in mm ==> !mm[k].Null?)
           && forall k :: k in o.fields ==> Absorbs(o.fields[k], mm[k])
       case _ => true
  }

  lemma {:induction false} AbsorbsIff(o: Json, m: Json)
    ensures Patch(o, m) == m <==> Absorbs(o, m)
    decreases m
  {
    if o == m || o.Null? {
    } else if m.List? && o.List? {
      AbsorbsListIff(o.items, m.items);
    } else if m.Obj? && o.Obj? {
      AbsorbsFieldsIff(o.fields, m.fields);
    }
  }

  lemma {:induction false} AbsorbsListIff(lo: seq<Json>, lm: seq<Json>)
    ensures PatchItems(lo, lm) == lm <==> |lo| <= |lm| && forall i :: 0 <= i < |lo| ==> Absorbs(lo[i], lm[i])
    decreases lm, 0
  {
    var r := PatchItems(lo, lm);
    if |lo| <= |lm| {
      forall i | 0 <= i < |lo| ensures r[i] == lm[i] <==> Absorbs(lo[i], lm[i]) {
        AbsorbsIff(lo[i], lm[i]);
      }
    }
  }

  lemma {:induction false} AbsorbsFieldsIff(mo: Fields, mm: Fields)
    ensures PatchFields(mo, mm) == mm <==>
              && mo.Keys <= mm.Keys && (forall k :: k in mm ==> !mm[k].Null?)
              && forall k :: k in mo ==> Absorbs(mo[k], mm[k])
    decreases Obj(mm), 0
  {
    var r := PatchFields(mo, mm);
    forall k | k in mo && k in mm && !mm[k].Null? ensures r[k] == mm[k] <==> Absorbs(mo[k], mm[k]) {
      AbsorbsIff(mo[k], mm[k]);
    }
    if r == mm {
      forall k | k in mm ensures !mm[k].Null? { assert k in r; }
      forall k | k in mo ensures k in mm { assert k !in mm ==> k in r; }
    }
  }

  lemma {:induction false} MergeIntoNothing(t: Json, p: Json)
    requires !t.Obj? || t == p
    ensures MergePatch(t, p) == p <==> NullFreeObjects(p)
    decreases p
  {
    if p.Obj? {
      var tf, pf := FieldsOf(t), p.fields;
      var r := MergePatch(t, p).fields;
      forall k | k in pf && !pf[k].Null? ensures r[k] == pf[k] <==> NullFreeObjects(pf[k]) {
        MergeIntoNothing(At(tf, k), pf[k]);
      }
      if r == pf {
        forall k | k in pf ensures !pf[k].Null? { assert k in r; }
      }
    }
  }

  /** Where the program's patch and the RFC agree: lists must be absorbed, and null members may occur only
      where both trees have an object and the early equality exit is not taken. */
  predicate Agrees(o: Json, m: Json)
    decreases m
  {
    match m
    case Obj(mm) =>
      if o == m || !o.Obj? then NullFreeObjects(m)
      else forall k :: k in mm && !mm[k].Null? ==>
             if k in o.fields then Agrees(o.fields[k], mm[k]) else NullFreeObjects(mm[k])
    case List(_) => Absorbs(o, m)
    case _ => true
  }

  /** The exact fragment: `patch` computes MergePatch if and only if `Agrees`. */
  lemma {:induction false} PatchIsMergePatchIff(o: Json, m: Json)
    ensures Patch(o, m) == MergePatch(o, m) <==> Agrees(o, m)
    decreases m
  {
    if m.List? {
      AbsorbsIff(o, m);
    } else if m.Obj? {
      if o == m || !o.Obj? {
        MergeIntoNothing(o, m);
      } else {
        FieldsAgreeIff(o.fields, m.fields);
      }
    }
  }

  lemma {:induction false} FieldsAgreeIff(mo: Fields, mm: Fields)
    ensures Obj(PatchFields(mo, mm)) == MergePatch(Obj(mo), Obj(mm)) <==>
              forall k :: k in mm && !mm[k].Null? ==> if k in mo then Agrees(mo[k], mm[k]) else NullFreeObjects(mm[k])
    decreases Obj(mm), 0
  {
    var r, s := PatchFields(mo, mm), MergePatch(Obj(mo), Obj(mm)).fields;
    assert r.Keys == s.Keys;
    forall k | k in mm && !mm[k].Null?
      ensures r[k] == s[k] <==> if k in mo then Agrees(mo[k], mm[k]) else NullFreeObjects(mm[k])
    {
      if k in mo {
        PatchIsMergePatchIff(mo[k], mm[k]);
      } else {
        MergeIntoNothing(Null, mm[k]);
      }
    }
  }

  predicate NullFree(o: Json) {
    match o
    case Null => false
    case List(items) => forall i :: 0 <= i < |items| ==> NullFree(items[i])
    case Obj(fields) => forall k :: k in fields ==> NullFree(fields[k])
    case _ => true
  }

  predicate ArrayFree(m: Json) {
    match m
    case List(_) => false
    case Obj(fields) => forall k :: k in fields ==> ArrayFree(fields[k])
    case _ => true
  }

  /** Null members of `m` occur only inside objects that `o` also has as objects. */
  predicate NullsCovered(o: Json, m: Json)
    decreases m
  {
    if !o.Obj? then NullFreeObjects(m)
    else m.Obj? ==> forall k :: k in m.fields ==> NullsCovered(At(o.fields, k), m.fields[k])
  }

  lemma {:induction false} NullFreeIsNullFreeObjects(m: Json)
    requires NullFree(m)
    ensures NullFreeObjects(m)
  {
    if m.Obj? {
      forall k | k in m.fields ensures NullFreeObjects(m.fields[k]) { NullFreeIsNullFreeObjects(m.fields[k]); }
    }
  }

  lemma {:induction false} CoveredAgrees(o: Json, m: Json)
    requires NullFree(o) && ArrayFree(m) && NullsCovered(o, m)
    ensures Agrees(o, m)
    decreases m
  {
    if m.Obj? {
      if o == m {
        NullFreeIsNullFreeObjects(m);
      } else if o.Obj? {
        forall k | k in m.fields && !m.fields[k].Null?
          ensures if k in o.fields then Agrees(o.fields[k], m.fields[k]) else NullFreeObjects(m.fields[k])
        {
          if k in o.fields { CoveredAgrees(o.fields[k], m.fields[k]); }
        }
      }
    }
  }

  /** A readable fragment: on null-free targets an array-free patch whose nulls are covered by objects of
      the target is applied as the RFC asks. */
  lemma CoveredPatchIsMergePatch(o: Json, m: Json)
    requires NullFree(o) && ArrayFree(m) && NullsCovered(o, m)
    ensures Patch(o, m) == MergePatch(o, m)
  {
    CoveredAgrees(o, m);
    PatchIsMergePatchIff(o, m);
  }

  /** Outside the fragment the two differ: lists merge by index instead of being replaced, and a null
      under an absent key is stored instead of being dropped. */
  lemma PatchDiffersFromMergePatch()
    ensures Patch(List([Int(1), Int(2)]), List([Int(3)])) != MergePatch(List([Int(1), Int(2)]), List([Int(3)]))
    ensures Patch(Obj(map[]), Obj(map["a" := Obj(map["b" := Null])])) !=
              MergePatch(Obj(map[]), Obj(map["a" := Obj(map["b" := Null])]))
  {
    var o, m := List([Int(1), Int(2)]), List([Int(3)]);
    assert |PatchItems(o.items, m.items)| == 2;
    var inner := Obj(map["b" := Null]);
    var p := Obj(map["a" := inner]);
    PatchIsMergePatchIff(Obj(map[]), p);
    assert "b" in inner.fields && inner.fields["b"].Null?;
    assert "a" in p.fields && p.fields["a"] == inner;
    assert !NullFreeObjects(inner);
  }
}
