/** The merge patch read along paths of member names and list indices: what a patch does not name stays, what
    it names is there, and what the target lacks is the patch's own. */
module PatchReads {
  import opened JsonTrees
  import opened Patches

  datatype PathStep = Key(k: string) | Index(i: nat)

  function Read(j: Json, path: seq<PathStep>): Option<Json>
    decreases |path|
  {
    if path == [] then Some(j)
    else
      match path[0]
      case Key(k) => if j.Obj? && k in j.fields then Read(j.fields[k], path[1..]) else None
      case Index(i) => if j.List? && i < |j.items| then Read(j.items[i], path[1..]) else None
  }

  /** `path` leaves the tree `m` at a member it does not have, or behind the end of one of its lists. */
  predicate Unnamed(m: Json, path: seq<PathStep>)
    decreases |path|
  {
    path != [] &&
    match path[0]
    case Key(k) => m.Obj? && (k in m.fields ==> Unnamed(m.fields[k], path[1..]))
    case Index(i) => m.List? && (i < |m.items| ==> Unnamed(m.items[i], path[1..]))
  }

  predicate ScalarJson(j: Json) {
    !j.Obj? && !j.List?
  }

  /** A null found as a member of an object, where it asks for a deletion. */
  predicate Deletion(x: Json, path: seq<PathStep>) {
    x.Null? && path != [] && path[|path| - 1].Key?
  }

  lemma {:induction false} UnnamedIsAbsent(m: Json, path: seq<PathStep>)
    requires Unnamed(m, path)
    ensures Read(m, path) == None
    decreases |path|
  {
    match path[0]
    case Key(k) => if k in m.fields { UnnamedIsAbsent(m.fields[k], path[1..]); }
    case Index(i) => if i < |m.items| { UnnamedIsAbsent(m.items[i], path[1..]); }
  }

  /** Every path the patch does not name, indices behind the end of its lists included, reads as before. */
  lemma {:induction false} UnnamedStays(o: Json, m: Json, path: seq<PathStep>)
    requires Unnamed(m, path)
    ensures Read(Patch(o, m), path) == Read(o, path)
    decreases |path|
  {
    UnnamedIsAbsent(m, path);
    var rest := path[1..];
    match path[0]
    case Key(k) =>
      if o != m && o.Obj? && k in m.fields {
        if k in o.fields { UnnamedStays(o.fields[k], m.fields[k], rest); } else { UnnamedIsAbsent(m.fields[k], rest); }
      }
    case Index(i) =>
      if o != m && o.List? && i < |m.items| {
        if i < |o.items| { UnnamedStays(o.items[i], m.items[i], rest); } else { UnnamedIsAbsent(m.items[i], rest); }
      }
  }

  /** Every scalar leaf of the patch, below members and list items alike, is in the result; a null counts where
      it is a list item. */
  lemma {:induction false} LeavesAreThere(o: Json, m: Json, path: seq<PathStep>, x: Json)
    requires Read(m, path) == Some(x) && ScalarJson(x) && !Deletion(x, path)
    ensures Read(Patch(o, m), path) == Some(x)
    decreases |path|
  {
    if path != [] && o != m {
      var rest := path[1..];
      LastOfRest(path);
      match path[0]
      case Key(k) =>
        if o.Obj? && k in o.fields { LeavesAreThere(o.fields[k], m.fields[k], rest, x); }
      case Index(i) =>
        if o.List? && i < |o.items| { LeavesAreThere(o.items[i], m.items[i], rest, x); }
    }
  }

  lemma LastOfRest(path: seq<PathStep>)
    requires path != []
    ensures |path| > 1 ==> path[1..] != [] && path[1..][|path| - 2] == path[|path| - 1]
  {
  }

  /** Where the target has nothing, the result has what the patch has, whole: items behind the end of the
      target's lists and members it lacks are the patch's own, nested nulls included. */
  lemma {:induction false} MissingIsOwn(o: Json, m: Json, path: seq<PathStep>, x: Json)
    requires Read(o, path) == None && Read(m, path) == Some(x) && !Deletion(x, path)
    ensures Read(Patch(o, m), path) == Some(x)
    decreases |path|
  {
    if o != m {
      var rest := path[1..];
      LastOfRest(path);
      match path[0]
      case Key(k) =>
        if o.Obj? && k in o.fields { MissingIsOwn(o.fields[k], m.fields[k], rest, x); }
      case Index(i) =>
        if o.List? && i < |o.items| { MissingIsOwn(o.items[i], m.items[i], rest, x); }
    }
  }

  /** A null member deletes if and only if the target has an object there that differs from the patch's own;
      otherwise the null itself is in the result. */
  lemma {:induction false} NullMembers(o: Json, m: Json, path: seq<PathStep>)
    requires path != [] && Read(m, path) == Some(Null) && path[|path| - 1].Key?
    ensures var parent := path[..|path| - 1];
            var x := Read(o, parent);
            Read(Patch(o, m), path) ==
            if x.Some? && x.value.Obj? && x != Read(m, parent) then None else Some(Null)
    decreases |path|
  {
    var parent, rest := path[..|path| - 1], path[1..];
    if |path| == 1 {
      assert rest == [] && parent == [];
    } else {
      assert parent[0] == path[0] && parent[1..] == rest[..|rest| - 1];
      LastOfRest(path);
      match path[0]
      case Key(k) =>
        if o.Obj? && k in o.fields { NullMembers(o.fields[k], m.fields[k], rest); }
      case Index(i) =>
        if o.List? && i < |o.items| { NullMembers(o.items[i], m.items[i], rest); }
    }
  }
}
