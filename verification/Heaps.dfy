/** JSON objects as nodes on a heap, and the deep copy that rebuilds an object from new nodes. */
module Heaps {
  import opened JsonTrees

  datatype Ref = Ref(n: nat)

  datatype Node =
    | Leaf(value: Json)
    | ListNode(refs: seq<Ref>)
    | MapNode(fields: map<string, Ref>)

  datatype Heap = Heap(nodes: map<Ref, Node>, next: nat)

  function Children(n: Node): set<Ref> {
    match n
    case Leaf(_) => {}
    case ListNode(rs) => set r | r in rs
    case MapNode(m) => m.Values
  }

  ghost predicate WfHeap(h: Heap) {
    forall r :: r in h.nodes ==> r.n < h.next && Children(h.nodes[r]) <= h.nodes.Keys
  }

  /** The tree rooted at `r` spells the value `j`. */
  ghost predicate Denotes(h: Heap, r: Ref, j: Json)
    decreases j
  {
    r in h.nodes &&
    match j
    case List(items) =>
      var n := h.nodes[r];
      n.ListNode? && |n.refs| == |items| && forall i :: 0 <= i < |items| ==> Denotes(h, n.refs[i], items[i])
    case Obj(fields) =>
      var n := h.nodes[r];
      n.MapNode? && n.fields.Keys == fields.Keys && forall k :: k in fields ==> Denotes(h, n.fields[k], fields[k])
    case _ => h.nodes[r] == Leaf(j)
  }

  /** The object is a finite tree. */
  ghost predicate Tree(h: Heap, r: Ref) {
    exists j :: Denotes(h, r, j)
  }

  // ---- Deep copy ----

  /** Old nodes are untouched, and new nodes refer to new nodes only. */
  ghost predicate Grown(h: Heap, h': Heap) {
    && WfHeap(h') && h.next <= h'.next && h.nodes.Keys <= h'.nodes.Keys
    && (forall r :: r in h.nodes ==> h'.nodes[r] == h.nodes[r])
    && (forall r :: r in h'.nodes && r !in h.nodes ==> Children(h'.nodes[r]) !! h.nodes.Keys)
  }

  ghost predicate IsCopy(h: Heap, j: Json, h': Heap, c: Ref) {
    Grown(h, h') && c in h'.nodes && c !in h.nodes && Denotes(h', c, j)
  }

  lemma GrownTransitive(h: Heap, h1: Heap, h2: Heap)
    requires Grown(h, h1) && Grown(h1, h2)
    ensures Grown(h, h2)
  {
  }

  function Allocate(h: Heap, n: Node): (Heap, Ref) {
    (Heap(h.nodes[Ref(h.next) := n], h.next + 1), Ref(h.next))
  }

  /** Allocating a node over nodes that are new since `h`. */
  lemma AllocateGrows(h: Heap, h1: Heap, n: Node)
    requires WfHeap(h) && Grown(h, h1) && Children(n) <= h1.nodes.Keys && Children(n) !! h.nodes.Keys
    ensures var (h2, c) := Allocate(h1, n);
            && Grown(h, h2) && c !in h.nodes && h2.nodes[c] == n
            && forall r, j :: Denotes(h1, r, j) ==> Denotes(h2, r, j)
  {
    var (h2, c) := Allocate(h1, n);
    assert c !in h1.nodes;
    forall r, j | Denotes(h1, r, j) ensures Denotes(h2, r, j) { DenotesExtended(h1, h2, r, j); }
  }

  lemma {:induction false} DenotesExtended(h: Heap, h': Heap, r: Ref, j: Json)
    requires h.nodes.Keys <= h'.nodes.Keys && forall x :: x in h.nodes ==> h'.nodes[x] == h.nodes[x]
    requires Denotes(h, r, j)
    ensures Denotes(h', r, j)
    decreases j
  {
    match j
    case List(items) =>
      forall i | 0 <= i < |items| ensures Denotes(h', h.nodes[r].refs[i], items[i]) {
        DenotesExtended(h, h', h.nodes[r].refs[i], items[i]);
      }
    case Obj(fields) =>
      forall k | k in fields ensures Denotes(h', h.nodes[r].fields[k], fields[k]) {
        DenotesExtended(h, h', h.nodes[r].fields[k], fields[k]);
      }
    case _ =>
  }

  method DeepCopy(h: Heap, r: Ref, ghost j: Json) returns (h': Heap, c: Ref)
    requires WfHeap(h) && Denotes(h, r, j)
    ensures IsCopy(h, j, h', c)
    decreases j, 1
  {
    match h.nodes[r] {
      case Leaf(v) =>
        AllocateGrows(h, h, Leaf(v));
        var a := Allocate(h, Leaf(v));
        h', c := a.0, a.1;
      case ListNode(rs) =>
        h', c := CopyList(h, rs, j);
      case MapNode(m) =>
        h', c := CopyMap(h, m, j);
    }
  }

  method CopyList(h: Heap, rs: seq<Ref>, ghost j: Json) returns (h': Heap, c: Ref)
    requires WfHeap(h) && j.List? && |rs| == |j.items|
    requires forall i :: 0 <= i < |rs| ==> Denotes(h, rs[i], j.items[i])
    ensures IsCopy(h, j, h', c)
    decreases j, 0
  {
    h' := h;
    var newList: seq<Ref> := [];
    for i := 0 to |rs|
      invariant Grown(h, h') && |newList| == i
      invariant forall k :: 0 <= k < i ==> newList[k] !in h.nodes && Denotes(h', newList[k], j.items[k])
    {
      DenotesExtended(h, h', rs[i], j.items[i]);
      var h1, x := DeepCopy(h', rs[i], j.items[i]);
      forall k | 0 <= k < i ensures Denotes(h1, newList[k], j.items[k]) {
        DenotesExtended(h', h1, newList[k], j.items[k]);
      }
      GrownTransitive(h, h', h1);
      h', newList := h1, newList + [x];
    }
    AllocateGrows(h, h', ListNode(newList));
    var a := Allocate(h', ListNode(newList));
    h', c := a.0, a.1;
  }

  lemma FinishMap(h: Heap, h1: Heap, m: map<string, Ref>, j: Json)
    requires WfHeap(h) && Grown(h, h1) && j.Obj? && m.Keys == j.fields.Keys
    requires forall k :: k in m ==> m[k] !in h.nodes && Denotes(h1, m[k], j.fields[k])
    ensures IsCopy(h, j, Allocate(h1, MapNode(m)).0, Allocate(h1, MapNode(m)).1)
  {
    AllocateGrows(h, h1, MapNode(m));
  }

  method CopyMap(h: Heap, m: map<string, Ref>, ghost j: Json) returns (h': Heap, c: Ref)
    requires WfHeap(h) && j.Obj? && m.Keys == j.fields.Keys
    requires forall k :: k in m ==> Denotes(h, m[k], j.fields[k])
    ensures IsCopy(h, j, h', c)
    decreases j, 0
  {
    hide Denotes, WfHeap;
    h' := h;
    var newMap: map<string, Ref> := map[];
    var todo := m.Keys;
    while todo != {}
      invariant Grown(h, h') && todo <= m.Keys && newMap.Keys == m.Keys - todo
      invariant forall k :: k in newMap ==> newMap[k] !in h.nodes && Denotes(h', newMap[k], j.fields[k])
    {
      var k :| k in todo;
      DenotesExtended(h, h', m[k], j.fields[k]);
      var h1, x := DeepCopy(h', m[k], j.fields[k]);
      forall q | q in newMap ensures Denotes(h1, newMap[q], j.fields[q]) {
        DenotesExtended(h', h1, newMap[q], j.fields[q]);
      }
      GrownTransitive(h, h', h1);
      h', newMap, todo := h1, newMap[k := x], todo - {k};
    }
    FinishMap(h, h', newMap, j);
    var a := Allocate(h', MapNode(newMap));
    h', c := a.0, a.1;
  }
}
