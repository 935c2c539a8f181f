/** The `@aggregate` step: select and project stages, and the effect of one event on an aggregation. */
module Aggregations {
  import opened JsonTrees
  import opened Objects
  import opened Deltas
  import opened Joins
  import opened JoinMaintenance

  /** Stage expressions are uninterpreted; `Malformed` is a stage without an argument or with an
      unknown operator. */
  datatype Stage =
    | Select(condition: Object -> Result<bool>)
    | Project(expression: Object -> Result<Object>)
    | Malformed

  function AsSeq<T>(x: Option<T>): seq<T> {
    if x.Some? then [x.value] else []
  }

  function Listed<T>(r: Result<Option<T>>): Result<seq<T>> {
    match r
    case Ok(x) => Ok(AsSeq(x))
    case Err(e) => Err(e)
  }

  // ---- Reference meaning: a stage list maps an object to at most one object ----

  function StageImage(s: Stage, u: Object): Result<Option<Object>> {
    match s
    case Select(condition) =>
      (match condition(u)
       case Ok(b) => Ok(if b then Some(u) else None)
       case Err(e) => Err(e))
    case Project(expression) =>
      (match expression(u)
       case Ok(v) => Ok(Some(v))
       case Err(e) => Err(e))
    case Malformed => Err(UnknownStage)
  }

  function StagesImage(stages: seq<Stage>, u: Object): Result<Option<Object>> {
    if stages == [] then Ok(Some(u))
    else
      match StagesImage(stages[..|stages| - 1], u)
      case Err(e) => Err(e)
      case Ok(None) => Ok(None)
      case Ok(Some(w)) => StageImage(stages[|stages| - 1], w)
  }

  function Image(view: string, stages: seq<Stage>, o: Object): Result<Option<Object>> {
    match StagesImage(stages, o)
    case Err(e) => Err(e)
    case Ok(None) => Ok(None)
    case Ok(Some(w)) =>
      match Normalize(view, w)
      case Err(e) => Err(e)
      case Ok(v) => Ok(Some(v))
  }

  // ---- The loops ----

  method EvalStage(s: Stage, u: Object) returns (r: Result<seq<Object>>)
    ensures r == Listed(StageImage(s, u))
    ensures s.Select? && s.condition(u).Ok? ==> r == Ok(if s.condition(u).value then [u] else [])
    ensures s.Project? && s.expression(u).Ok? ==> r == Ok([s.expression(u).value])
    ensures s.Malformed? ==> r.Err?
  {
    match s
    case Select(condition) =>
      match condition(u) {
        case Err(e) => return Err(e);
        case Ok(b) =>
          var vs: seq<Object> := [];
          if b { vs := [u]; }
          return Ok(vs);
      }
    case Project(expression) =>
      match expression(u) {
        case Err(e) => return Err(e);
        case Ok(v) => return Ok([v]);
      }
    case Malformed => return Err(UnknownStage);
  }

  /** Every stage list yields at most one object per input, although the loops carry lists. */
  method EvalAggregation(view: string, stages: seq<Stage>, obj: Object) returns (r: Result<seq<Object>>)
    ensures r == Listed(Image(view, stages, obj))
  {
    var args := [obj];
    for i := 0 to |stages|
      invariant Ok(args) == Listed(StagesImage(stages[..i], obj))
    {
      assert stages[..i + 1][..i] == stages[..i];
      var sres: seq<Object> := [];
      for j := 0 to |args|
        invariant |args| <= 1
        invariant j == 0 ==> sres == []
        invariant j == 1 ==> Ok(sres) == Listed(StageImage(stages[i], args[0]))
      {
        var ret := EvalStage(stages[i], args[j]);
        match ret {
          case Err(e) =>
            StagesStopAtError(stages, i + 1, obj);
            return Err(e);
          case Ok(vs) =>
            assert [] + vs == vs;
            sres := sres + vs;
        }
      }
      args := sres;
    }
    assert stages[..|stages|] == stages;
    var ret: seq<Object> := [];
    for j := 0 to |args|
      invariant |args| <= 1
      invariant j == 0 ==> ret == []
      invariant j == 1 ==> Normalize(view, args[0]).Ok? && ret == [Normalize(view, args[0]).value]
    {
      match Normalize(view, args[j]) {
        case Err(e) => return Err(e);
        case Ok(o) => ret := ret + [o];
      }
    }
    return Ok(ret);
  }

  lemma {:induction false} StagesStopAtError(stages: seq<Stage>, n: nat, u: Object)
    requires n <= |stages| && StagesImage(stages[..n], u).Err?
    ensures StagesImage(stages, u) == StagesImage(stages[..n], u)
  {
    if n < |stages| {
      assert stages[..|stages| - 1][..n] == stages[..n];
      StagesStopAtError(stages[..|stages| - 1], n, u);
    } else {
      assert stages[..n] == stages;
    }
  }

  // ---- What stages mean ----

  /** Stages work front to back: the later ones see what the earlier ones yield. */
  lemma {:induction false} StagesCompose(ss: seq<Stage>, ts: seq<Stage>, u: Object)
    ensures StagesImage(ss + ts, u) ==
              match StagesImage(ss, u)
              case Err(e) => Err(e)
              case Ok(None) => Ok(None)
              case Ok(Some(w)) => StagesImage(ts, w)
  {
    if ts == [] {
      assert ss + ts == ss;
    } else {
      StagesCompose(ss, ts[..|ts| - 1], u);
      assert (ss + ts)[..|ss + ts| - 1] == ss + ts[..|ts| - 1];
    }
  }

  lemma SingleStage(s: Stage, u: Object)
    ensures StagesImage([s], u) == StageImage(s, u)
  {
    assert [s][..0] == [];
    assert StagesImage([], u) == Ok(Some(u));
  }

  /** A projection in front replaces the object the other stages see; a malformed stage fails. */
  lemma FirstStage(s: Stage, ts: seq<Stage>, u: Object)
    ensures s.Project? && s.expression(u).Ok? ==> StagesImage([s] + ts, u) == StagesImage(ts, s.expression(u).value)
    ensures s.Project? && s.expression(u).Err? ==> StagesImage([s] + ts, u) == Err(s.expression(u).error)
    ensures s.Malformed? ==> StagesImage([s] + ts, u) == Err(UnknownStage)
  {
    StagesCompose([s], ts, u);
    SingleStage(s, u);
  }

  /** An object that comes through the stages has an image in the view if it names itself properly, and fails the
      evaluation otherwise; one that is dropped fails nothing. */
  lemma ImageOutcome(view: string, stages: seq<Stage>, o: Object, w: Object)
    ensures StagesImage(stages, o) == Ok(None) ==> Image(view, stages, o) == Ok(None)
    ensures StagesImage(stages, o) == Ok(Some(w)) ==>
              (Image(view, stages, o).Ok? <==>
                && "metadata" in w && w["metadata"].Obj? && NameOf(w) != ""
                && ("namespace" in Metadata(w) ==> Metadata(w)["namespace"].Str?))
    ensures StagesImage(stages, o) == Ok(Some(w)) && Image(view, stages, o).Ok? ==>
              && Image(view, stages, o).value.Some? && GvkOf(Image(view, stages, o).value.value) == ViewGvk(view)
              && KeyOf(Image(view, stages, o).value.value) == KeyOf(w)
              && SameBut(Image(view, stages, o).value.value, w, IDENTITY)
    ensures StagesImage(stages, o).Err? ==> Image(view, stages, o).Err?
  {
    NormalizeYieldsNamedViewObject(view, w);
    hide Normalize;
  }

  /** The condition of a selection holds on `u`. */
  predicate Holds(s: Stage, u: Object) {
    s.Select? && s.condition(u) == Ok(true)
  }

  /** The leading selections that hold pass the object on as it is. */
  lemma {:induction false} PassedOn(stages: seq<Stage>, n: nat, u: Object)
    requires n <= |stages| && forall i :: 0 <= i < n ==> Holds(stages[i], u)
    ensures StagesImage(stages, u) == StagesImage(stages[n..], u)
  {
    if n > 0 {
      PassedOn(stages[1..], n - 1, u);
      assert stages == [stages[0]] + stages[1..] && stages[1..][n - 1..] == stages[n..];
      StagesCompose([stages[0]], stages[1..], u);
      SingleStage(stages[0], u);
    }
  }

  /** Selections that all hold keep the object as it is. */
  lemma SelectionsPass(stages: seq<Stage>, u: Object)
    requires forall i :: 0 <= i < |stages| ==> Holds(stages[i], u)
    ensures StagesImage(stages, u) == Ok(Some(u))
  {
    PassedOn(stages, |stages|, u);
    assert stages[|stages|..] == [];
  }

  /** Otherwise the first selection that does not hold decides: the object is dropped, or the error of the
      condition is returned. What comes behind it does not matter. */
  lemma SelectionsStop(stages: seq<Stage>, n: nat, u: Object)
    requires n < |stages| && stages[n].Select? && stages[n].condition(u) != Ok(true)
    requires forall i :: 0 <= i < n ==> Holds(stages[i], u)
    ensures StagesImage(stages, u) ==
              match stages[n].condition(u)
              case Ok(_) => Ok(None)
              case Err(e) => Err(e)
  {
    PassedOn(stages, n, u);
    assert stages[n..] == [stages[n]] + stages[n + 1..];
    StagesCompose([stages[n]], stages[n + 1..], u);
    SingleStage(stages[n], u);
  }

  /** When every condition evaluates, selections keep exactly the objects on which all conditions hold. */
  lemma SelectionsKeep(stages: seq<Stage>, u: Object)
    requires forall i :: 0 <= i < |stages| ==> stages[i].Select? && stages[i].condition(u).Ok?
    ensures StagesImage(stages, u) ==
              Ok(if forall i :: 0 <= i < |stages| ==> stages[i].condition(u).value then Some(u) else None)
  {
    if n :| 0 <= n < |stages| && !stages[n].condition(u).value {
      var m := FirstFalse(stages, u, n);
      SelectionsStop(stages, m, u);
    } else {
      SelectionsPass(stages, u);
    }
  }

  lemma {:induction false} FirstFalse(stages: seq<Stage>, u: Object, n: nat) returns (m: nat)
    requires n < |stages| && forall i :: 0 <= i < |stages| ==> stages[i].Select?
    requires stages[n].condition(u) != Ok(true)
    ensures m <= n && stages[m].condition(u) != Ok(true)
    ensures forall i :: 0 <= i < m ==> Holds(stages[i], u)
  {
    if i :| 0 <= i < n && stages[i].condition(u) != Ok(true) {
      m := FirstFalse(stages, u, i);
    } else {
      m := n;
    }
  }

  // ---- One event ----

  predicate SameName(o: Object, p: Object) {
    NamespaceOf(o) == NamespaceOf(p) && NameOf(o) == NameOf(p)
  }

  /** The deltas that replace image `before` by image `after`. */
  function ImageDeltas(before: Option<Object>, after: Option<Object>): seq<Delta> {
    match (before, after)
    case (None, None) => []
    case (None, Some(a)) => [Delta(Added, a)]
    case (Some(b), None) => [Delta(Deleted, b)]
    case (Some(b), Some(a)) =>
      if SameName(b, a) then [Delta(Updated, a)] else [Delta(Deleted, b), Delta(Added, a)]
  }

  /** Duplicates are not events. */
  predicate ValidEvent(st: Stores, d: Delta)
    requires GvkOf(d.obj) in st
  {
    var store := st[GvkOf(d.obj)];
    d.typ != Deleted && d.typ != Sync && DeltaKey(d) in store ==> store[DeltaKey(d)] != d.obj
  }

  /** An upsert is an update of a known object and an add of an unknown one. */
  function Resolve(st: Stores, d: Delta): DeltaType
    requires GvkOf(d.obj) in st
  {
    if d.typ != Upserted then d.typ
    else if DeltaKey(d) in st[GvkOf(d.obj)] then Updated
    else Added
  }

  datatype Aggregate = Aggregate(view: string, stages: seq<Stage>)

  function AddStep(a: Aggregate, st: Stores, o: Object): (r: (Stores, Result<Option<Object>>))
    requires GvkOf(o) in st
  {
    var image := Image(a.view, a.stages, o);
    (if image.Ok? then Put(st, o) else st, image)
  }

  function DeleteStep(a: Aggregate, st: Stores, o: Object): (r: (Stores, Result<Option<Object>>))
    requires GvkOf(o) in st
    ensures GvkOf(o) in r.0
  {
    var g, k := GvkOf(o), KeyOf(o);
    if k !in st[g] then (st, Ok(None))
    else
      var image := Image(a.view, a.stages, st[g][k]);
      (if image.Ok? then Remove(st, g, k) else st, image)
  }

  /** The step of `evaluateAggregation`: the stores afterwards, and the deltas or the error. An update
      whose add half fails has already lost the old object. */
  function TypedStep(a: Aggregate, st: Stores, t: DeltaType, o: Object): (Stores, Result<seq<Delta>>)
    requires GvkOf(o) in st
  {
    match t
    case Added =>
      (match AddStep(a, st, o)
       case (st', Ok(p)) => (st', Ok(ImageDeltas(None, p)))
       case (st', Err(e)) => (st', Err(e)))
    case Deleted =>
      (match DeleteStep(a, st, o)
       case (st', Ok(p)) => (st', Ok(ImageDeltas(p, None)))
       case (st', Err(e)) => (st', Err(e)))
    case Updated => ReplaceStep(a, st, o)
    case Replaced => ReplaceStep(a, st, o)
    case _ => (st, Ok([]))
  }

  function ReplaceStep(a: Aggregate, st: Stores, o: Object): (Stores, Result<seq<Delta>>)
    requires GvkOf(o) in st
  {
    match DeleteStep(a, st, o)
    case (st1, Err(e)) => (st1, Err(e))
    case (st1, Ok(p)) =>
      match AddStep(a, st1, o)
      case (st2, Err(e)) => (st2, Err(e))
      case (st2, Ok(q)) => (st2, Ok(ImageDeltas(p, q)))
  }

  function AggregateStep(a: Aggregate, st: Stores, d: Delta): (Stores, Result<seq<Delta>>) {
    var st0 := InitStore(st, GvkOf(d.obj));
    if !ValidEvent(st0, d) then (st0, Ok([]))
    else TypedStep(a, st0, Resolve(st0, d), d.obj)
  }

  /** Deltas fed one after the other; the first error stops the feed. */
  function AggregateAll(a: Aggregate, st: Stores, ds: seq<Delta>): (Stores, Result<seq<Delta>>) {
    if ds == [] then (st, Ok([]))
    else
      match AggregateAll(a, st, ds[..|ds| - 1])
      case (st1, Err(e)) => (st1, Err(e))
      case (st1, Ok(out)) =>
        match AggregateStep(a, st1, ds[|ds| - 1])
        case (st2, Err(e)) => (st2, Err(e))
        case (st2, Ok(out')) => (st2, Ok(out + out'))
  }
}
