/** The expression tree: parsing and printing over abstract JSON texts, and the evaluation of dictionary
    literals. */
module Expressions {
  import opened JsonTrees

  /** A JSON text up to white space and member order. Integer literals and literals with a fraction or an
      exponent are told apart, as the decoder does. */
  datatype Text =
    | TNull
    | TBool(b: bool)
    | TInt(i: int)
    | TFrac(r: real)
    | TStr(s: string)
    | TArr(items: seq<Text>)
    | TObj(members: map<string, Text>)

  datatype Expr = Expr(op: string, arg: Option<Expr>, literal: Literal)

  datatype Literal =
    | NoLiteral
    | BoolLit(b: bool)
    | IntLit(i: int)
    | FloatLit(f: real)
    | StrLit(s: string)
    | ListLit(es: seq<Expr>)
    | MapLit(fields: map<string, Expr>)

  const INT64_LIMIT: int := 0x8000_0000_0000_0000

  predicate IsInt64(i: int) {
    -INT64_LIMIT <= i < INT64_LIMIT
  }

  predicate Integral(f: real) {
    f == f.Floor as real
  }

  // ---- The decoder, one target type at a time; a JSON null leaves the target at its zero value ----

  function AsBoolText(t: Text): Option<bool> {
    match t
    case TBool(b) => Some(b)
    case TNull => Some(false)
    case _ => None
  }

  function AsIntText(t: Text): Option<int> {
    match t
    case TInt(i) => if IsInt64(i) then Some(i) else None
    case TNull => Some(0)
    case _ => None
  }

  function AsFloatText(t: Text): Option<real> {
    match t
    case TInt(i) => Some(i as real)
    case TFrac(r) => Some(r)
    case TNull => Some(0.0)
    case _ => None
  }

  function AsStringText(t: Text): Option<string> {
    match t
    case TStr(s) => Some(s)
    case TNull => Some("")
    case _ => None
  }

  predicate IsOperator(key: string) {
    key != "" && key[0] == '@'
  }

  // ---- UnmarshalJSON: an ordered trial of bool, int, float, string, list and map ----

  function Parse(t: Text): Option<Expr> {
    if AsBoolText(t).Some? then Some(Expr("@bool", None, BoolLit(AsBoolText(t).value)))
    else if AsIntText(t).Some? then Some(Expr("@int", None, IntLit(AsIntText(t).value)))
    else if AsFloatText(t).Some? then Some(Expr("@float", None, FloatLit(AsFloatText(t).value)))
    else if AsStringText(t).Some? && AsStringText(t).value != "" then
      Some(Expr("@string", None, StrLit(AsStringText(t).value)))
    else if t.TArr? && (forall i :: 0 <= i < |t.items| ==> Parse(t.items[i]).Some?) then
      Some(Expr("@list", None, ListLit(seq(|t.items|, i requires 0 <= i < |t.items| => Parse(t.items[i]).value))))
    else if t.TObj? && (forall k :: k in t.members ==> Parse(t.members[k]).Some?) then
      ParsedMap(map k | k in t.members :: Parse(t.members[k]).value)
    else None
  }

  /** A single member whose key starts with `@` is an operator; a single empty key has no result, see
      `Crashes`. */
  function ParsedMap(m: map<string, Expr>): Option<Expr> {
    if exists k :: k in m && m.Keys == {k} then
      var k :| k in m && m.Keys == {k};
      if k == "" then None
      else if IsOperator(k) then Some(Expr(k, Some(m[k]), NoLiteral))
      else Some(Expr("@dict", None, MapLit(m)))
    else Some(Expr("@dict", None, MapLit(m)))
  }

  // ---- How parsing ends ----

  /** The parser indexes past the end of a lone empty key. Elements and members are decoded first, one after
      the other, and the first that does not succeed decides; which member comes first is not part of a
      `Text`, so for members this says that the parser may crash. */
  predicate Crashes(t: Text) {
    match t
    case TArr(items) =>
      exists i :: 0 <= i < |items| && Crashes(items[i]) && forall k :: 0 <= k < i ==> Parse(items[k]).Some?
    case TObj(members) =>
      || (exists k :: k in members && Crashes(members[k]))
      || ((forall k :: k in members ==> Parse(members[k]).Some?) && members.Keys == {""})
    case _ => false
  }

  /** The parser returns an error. */
  predicate Rejects(t: Text) {
    match t
    case TStr(s) => s == ""
    case TArr(items) =>
      exists i :: 0 <= i < |items| && Rejects(items[i]) && forall k :: 0 <= k < i ==> Parse(items[k]).Some?
    case TObj(members) => exists k :: k in members && Rejects(members[k])
    case _ => false
  }

  predicate HasEmptyString(t: Text) {
    match t
    case TStr(s) => s == ""
    case TArr(items) => exists i :: 0 <= i < |items| && HasEmptyString(items[i])
    case TObj(members) => exists k :: k in members && HasEmptyString(members[k])
    case _ => false
  }

  predicate HasLoneEmptyKey(t: Text) {
    match t
    case TArr(items) => exists i :: 0 <= i < |items| && HasLoneEmptyKey(items[i])
    case TObj(members) => members.Keys == {""} || exists k :: k in members && HasLoneEmptyKey(members[k])
    case _ => false
  }

  /** The first element that does not parse. */
  lemma {:induction false} FirstFailure(items: seq<Text>, n: nat) returns (i: nat)
    requires n < |items| && Parse(items[n]).None?
    ensures i <= n && Parse(items[i]).None? && forall k :: 0 <= k < i ==> Parse(items[k]).Some?
  {
    if k :| 0 <= k < n && Parse(items[k]).None? {
      i := FirstFailure(items, k);
    } else {
      i := n;
    }
  }

  /** Parsing succeeds, is rejected or crashes, as the text decides: it succeeds exactly on texts without an
      empty string and without an object whose only key is empty; what fails is rejected or crashes; and
      without empty strings it crashes exactly when there is such an object. */
  lemma {:induction false} ParseOutcomes(t: Text)
    ensures Parse(t).Some? <==> !HasEmptyString(t) && !HasLoneEmptyKey(t)
    ensures Parse(t).None? <==> Crashes(t) || Rejects(t)
    ensures Rejects(t) ==> HasEmptyString(t)
    ensures Crashes(t) ==> HasLoneEmptyKey(t)
  {
    match t
    case TArr(items) => ArrayOutcomes(items);
    case TObj(members) => ObjectOutcomes(members);
    case _ =>
  }

  lemma {:induction false} ArrayOutcomes(items: seq<Text>)
    ensures var t := TArr(items);
            && (Parse(t).Some? <==> !HasEmptyString(t) && !HasLoneEmptyKey(t))
            && (Parse(t).None? <==> Crashes(t) || Rejects(t))
            && (Rejects(t) ==> HasEmptyString(t)) && (Crashes(t) ==> HasLoneEmptyKey(t))
    decreases items, 0
  {
    ParseList(items);
    forall i | 0 <= i < |items|
      ensures Parse(items[i]).Some? <==> !HasEmptyString(items[i]) && !HasLoneEmptyKey(items[i])
      ensures Parse(items[i]).None? <==> Crashes(items[i]) || Rejects(items[i])
      ensures Rejects(items[i]) ==> HasEmptyString(items[i])
      ensures Crashes(items[i]) ==> HasLoneEmptyKey(items[i])
    {
      ParseOutcomes(items[i]);
    }
    hide Parse;
    if n :| 0 <= n < |items| && Parse(items[n]).None? {
      var i := FirstFailure(items, n);
    }
  }

  lemma {:induction false} ObjectOutcomes(members: map<string, Text>)
    ensures var t := TObj(members);
            && (Parse(t).Some? <==> !HasEmptyString(t) && !HasLoneEmptyKey(t))
            && (Parse(t).None? <==> Crashes(t) || Rejects(t))
            && (Rejects(t) ==> HasEmptyString(t)) && (Crashes(t) ==> HasLoneEmptyKey(t))
    decreases TObj(members), 0
  {
    forall k | k in members
      ensures Parse(members[k]).Some? <==> !HasEmptyString(members[k]) && !HasLoneEmptyKey(members[k])
      ensures Parse(members[k]).None? <==> Crashes(members[k]) || Rejects(members[k])
      ensures Rejects(members[k]) ==> HasEmptyString(members[k])
      ensures Crashes(members[k]) ==> HasLoneEmptyKey(members[k])
    {
      ParseOutcomes(members[k]);
    }
    ObjectParses(members);
    hide Parse;
  }

  /** The members of an object, parsed. */
  lemma ParseMembers(ms: map<string, Text>) returns (m: map<string, Expr>)
    requires forall k :: k in ms ==> Parse(ms[k]).Some?
    ensures m.Keys == ms.Keys && forall k :: k in ms ==> m[k] == Parse(ms[k]).value
    ensures Parse(TObj(ms)) == ParsedMap(m)
  {
    hide ParsedMap;
    m := map k | k in ms :: Parse(ms[k]).value;
    assert Parse(TObj(ms)) == ParsedMap(m);
  }

  lemma ObjectParses(members: map<string, Text>)
    ensures Parse(TObj(members)).Some? <==>
              (forall k :: k in members ==> Parse(members[k]).Some?) && members.Keys != {""}
  {
    if forall k :: k in members ==> Parse(members[k]).Some? {
      hide Parse;
      var m := ParseMembers(members);
      if m.Keys == {""} { assert "" in m; }
    }
  }

  // ---- MarshalJSON ----

  /** Floats without a fractional part print as integers below 1e21, and with an exponent from there on. */
  function FloatText(f: real): Text {
    if Integral(f) && -1.0e21 < f < 1.0e21 then TInt(f.Floor) else TFrac(f)
  }

  function Print(e: Expr): Option<Text>
    decreases e, 1
  {
    match e.op
    case "@any" => PrintLiteral(e.literal)
    case "@list" =>
      if e.arg.Some? then Print(e.arg.value) else if e.literal.ListLit? then PrintLiteral(e.literal) else None
    case "@dict" =>
      if e.arg.Some? then Print(e.arg.value) else if e.literal.MapLit? then PrintLiteral(e.literal) else None
    case "@bool" => if e.arg.Some? then PrintOp(e) else if e.literal.BoolLit? then Some(TBool(e.literal.b)) else None
    case "@int" => if e.arg.Some? then PrintOp(e) else if e.literal.IntLit? then Some(TInt(e.literal.i)) else None
    case "@float" =>
      if e.arg.Some? then PrintOp(e) else if e.literal.FloatLit? then Some(FloatText(e.literal.f)) else None
    case "@string" => if e.arg.Some? then PrintOp(e) else if e.literal.StrLit? then Some(TStr(e.literal.s)) else None
    case _ => if IsOperator(e.op) then PrintOp(e) else None
  }

  function PrintOp(e: Expr): Option<Text>
    decreases e, 0
  {
    if e.arg.None? then Some(TObj(map[e.op := TNull]))
    else
      match Print(e.arg.value)
      case Some(t) => Some(TObj(map[e.op := t]))
      case None => None
  }

  function PrintLiteral(l: Literal): Option<Text>
    decreases l
  {
    match l
    case NoLiteral => Some(TNull)
    case BoolLit(b) => Some(TBool(b))
    case IntLit(i) => Some(TInt(i))
    case FloatLit(f) => Some(FloatText(f))
    case StrLit(s) => Some(TStr(s))
    case ListLit(es) =>
      if forall i :: 0 <= i < |es| ==> Print(es[i]).Some?
      then Some(TArr(seq(|es|, i requires 0 <= i < |es| => Print(es[i]).value))) else None
    case MapLit(m) =>
      if forall k :: k in m ==> Print(m[k]).Some?
      then Some(TObj(map k | k in m :: Print(m[k]).value)) else None
  }

  // ---- What a text spells, without an order of trials ----

  /** The expression a text stands for. A null stands for false; integers outside int64 stand for floats. */
  ghost predicate Spells(t: Text, e: Expr) {
    match t
    case TNull => e == Expr("@bool", None, BoolLit(false))
    case TBool(b) => e == Expr("@bool", None, BoolLit(b))
    case TInt(i) =>
      if -9223372036854775808 <= i <= 9223372036854775807 then e == Expr("@int", None, IntLit(i))
      else e == Expr("@float", None, FloatLit(i as real))
    case TFrac(r) => e == Expr("@float", None, FloatLit(r))
    case TStr(s) => s != "" && e == Expr("@string", None, StrLit(s))
    case TArr(ts) =>
      && e.op == "@list" && e.arg.None? && e.literal.ListLit? && |e.literal.es| == |ts|
      && forall i :: 0 <= i < |ts| ==> Spells(ts[i], e.literal.es[i])
    case TObj(ms) =>
      if exists k :: ms.Keys == {k} && IsOperator(k) then
        ms.Keys == {e.op} && e.arg.Some? && e.literal.NoLiteral? && Spells(ms[e.op], e.arg.value)
      else
        && ms.Keys != {""} && e.op == "@dict" && e.arg.None? && e.literal.MapLit? && e.literal.fields.Keys == ms.Keys
        && forall k :: k in ms ==> Spells(ms[k], e.literal.fields[k])
  }

  /** The ordered trial finds exactly the expression the text spells. */
  lemma {:induction false} ParseIsSpelling(t: Text, e: Expr)
    ensures Parse(t) == Some(e) <==> Spells(t, e)
    decreases t
  {
    match t
    case TArr(ts) => ListIsSpelling(ts, e);
    case TObj(ms) => MapIsSpelling(ms, e);
    case _ =>
  }

  lemma {:induction false} ListIsSpelling(ts: seq<Text>, e: Expr)
    ensures Parse(TArr(ts)) == Some(e) <==> Spells(TArr(ts), e)
    decreases TArr(ts), 0
  {
    ParseList(ts);
    forall i, x | 0 <= i < |ts| ensures Parse(ts[i]) == Some(x) <==> Spells(ts[i], x) { ParseIsSpelling(ts[i], x); }
    hide Parse;
    if Spells(TArr(ts), e) {
      assert forall i :: 0 <= i < |ts| ==> Parse(ts[i]) == Some(e.literal.es[i]);
      assert e.literal.es == Parse(TArr(ts)).value.literal.es;
    }
  }

  lemma {:induction false} MapIsSpelling(ms: map<string, Text>, e: Expr)
    ensures Parse(TObj(ms)) == Some(e) <==> Spells(TObj(ms), e)
    decreases TObj(ms), 0
  {
    forall k, x | k in ms ensures Parse(ms[k]) == Some(x) <==> Spells(ms[k], x) { ParseIsSpelling(ms[k], x); }
    if op :| ms.Keys == {op} && IsOperator(op) {
      assert op in ms && ms == map[op := ms[op]];
      ParseOperator(op, ms[op]);
      hide Parse;
      assert Spells(TObj(ms), e) <==>
          e.op == op && e.arg.Some? && e.literal.NoLiteral? && Spells(ms[op], e.arg.value);
    } else {
      ObjectParses(ms);
      if ms.Keys != {""} {
        ParseDictionary(ms);
        hide Parse;
        if Spells(TObj(ms), e) {
          assert forall k :: k in ms ==> Parse(ms[k]) == Some(e.literal.fields[k]);
          assert e.literal.fields == Parse(TObj(ms)).value.literal.fields;
        }
      }
    }
  }

  /** What the printer prints spells the printed expression, wherever the round trip holds. */
  lemma PrintSpells(e: Expr)
    requires Buildable(e) && Printable(e)
    ensures Print(e).Some? && Spells(Print(e).value, e)
  {
    hide Print, Parse, Spells;
    RoundTripIff(e);
    ParseIsSpelling(Print(e).value, e);
  }

  /** `@any` prints its literal, if it has one, like the literal alone. */
  lemma AnyPrintsLiteral(e: Expr, arg: Option<Expr>)
    requires Buildable(e) && !e.literal.NoLiteral?
    ensures Print(Expr("@any", arg, e.literal)) == Print(e)
  {
  }

  /** An operator without an argument prints with a null, which is read back as false. */
  lemma MissingArgument(op: string, l: Literal)
    requires IsOperator(op) && op !in {"@any", "@list", "@dict", "@bool", "@int", "@float", "@string"}
    ensures Reparsed(Expr(op, None, l)) == Some(Expr(op, Some(Expr("@bool", None, BoolLit(false))), NoLiteral))
  {
    assert Print(Expr(op, None, l)) == Some(TObj(map[op := TNull]));
    ParseOperator(op, TNull);
    NullIsFalse();
  }

  /** A float literal always prints as its own value: as an integer when it is one below 1e21, else with a
      fraction or an exponent. */
  lemma FloatPrints(f: real, i: int)
    ensures var t := Print(Expr("@float", None, FloatLit(f)));
            && (t == Some(TInt(i)) <==> i as real == f && -1.0e21 < f < 1.0e21)
            && (t == Some(TFrac(f)) || t == Some(TInt(f.Floor)))
  {
    if i as real == f {
      assert f.Floor == i;
    }
  }

  // ---- What the parser can build ----

  /** A dictionary literal is not a single operator member, nor a single empty key. */
  predicate PlainMap(m: map<string, Expr>) {
    forall k :: k in m && m.Keys == {k} ==> k != "" && !IsOperator(k)
  }

  predicate Buildable(e: Expr)
    decreases e
  {
    match e.literal
    case NoLiteral => IsOperator(e.op) && e.arg.Some? && Buildable(e.arg.value)
    case BoolLit(_) => e.op == "@bool" && e.arg.None?
    case IntLit(i) => e.op == "@int" && e.arg.None? && IsInt64(i)
    case FloatLit(_) => e.op == "@float" && e.arg.None?
    case StrLit(s) => e.op == "@string" && e.arg.None? && s != ""
    case ListLit(es) => e.op == "@list" && e.arg.None? && forall i :: 0 <= i < |es| ==> Buildable(es[i])
    case MapLit(m) => e.op == "@dict" && e.arg.None? && PlainMap(m) && forall k :: k in m ==> Buildable(m[k])
  }

  lemma {:induction false} ParseBuilds(t: Text)
    ensures Parse(t).Some? ==> Buildable(Parse(t).value)
  {
    if Parse(t).Some? {
      if t.TArr? {
        forall i | 0 <= i < |t.items| ensures Buildable(Parse(t.items[i]).value) { ParseBuilds(t.items[i]); }
      } else if t.TObj? {
        forall k | k in t.members ensures Buildable(Parse(t.members[k]).value) { ParseBuilds(t.members[k]); }
        var m := map k | k in t.members :: Parse(t.members[k]).value;
        assert Parse(t) == ParsedMap(m);
      }
    }
  }

  // ---- Round trip ----

  /** Operators the printer drops. */
  predicate DroppedOperator(op: string) {
    op == "@any" || op == "@list" || op == "@dict"
  }

  /** No operator form the printer drops, and no float literal that prints as an int64 literal. */
  predicate Printable(e: Expr)
    decreases e
  {
    match e.literal
    case NoLiteral => !DroppedOperator(e.op) && e.arg.Some? && Printable(e.arg.value)
    case FloatLit(f) => !(Integral(f) && IsInt64(f.Floor))
    case ListLit(es) => forall i :: 0 <= i < |es| ==> Printable(es[i])
    case MapLit(m) => forall k :: k in m ==> Printable(m[k])
    case _ => true
  }

  function Reparsed(e: Expr): Option<Expr> {
    if Print(e).Some? then Parse(Print(e).value) else None
  }

  /** Whatever the printer prints, the parser never reads a dropped operator back at the root. */
  ghost predicate NotDropped(x: Option<Expr>) {
    x.Some? && x.value.arg.Some? ==> !DroppedOperator(x.value.op)
  }

  lemma ParseOperator(op: string, t: Text)
    requires IsOperator(op)
    ensures Parse(TObj(map[op := t])) ==
              if Parse(t).Some? then Some(Expr(op, Some(Parse(t).value), NoLiteral)) else None
  {
    var ms := map[op := t];
    assert op in ms && ms[op] == t;
    if Parse(t).Some? {
      hide Parse, ParsedMap;
      var m := ParseMembers(ms);
      OperatorMember(m, op);
    }
  }

  lemma OperatorMember(m: map<string, Expr>, op: string)
    requires m.Keys == {op} && IsOperator(op)
    ensures ParsedMap(m) == Some(Expr(op, Some(m[op]), NoLiteral))
  {
    assert op in m.Keys;
  }

  lemma ParseList(ts: seq<Text>)
    ensures Parse(TArr(ts)).Some? <==> forall i :: 0 <= i < |ts| ==> Parse(ts[i]).Some?
    ensures Parse(TArr(ts)).Some? ==>
              var e := Parse(TArr(ts)).value;
              && e.op == "@list" && e.arg.None? && e.literal.ListLit? && |e.literal.es| == |ts|
              && forall i :: 0 <= i < |ts| ==> e.literal.es[i] == Parse(ts[i]).value
  {
  }

  lemma ParseDictionary(ms: map<string, Text>)
    requires forall k :: k in ms && ms.Keys == {k} ==> k != "" && !IsOperator(k)
    ensures Parse(TObj(ms)).Some? <==> forall k :: k in ms ==> Parse(ms[k]).Some?
    ensures Parse(TObj(ms)).Some? ==>
              var e := Parse(TObj(ms)).value;
              && e.op == "@dict" && e.arg.None? && e.literal.MapLit? && e.literal.fields.Keys == ms.Keys
              && forall k :: k in ms ==> e.literal.fields[k] == Parse(ms[k]).value
  {
    if forall k :: k in ms ==> Parse(ms[k]).Some? {
      hide Parse;
      var m := ParseMembers(ms);
    }
  }

  /** What is shown of every expression the parser can build. */
  ghost predicate RoundTrip(e: Expr) {
    && Print(e).Some? && NotDropped(Reparsed(e))
    && (Reparsed(e) == Some(e) <==> Printable(e))
  }

  lemma RoundTripOperator(e: Expr)
    requires Buildable(e) && e.literal.NoLiteral? && RoundTrip(e.arg.value)
    ensures RoundTrip(e)
  {
    hide Parse, Printable;
    var a := e.arg.value;
    if e.op == "@any" {
      assert Print(e) == Some(TNull);
      NullIsFalse();
      assert !Printable(e) by { DroppedIsNotPrintable(e); }
    } else if DroppedOperator(e.op) {
      assert Print(e) == Print(a);
      DroppedIsNotPrintable(e);
    } else {
      assert Print(e) == PrintOp(e);
      ParseOperator(e.op, Print(a).value);
      OperatorPrintable(e);
    }
  }

  lemma NullIsFalse()
    ensures Parse(TNull) == Some(Expr("@bool", None, BoolLit(false)))
  {
  }

  lemma DroppedIsNotPrintable(e: Expr)
    requires e.literal.NoLiteral? && DroppedOperator(e.op)
    ensures !Printable(e)
  {
  }

  lemma OperatorPrintable(e: Expr)
    requires e.literal.NoLiteral? && !DroppedOperator(e.op) && e.arg.Some?
    ensures Printable(e) <==> Printable(e.arg.value)
  {
  }

  lemma RoundTripList(e: Expr)
    requires Buildable(e) && e.literal.ListLit?
    requires forall i :: 0 <= i < |e.literal.es| ==> RoundTrip(e.literal.es[i])
    ensures RoundTrip(e)
  {
    var es := e.literal.es;
    assert Print(e) == PrintLiteral(e.literal);
    var ts := Print(e).value.items;
    assert forall i :: 0 <= i < |es| ==> ts[i] == Print(es[i]).value;
    ParseList(ts);
    hide Parse, Print, PrintLiteral;
    assert forall i :: 0 <= i < |es| ==> Reparsed(es[i]) == Parse(ts[i]);
    if Reparsed(e).Some? {
      var x := Reparsed(e).value;
      assert x == e <==> x.literal.es == es;
      assert x.literal.es == es <==> forall i :: 0 <= i < |es| ==> x.literal.es[i] == es[i];
    }
  }

  lemma RoundTripMap(e: Expr)
    requires Buildable(e) && e.literal.MapLit?
    requires forall k :: k in e.literal.fields ==> RoundTrip(e.literal.fields[k])
    ensures RoundTrip(e)
  {
    hide Parse, Print, Printable, Buildable, IsOperator;
    var m := e.literal.fields;
    PrintedMap(e);
    var ms := Print(e).value.members;
    assert forall k :: k in m ==> Reparsed(m[k]) == Parse(ms[k]);
    ParseDictionary(ms);
    if Reparsed(e).Some? {
      var x := Reparsed(e).value;
      assert x == e <==> x.literal.fields == m;
      assert x.literal.fields == m <==> forall k :: k in m ==> x.literal.fields[k] == m[k];
    }
  }

  lemma PrintedMap(e: Expr)
    requires Buildable(e) && e.literal.MapLit?
    requires forall k :: k in e.literal.fields ==> Print(e.literal.fields[k]).Some?
    ensures Print(e).Some? && Print(e).value.TObj?
    ensures var m, ms := e.literal.fields, Print(e).value.members;
            && ms.Keys == m.Keys && (forall k :: k in m ==> ms[k] == Print(m[k]).value)
            && (forall k :: k in ms && ms.Keys == {k} ==> k != "" && !IsOperator(k))
    ensures e == Expr("@dict", None, MapLit(e.literal.fields))
    ensures Printable(e) <==> forall k :: k in e.literal.fields ==> Printable(e.literal.fields[k])
  {
    hide Parse;
    assert Print(e) == PrintLiteral(e.literal);
  }

  lemma RoundTripScalar(e: Expr)
    requires Buildable(e) && !e.literal.NoLiteral? && !e.literal.ListLit? && !e.literal.MapLit?
    ensures RoundTrip(e)
  {
  }

  /** The exact round trip: an expression the parser can build always prints, and parsing the printed form
      returns the same tree if and only if the tree is printable. */
  lemma {:induction false} RoundTripIff(e: Expr)
    requires Buildable(e)
    ensures RoundTrip(e)
    decreases e
  {
    hide RoundTrip;
    match e.literal
    case NoLiteral =>
      RoundTripIff(e.arg.value);
      RoundTripOperator(e);
    case ListLit(es) =>
      forall i | 0 <= i < |es| ensures RoundTrip(es[i]) { RoundTripIff(es[i]); }
      RoundTripList(e);
    case MapLit(m) =>
      forall k | k in m ensures RoundTrip(m[k]) { RoundTripIff(m[k]); }
      RoundTripMap(e);
    case _ =>
      RoundTripScalar(e);
  }

  /** Printing what was parsed and parsing it again is stable on everything the parser accepts without
      dropped operators and integral floats. */
  lemma ParsePrintParse(t: Text)
    requires Parse(t).Some? && Printable(Parse(t).value)
    ensures Print(Parse(t).value).Some? && Parse(Print(Parse(t).value).value) == Parse(t)
  {
    hide Parse, Print, Printable;
    ParseBuilds(t);
    RoundTripIff(Parse(t).value);
  }

  // ---- Dictionary literals ----

  /** A string that is not a path stands for itself; path lookup is foreign. */
  function Resolve(s: string, path: string -> Result<Json>): Result<Json> {
    if s == "" || s[0] != '$' then Ok(Str(s)) else path(s)
  }

  /** The value a member is bound to: its expression evaluated, and string results resolved once more. */
  function MemberValue(e: Expr, eval: Expr -> Result<Json>, path: string -> Result<Json>): Result<Json> {
    match eval(e)
    case Ok(Str(s)) => Resolve(s, path)
    case r => r
  }

  predicate PlainKey(k: string) {
    k == "" || k[0] != '$'
  }

  /** Evaluation of a dictionary literal with plain keys, in map order. It fails for one order exactly when
      it fails for all, namely when a key is empty or a member has no value; otherwise every order gives the
      same map, with exactly the keys of the literal, each bound to its own value. */
  method EvaluateDict(vm: map<string, Expr>, eval: Expr -> Result<Json>, path: string -> Result<Json>)
    returns (r: Result<map<string, Json>>)
    requires forall k :: k in vm ==> PlainKey(k)
    ensures r.Ok? <==> forall k :: k in vm ==> k != "" && MemberValue(vm[k], eval, path).Ok?
    ensures r.Ok? ==> r.value.Keys == vm.Keys
    ensures r.Ok? ==> forall k :: k in vm ==> r.value[k] == MemberValue(vm[k], eval, path).value
    ensures r.Ok? ==> forall k :: k in vm && eval(vm[k]).Ok? && !eval(vm[k]).value.Str? ==>
              r.value[k] == eval(vm[k]).value
    ensures r.Ok? ==> forall k :: k in vm && eval(vm[k]).Ok? && eval(vm[k]).value.Str? ==>
              var s := eval(vm[k]).value.s;
              if s != "" && s[0] == '$' then path(s) == Ok(r.value[k]) else r.value[k] == Str(s)
  {
    var ret: map<string, Json> := map[];
    var todo := vm.Keys;
    while todo != {}
      invariant todo <= vm.Keys && ret.Keys == vm.Keys - todo
      invariant forall k :: k in ret ==>
                  k != "" && MemberValue(vm[k], eval, path).Ok? && ret[k] == MemberValue(vm[k], eval, path).value
    {
      var k :| k in todo;
      var res := eval(vm[k]);
      if res.Err? { return Err(res.error); }
      var value := SetPlain(k, res.value, path);
      if value.Err? { return Err(value.error); }
      ret := ret[k := value.value];
      todo := todo - {k};
    }
    return Ok(ret);
  }

  /** `SetJSONPath` on a plain key: the value to store, or an error for an empty key. */
  function SetPlain(key: string, value: Json, path: string -> Result<Json>): Result<Json> {
    if key == "" then Err(EmptyKey)
    else if value.Str? then Resolve(value.s, path)
    else Ok(value)
  }
}
