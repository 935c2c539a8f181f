/** The identifier of a join tuple: the `kind:namespace:name` strings of its members, sorted and
    glued with `--`. The main results say exactly which tuples are the first reading of their identifier,
    so that the identifier tells them apart. */
module JoinIds {

  datatype Member = Member(kind: string, namespace: string, name: string)

  function Render(m: Member): string {
    m.kind + ":" + m.namespace + ":" + m.name
  }

  function RenderAll(ms: seq<Member>): (r: seq<string>)
    ensures |r| == |ms|
  {
    if ms == [] then [] else [Render(ms[0])] + RenderAll(ms[1..])
  }

  /** Byte-wise string order. */
  predicate LexLeq(a: string, b: string) {
    a == "" || (b != "" && (a[0] < b[0] || (a[0] == b[0] && LexLeq(a[1..], b[1..]))))
  }

  function InsertSorted(x: string, xs: seq<string>): seq<string> {
    if xs == [] then [x]
    else if LexLeq(x, xs[0]) then [x] + xs
    else [xs[0]] + InsertSorted(x, xs[1..])
  }

  function SortStrings(xs: seq<string>): seq<string> {
    if xs == [] then [] else InsertSorted(xs[0], SortStrings(xs[1..]))
  }

  function JoinWith(sep: string, xs: seq<string>): string {
    if xs == [] then ""
    else if |xs| == 1 then xs[0]
    else xs[0] + sep + JoinWith(sep, xs[1..])
  }

  function JoinId(ms: seq<Member>): string {
    JoinWith("--", SortStrings(RenderAll(ms)))
  }

  predicate ColonFree(s: string) {
    ':' !in s
  }

  predicate ColonFreeKinds(ms: seq<Member>) {
    forall m :: m in ms ==> ColonFree(m.kind)
  }

  predicate DistinctKinds(ms: seq<Member>) {
    forall i, j :: 0 <= i < j < |ms| ==> ms[i].kind != ms[j].kind
  }

  predicate SameKinds(ms: seq<Member>, ns: seq<Member>) {
    |ms| == |ns| && forall i :: 0 <= i < |ms| ==> ms[i].kind == ns[i].kind
  }

  // ---- The sort is a sort ----

  predicate SortedLex(xs: seq<string>) {
    forall i, j :: 0 <= i < j < |xs| ==> LexLeq(xs[i], xs[j])
  }

  lemma {:induction false} LexTotal(a: string, b: string)
    ensures LexLeq(a, b) || LexLeq(b, a)
  {
    if a != "" && b != "" && a[0] == b[0] { LexTotal(a[1..], b[1..]); }
  }

  lemma {:induction false} LexTransitive(a: string, b: string, c: string)
    requires LexLeq(a, b) && LexLeq(b, c)
    ensures LexLeq(a, c)
  {
    if a != "" && a[0] == b[0] == c[0] { LexTransitive(a[1..], b[1..], c[1..]); }
  }

  lemma {:induction false} InsertSortedSorts(x: string, xs: seq<string>)
    requires SortedLex(xs)
    ensures multiset(InsertSorted(x, xs)) == multiset(xs) + multiset{x}
    ensures SortedLex(InsertSorted(x, xs))
  {
    if xs == [] {
    } else if LexLeq(x, xs[0]) {
      forall j | 0 <= j < |xs| ensures LexLeq(x, xs[j]) {
        if j > 0 { LexTransitive(x, xs[0], xs[j]); }
      }
    } else {
      var rest := InsertSorted(x, xs[1..]);
      InsertSortedSorts(x, xs[1..]);
      assert xs == [xs[0]] + xs[1..];
      LexTotal(x, xs[0]);
      hide LexLeq;
      forall j | 0 <= j < |rest| ensures LexLeq(xs[0], rest[j]) {
        assert rest[j] in multiset(rest);
        assert rest[j] == x || rest[j] in xs[1..];
      }
    }
  }

  /** `SortStrings` yields the lexicographically sorted permutation of its argument. */
  lemma {:induction false} SortStringsSorts(xs: seq<string>)
    ensures SortedLex(SortStrings(xs))
    ensures multiset(SortStrings(xs)) == multiset(xs)
  {
    if xs != [] {
      SortStringsSorts(xs[1..]);
      InsertSortedSorts(xs[0], SortStrings(xs[1..]));
      assert xs == [xs[0]] + xs[1..];
    }
  }

  // ---- Sorting members instead of their renderings ----

  function InsertMember(m: Member, ms: seq<Member>): seq<Member> {
    if ms == [] then [m]
    else if LexLeq(Render(m), Render(ms[0])) then [m] + ms
    else [ms[0]] + InsertMember(m, ms[1..])
  }

  function SortMembers(ms: seq<Member>): seq<Member> {
    if ms == [] then [] else InsertMember(ms[0], SortMembers(ms[1..]))
  }

  lemma {:induction false} InsertMemberRenders(m: Member, ms: seq<Member>)
    ensures RenderAll(InsertMember(m, ms)) == InsertSorted(Render(m), RenderAll(ms))
  {
    if ms == [] {
    } else if LexLeq(Render(m), Render(ms[0])) {
      assert ([m] + ms)[1..] == ms;
    } else {
      InsertMemberRenders(m, ms[1..]);
      assert ([ms[0]] + InsertMember(m, ms[1..]))[1..] == InsertMember(m, ms[1..]);
      assert RenderAll(ms)[1..] == RenderAll(ms[1..]);
    }
  }

  lemma {:induction false} SortMembersRenders(ms: seq<Member>)
    ensures RenderAll(SortMembers(ms)) == SortStrings(RenderAll(ms))
  {
    if ms != [] {
      SortMembersRenders(ms[1..]);
      InsertMemberRenders(ms[0], SortMembers(ms[1..]));
      assert RenderAll(ms)[1..] == RenderAll(ms[1..]);
    }
  }

  lemma {:induction false} InsertMemberPermutes(m: Member, ms: seq<Member>)
    ensures multiset(InsertMember(m, ms)) == multiset(ms) + multiset{m}
  {
    if ms != [] {
      assert ms == [ms[0]] + ms[1..];
      if !LexLeq(Render(m), Render(ms[0])) { InsertMemberPermutes(m, ms[1..]); }
    }
  }

  lemma {:induction false} SortMembersPermutes(ms: seq<Member>)
    ensures multiset(SortMembers(ms)) == multiset(ms)
  {
    if ms != [] {
      SortMembersPermutes(ms[1..]);
      InsertMemberPermutes(ms[0], SortMembers(ms[1..]));
      assert ms == [ms[0]] + ms[1..];
    }
  }

  lemma SortMembersElements(ms: seq<Member>)
    ensures forall m :: m in SortMembers(ms) <==> m in ms
    ensures |SortMembers(ms)| == |ms|
  {
    SortMembersPermutes(ms);
    var s := SortMembers(ms);
    assert |multiset(s)| == |multiset(ms)|;
    forall m ensures m in s <==> m in ms { assert m in s <==> m in multiset(s); }
  }

  // ---- The sorted order depends on the kinds alone ----

  lemma {:induction false} OrderIsByKind(k: string, r: string, k': string, r': string)
    requires ColonFree(k) && ColonFree(k') && k != k'
    ensures LexLeq(k + ":" + r, k' + ":" + r') <==> LexLeq(k + ":", k' + ":")
  {
    var a, b := k + ":" + r, k' + ":" + r';
    if k != "" && k' != "" && k[0] == k'[0] {
      assert a[1..] == k[1..] + ":" + r && b[1..] == k'[1..] + ":" + r';
      assert (k + ":")[1..] == k[1..] + ":" && (k' + ":")[1..] == k'[1..] + ":";
      assert k == [k[0]] + k[1..] && k' == [k'[0]] + k'[1..];
      OrderIsByKind(k[1..], r, k'[1..], r');
    } else {
      assert a[0] == (k + ":")[0] && b[0] == (k' + ":")[0];
      assert a[0] != b[0];
    }
  }

  /** The order in which the renderings of two kinds are sorted. */
  predicate Before(k: string, k': string) {
    LexLeq(k + ":", k' + ":")
  }

  lemma RenderOrderIsByKind(m: Member, n: Member)
    requires ColonFree(m.kind) && ColonFree(n.kind) && m.kind != n.kind
    ensures LexLeq(Render(m), Render(n)) <==> Before(m.kind, n.kind)
  {
    assert Render(m) == m.kind + ":" + (m.namespace + ":" + m.name);
    assert Render(n) == n.kind + ":" + (n.namespace + ":" + n.name);
    OrderIsByKind(m.kind, m.namespace + ":" + m.name, n.kind, n.namespace + ":" + n.name);
  }

  lemma {:induction false} InsertInLockstep(m: Member, ms: seq<Member>, n: Member, ns: seq<Member>)
    requires SameKinds(ms, ns) && m.kind == n.kind
    requires ColonFreeKinds(ms) && ColonFree(m.kind)
    requires forall i :: 0 <= i < |ms| ==> ms[i].kind != m.kind
    ensures SameKinds(InsertMember(m, ms), InsertMember(n, ns))
  {
    if ms != [] {
      assert ms[0] in ms && ns[0] in ns;
      RenderOrderIsByKind(m, ms[0]);
      RenderOrderIsByKind(n, ns[0]);
      if !LexLeq(Render(m), Render(ms[0])) {
        InsertInLockstep(m, ms[1..], n, ns[1..]);
      }
    }
  }

  lemma {:induction false} SortInLockstep(ms: seq<Member>, ns: seq<Member>)
    requires SameKinds(ms, ns) && DistinctKinds(ms) && ColonFreeKinds(ms)
    ensures SameKinds(SortMembers(ms), SortMembers(ns))
  {
    if ms != [] {
      var tl, tl' := ms[1..], ns[1..];
      assert forall m :: m in tl ==> m in ms;
      assert forall m :: m in tl' ==> m in ns;
      assert ms[0] in ms && ns[0] in ns;
      SortInLockstep(tl, tl');
      SortMembersElements(tl);
      SortMembersElements(tl');
      forall i | 0 <= i < |ms| - 1 ensures SortMembers(tl)[i].kind != ms[0].kind {
        assert SortMembers(tl)[i] in tl;
      }
      InsertInLockstep(ms[0], SortMembers(tl), ns[0], SortMembers(tl'));
    }
  }

  // ---- Decoding ----

  lemma {:induction false} SplitAtColon(a: string, r: string, b: string, r': string)
    requires ColonFree(a) && ColonFree(b)
    requires a + ":" + r == b + ":" + r'
    ensures a == b && r == r'
  {
    var s := a + ":" + r;
    assert s == b + ":" + r';
    assert s[|a|] == ':' && s[|b|] == ':';
    assert |a| == |b|;
    assert a == s[..|a|] && b == s[..|b|];
    assert r == s[|a| + 1..] && r' == s[|b| + 1..];
  }

  /** What separates a name from the next member of the glued list. */
  function Marker(k: string): string {
    "--" + k + ":"
  }

  predicate OccursAt(p: string, s: string, i: int) {
    0 <= i <= |s| - |p| && s[i..i + |p|] == p
  }

  ghost predicate Occurs(p: string, s: string) {
    exists i :: OccursAt(p, s, i)
  }

  /** Two occurrences of a marker do not overlap. */
  lemma MarkersApart(k: string, t: string, i: int, j: int)
    requires ColonFree(k) && OccursAt(Marker(k), t, i) && OccursAt(Marker(k), t, j) && i < j
    ensures i + |Marker(k)| <= j
  {
    var p := Marker(k);
    var n := |p| - 1;
    assert t[i + n] == t[i..i + |p|][n] == ':';
    forall y | j <= y < j + n ensures t[y] != ':' { assert t[y] == t[j..j + |p|][y - j] == p[y - j]; }
  }

  /** A name that ends later than another reading of the same text contains the marker. */
  lemma LongerNameHasMarker(name: string, r: string, name': string, r': string, k: string)
    requires ColonFree(k) && name + (Marker(k) + r) == name' + (Marker(k) + r') && |name'| < |name|
    ensures Occurs(Marker(k), name)
  {
    var t, l := name + (Marker(k) + r), |Marker(k)|;
    assert t == name' + (Marker(k) + r');
    assert OccursAt(Marker(k), t, |name'|) && OccursAt(Marker(k), t, |name|);
    MarkersApart(k, t, |name'|, |name|);
    assert name[|name'|..|name'| + l] == t[|name'|..|name'| + l];
    assert OccursAt(Marker(k), name, |name'|);
  }

  function Glue(ms: seq<Member>): string {
    JoinWith("--", RenderAll(ms))
  }

  /** What a glued list has behind its first name. */
  function Rest(ms: seq<Member>): string
    requires ms != []
  {
    if |ms| == 1 then "" else "--" + Glue(ms[1..])
  }

  /** A member without its kind, followed by `x`. */
  function Body(m: Member, x: string): string {
    m.namespace + ":" + (m.name + x)
  }

  lemma RenderBody(m: Member, x: string)
    ensures Render(m) + x == m.kind + ":" + Body(m, x)
    ensures "--" + (Render(m) + x) == Marker(m.kind) + Body(m, x)
  {
  }

  lemma GlueHead(ms: seq<Member>)
    requires ms != []
    ensures Glue(ms) == ms[0].kind + ":" + Body(ms[0], Rest(ms))
  {
    assert RenderAll(ms)[1..] == RenderAll(ms[1..]);
    assert Glue(ms) == Render(ms[0]) + Rest(ms);
    RenderBody(ms[0], Rest(ms));
  }

  lemma RestMarker(ms: seq<Member>)
    requires |ms| > 1
    ensures Rest(ms) == Marker(ms[1].kind) + Body(ms[1], Rest(ms[1..]))
  {
    var tl := ms[1..];
    assert RenderAll(tl)[1..] == RenderAll(tl[1..]);
    assert Glue(tl) == Render(tl[0]) + Rest(tl);
    RenderBody(tl[0], Rest(tl));
  }

  /** The first reading of its text: namespaces end at the first `:`, and names at the first marker of the
      member that follows. */
  ghost predicate FirstReading(ms: seq<Member>) {
    && (forall i :: 0 <= i < |ms| ==> ColonFree(ms[i].namespace))
    && forall i :: 0 <= i < |ms| - 1 ==> !Occurs(Marker(ms[i + 1].kind), ms[i].name)
  }

  /** `ms` ends a namespace or a name earlier than `ns`, where they first differ. */
  predicate Earlier(ms: seq<Member>, ns: seq<Member>) {
    && ms != [] && ns != []
    && if ms[0] == ns[0] then Earlier(ms[1..], ns[1..])
       else
         || |ms[0].namespace| < |ns[0].namespace|
         || (ms[0].namespace == ns[0].namespace && |ms[0].name| < |ns[0].name|)
  }

  lemma {:induction false} EarlierDiffers(ms: seq<Member>, ns: seq<Member>)
    requires Earlier(ms, ns)
    ensures ms != ns && !Earlier(ns, ms)
  {
    if ms[0] == ns[0] { EarlierDiffers(ms[1..], ns[1..]); }
  }

  /** A first reading is earlier than every other reading of its text. */
  lemma {:induction false} FirstReadingIsEarliest(ms: seq<Member>, ns: seq<Member>)
    requires SameKinds(ms, ns) && ColonFreeKinds(ms) && FirstReading(ms)
    requires Glue(ms) == Glue(ns) && ms != ns
    ensures Earlier(ms, ns)
    decreases |ms|, 1
  {
    var m, n := ms[0], ns[0];
    assert m in ms;
    GlueHead(ms);
    GlueHead(ns);
    var x, y := m.name + Rest(ms), n.name + Rest(ns);
    hide Glue, Rest, Occurs;
    SplitAtColon(m.kind, Body(m, Rest(ms)), n.kind, Body(n, Rest(ns)));
    if |n.namespace| <= |m.namespace| {
      EarlierColon(m.namespace, x, n.namespace, y);
      HeadsOfReadings(ms, ns);
    }
  }

  lemma EarlierColon(a: string, r: string, b: string, r': string)
    requires ColonFree(a) && |b| <= |a| && a + ":" + r == b + ":" + r'
    ensures a == b && r == r'
  {
    var s := a + ":" + r;
    assert s == b + ":" + r';
    assert s[|b|] == ':' && forall i :: 0 <= i < |a| ==> s[i] != ':';
    assert |a| == |b|;
    assert a == s[..|a|] && b == s[..|b|];
    assert r == s[|a| + 1..] && r' == s[|b| + 1..];
  }

  lemma SplitAt(a: string, r: string, b: string, r': string)
    requires |a| == |b| && a + r == b + r'
    ensures a == b && r == r'
  {
    var s := a + r;
    assert a == s[..|a|] && b == s[..|b|] && r == s[|a|..] && r' == s[|b|..];
  }

  lemma {:induction false} HeadsOfReadings(ms: seq<Member>, ns: seq<Member>)
    requires SameKinds(ms, ns) && ColonFreeKinds(ms) && FirstReading(ms) && ms != ns && ms != []
    requires ms[0].namespace == ns[0].namespace && ms[0].name + Rest(ms) == ns[0].name + Rest(ns)
    ensures Earlier(ms, ns)
    decreases |ms|, 0
  {
    hide Occurs, FirstReading, Glue, Rest;
    var m, n := ms[0], ns[0];
    if |ms| == 1 {
      SingleReading(ms, ns);
    } else if |n.name| <= |m.name| {
      TailIsFirstReading(ms);
      SameFirstName(ms, ns);
      assert ms == [m] + ms[1..] && ns == [n] + ns[1..];
      FirstReadingIsEarliest(ms[1..], ns[1..]);
    }
  }

  lemma SameFirstName(ms: seq<Member>, ns: seq<Member>)
    requires |ms| > 1 && SameKinds(ms, ns) && ColonFreeKinds(ms) && FirstReading(ms)
    requires ms[0].name + Rest(ms) == ns[0].name + Rest(ns) && |ns[0].name| <= |ms[0].name|
    ensures ms[0].name == ns[0].name && Glue(ms[1..]) == Glue(ns[1..])
  {
    hide FirstReading, Glue;
    NoLongerName(ms, ns);
    SplitAt(ms[0].name, Rest(ms), ns[0].name, Rest(ns));
    SplitAt("--", Glue(ms[1..]), "--", Glue(ns[1..]));
  }

  lemma SingleReading(ms: seq<Member>, ns: seq<Member>)
    requires |ms| == 1 && SameKinds(ms, ns)
    requires ms[0].namespace == ns[0].namespace && ms[0].name + Rest(ms) == ns[0].name + Rest(ns)
    ensures ms == ns
  {
    assert ms[0].name + "" == ms[0].name && ns[0].name + "" == ns[0].name;
  }

  lemma NoLongerName(ms: seq<Member>, ns: seq<Member>)
    requires |ms| > 1 && SameKinds(ms, ns) && ColonFreeKinds(ms) && FirstReading(ms)
    requires ms[0].name + Rest(ms) == ns[0].name + Rest(ns)
    ensures |ms[0].name| <= |ns[0].name|
  {
    var k := ms[1].kind;
    assert ms[1] in ms;
    RestMarker(ms);
    RestMarker(ns);
    hide Rest, Occurs, Body;
    assert !Occurs(Marker(ms[0 + 1].kind), ms[0].name);
    if |ns[0].name| < |ms[0].name| {
      LongerNameHasMarker(ms[0].name, Body(ms[1], Rest(ms[1..])), ns[0].name, Body(ns[1], Rest(ns[1..])), k);
    }
  }

  lemma TailIsFirstReading(ms: seq<Member>)
    requires ms != [] && FirstReading(ms) && ColonFreeKinds(ms)
    ensures FirstReading(ms[1..]) && ColonFreeKinds(ms[1..])
  {
    var tl := ms[1..];
    forall i | 0 <= i < |tl| - 1 ensures !Occurs(Marker(tl[i + 1].kind), tl[i].name) {
      assert tl[i] == ms[i + 1] && tl[i + 1] == ms[i + 1 + 1];
    }
  }

  /** Every other list has an earlier reading of the same text over the same kinds. */
  lemma {:induction false} OtherListsHaveEarlier(ms: seq<Member>) returns (ns: seq<Member>)
    requires !FirstReading(ms)
    ensures SameKinds(ms, ns) && Glue(ns) == Glue(ms) && Earlier(ns, ms)
  {
    var m := ms[0];
    if !ColonFree(m.namespace) {
      ns := ShorterNamespace(ms);
    } else if |ms| > 1 && Occurs(Marker(ms[1].kind), m.name) {
      ns := ShorterName(ms);
    } else {
      assert !FirstReading(ms[1..]) by { NotFirstInTail(ms); }
      var tl := OtherListsHaveEarlier(ms[1..]);
      ns := [m] + tl;
      assert ns[1..] == tl;
      GlueHead(ms);
      GlueHead(ns);
      assert Rest(ns) == Rest(ms);
    }
  }

  lemma NotFirstInTail(ms: seq<Member>)
    requires ms != [] && !FirstReading(ms) && ColonFree(ms[0].namespace)
    requires |ms| > 1 ==> !Occurs(Marker(ms[1].kind), ms[0].name)
    ensures !FirstReading(ms[1..])
  {
    var tl := ms[1..];
    if FirstReading(tl) {
      forall i | 0 <= i < |ms| ensures ColonFree(ms[i].namespace) {
        assert i > 0 ==> ms[i] == tl[i - 1];
      }
      forall i | 0 <= i < |ms| - 1 ensures !Occurs(Marker(ms[i + 1].kind), ms[i].name) {
        assert i > 0 ==> ms[i] == tl[i - 1] && ms[i + 1] == tl[i - 1 + 1];
      }
    }
  }

  /** A namespace that contains `:` can be ended there. */
  lemma ShorterNamespace(ms: seq<Member>) returns (ns: seq<Member>)
    requires ms != [] && !ColonFree(ms[0].namespace)
    ensures SameKinds(ms, ns) && Glue(ns) == Glue(ms) && Earlier(ns, ms)
  {
    var m := ms[0];
    var a, b := SplitColon(m.namespace);
    ns := [Member(m.kind, a, b + ":" + m.name)] + ms[1..];
    GlueHead(ms);
    GlueHead(ns);
    assert ns[1..] == ms[1..] && Rest(ns) == Rest(ms);
    hide Glue, Rest;
    ShiftColon(a, b, m.name, Rest(ms));
  }

  lemma ShiftColon(a: string, b: string, name: string, x: string)
    ensures (a + ":" + b) + ":" + (name + x) == a + ":" + ((b + ":" + name) + x)
  {
    var l, r := (a + ":" + b) + ":" + (name + x), a + ":" + ((b + ":" + name) + x);
    assert l == a + (":" + b + ":" + name + x) && r == a + (":" + b + ":" + name + x);
  }

  /** A name that contains the marker of the next member can be ended there: the next member then begins
      at that marker. */
  lemma ShorterName(ms: seq<Member>) returns (ns: seq<Member>)
    requires |ms| > 1 && Occurs(Marker(ms[1].kind), ms[0].name)
    ensures SameKinds(ms, ns) && Glue(ns) == Glue(ms) && Earlier(ns, ms)
  {
    var m, n, k := ms[0], ms[1], ms[1].kind;
    var a, b := SplitMarker(k, m.name);
    var text := (b + Marker(k)) + n.namespace;
    assert text[|b| + 2 + |k|] == ':';
    var c, d := SplitColon(text);
    assert |a| < |m.name|;
    hide Glue, Rest, Marker, Body, Occurs;
    var m', n' := Member(m.kind, m.namespace, a), Member(k, c, d + ":" + n.name);
    ns := [m', n'] + ms[2..];
    ReadAtMarker(m, n, a, b, c, d, Rest(ms[1..]));
    SameTexts(ms, ns);
  }

  /** Lists that differ in their first two members only, and spell these alike. */
  lemma SameTexts(ms: seq<Member>, ns: seq<Member>)
    requires |ms| > 1 && SameKinds(ms, ns) && ms[2..] == ns[2..]
    requires Body(ms[0], Marker(ms[1].kind) + Body(ms[1], Rest(ms[1..]))) ==
             Body(ns[0], Marker(ns[1].kind) + Body(ns[1], Rest(ms[1..])))
    ensures Glue(ns) == Glue(ms)
  {
    assert ns[1..][1..] == ns[2..] && ms[1..][1..] == ms[2..];
    assert Rest(ns[1..]) == Rest(ms[1..]);
    hide Glue, Rest, Marker, Body;
    GlueHead(ms);
    GlueHead(ns);
    RestMarker(ms);
    RestMarker(ns);
  }

  lemma ReadAtMarker(m: Member, n: Member, a: string, b: string, c: string, d: string, x: string)
    requires m.name == a + (Marker(n.kind) + b) && (b + Marker(n.kind)) + n.namespace == c + ":" + d
    ensures Body(m, Marker(n.kind) + Body(n, x)) ==
            Body(Member(m.kind, m.namespace, a), Marker(n.kind) + Body(Member(n.kind, c, d + ":" + n.name), x))
  {
    var p := Marker(n.kind);
    hide Marker;
    ShiftColon(c, d, n.name, x);
    ShiftMarker(a, p, b, n.namespace, ":" + (n.name + x));
    assert Body(n, x) == n.namespace + (":" + (n.name + x));
    assert ((b + p) + n.namespace) + (":" + (n.name + x)) == (c + ":" + d) + ":" + (n.name + x);
  }

  lemma ShiftMarker(a: string, p: string, b: string, namespace: string, x: string)
    ensures (a + (p + b)) + (p + (namespace + x)) == a + (p + (((b + p) + namespace) + x))
  {
    var l, r := (a + (p + b)) + (p + (namespace + x)), a + (p + (((b + p) + namespace) + x));
    assert l == a + (p + b + p + namespace + x) && r == a + (p + b + p + namespace + x);
  }

  lemma SplitMarker(k: string, name: string) returns (a: string, b: string)
    requires Occurs(Marker(k), name)
    ensures name == a + (Marker(k) + b)
  {
    var i :| OccursAt(Marker(k), name, i);
    a, b := name[..i], name[i + |Marker(k)|..];
  }

  lemma SplitColon(s: string) returns (a: string, b: string)
    requires !ColonFree(s)
    ensures s == a + ":" + b
  {
    var i :| 0 <= i < |s| && s[i] == ':';
    a, b := s[..i], s[i + 1..];
  }

  // ---- The same in terms of the kinds of a tuple ----

  function Kinds(ms: seq<Member>): set<string> {
    set m | m in ms :: m.kind
  }

  /** `k'` is sorted right behind `k` among `kinds`. */
  predicate Follows(kinds: set<string>, k: string, k': string) {
    && k in kinds && k' in kinds && k != k' && Before(k, k')
    && forall c :: c in kinds ==> c == k || c == k' || Before(c, k) || Before(k', c)
  }

  /** What a caller can check of one member: its namespace has no `:`, and its name does not contain the
      marker of the kind sorted behind its own. */
  ghost predicate Clear(kinds: set<string>, m: Member) {
    ColonFree(m.namespace) && forall k :: Follows(kinds, m.kind, k) ==> !Occurs(Marker(k), m.name)
  }

  ghost predicate AllClear(ms: seq<Member>) {
    forall m :: m in ms ==> Clear(Kinds(ms), m)
  }

  lemma {:induction false} LexAntisymmetric(a: string, b: string)
    requires LexLeq(a, b) && LexLeq(b, a)
    ensures a == b
  {
    if a != "" {
      LexAntisymmetric(a[1..], b[1..]);
      assert a == [a[0]] + a[1..] && b == [b[0]] + b[1..];
    }
  }

  lemma BeforeAntisymmetric(k: string, k': string)
    requires Before(k, k') && Before(k', k)
    ensures k == k'
  {
    LexAntisymmetric(k + ":", k' + ":");
    assert k == (k + ":")[..|k|] && k' == (k' + ":")[..|k'|];
  }

  lemma {:induction false} RenderAllAt(ms: seq<Member>, i: nat)
    requires i < |ms|
    ensures RenderAll(ms)[i] == Render(ms[i])
  {
    if i > 0 { RenderAllAt(ms[1..], i - 1); }
  }

  lemma {:induction false} InsertDistinct(m: Member, ms: seq<Member>)
    requires DistinctKinds(ms) && forall n :: n in ms ==> n.kind != m.kind
    ensures DistinctKinds(InsertMember(m, ms))
  {
    if ms != [] && !LexLeq(Render(m), Render(ms[0])) {
      var r := InsertMember(m, ms[1..]);
      InsertDistinct(m, ms[1..]);
      InsertMemberPermutes(m, ms[1..]);
      forall j | 0 <= j < |r| ensures r[j].kind != ms[0].kind {
        assert r[j] in multiset(r);
        assert r[j] == m || r[j] in ms[1..];
      }
    }
  }

  lemma {:induction false} SortedDistinct(ms: seq<Member>)
    requires DistinctKinds(ms)
    ensures DistinctKinds(SortMembers(ms))
  {
    if ms != [] {
      SortedDistinct(ms[1..]);
      SortMembersElements(ms[1..]);
      InsertDistinct(ms[0], SortMembers(ms[1..]));
    }
  }

  lemma SortedBefore(ms: seq<Member>, i: nat, j: nat)
    requires DistinctKinds(ms) && ColonFreeKinds(ms) && i < j < |SortMembers(ms)|
    ensures Before(SortMembers(ms)[i].kind, SortMembers(ms)[j].kind)
  {
    var s := SortMembers(ms);
    SortMembersRenders(ms);
    SortStringsSorts(RenderAll(ms));
    SortMembersElements(ms);
    SortedDistinct(ms);
    RenderAllAt(s, i);
    RenderAllAt(s, j);
    assert s[i] in s && s[j] in s;
    RenderOrderIsByKind(s[i], s[j]);
  }

  /** The kind sorted behind another is the one found behind it in the sorted list. */
  lemma FollowsIsNext(ms: seq<Member>, i: nat, k: string)
    requires DistinctKinds(ms) && ColonFreeKinds(ms) && i < |ms|
    ensures |SortMembers(ms)| == |ms|
    ensures Follows(Kinds(ms), SortMembers(ms)[i].kind, k) <==> i + 1 < |ms| && k == SortMembers(ms)[i + 1].kind
  {
    var s := SortMembers(ms);
    SortMembersElements(ms);
    assert Kinds(ms) == Kinds(s);
    assert forall j :: 0 <= j < |s| ==> s[j] in s && s[j].kind in Kinds(s);
    SortedDistinct(ms);
    forall a, b | 0 <= a < b < |s|
      ensures Before(s[a].kind, s[b].kind) && !Before(s[b].kind, s[a].kind)
    {
      SortedBefore(ms, a, b);
      if Before(s[b].kind, s[a].kind) { BeforeAntisymmetric(s[a].kind, s[b].kind); }
    }
    hide Before, SortMembers;
    NextInOrder(s, i, k);
  }

  /** Kinds are listed in a strict order. */
  predicate InOrder(s: seq<Member>) {
    forall a, b :: 0 <= a < b < |s| ==> Before(s[a].kind, s[b].kind) && !Before(s[b].kind, s[a].kind)
  }

  lemma NextInOrder(s: seq<Member>, i: nat, k: string)
    requires InOrder(s) && DistinctKinds(s) && i < |s|
    ensures Follows(Kinds(s), s[i].kind, k) <==> i + 1 < |s| && k == s[i + 1].kind
  {
    hide Before;
    assert forall j :: 0 <= j < |s| ==> s[j] in s && s[j].kind in Kinds(s);
    if i + 1 < |s| && k == s[i + 1].kind {
      forall c | c in Kinds(s) ensures c == s[i].kind || c == k || Before(c, s[i].kind) || Before(k, c) {
        var j :| 0 <= j < |s| && s[j].kind == c;
      }
    }
    if Follows(Kinds(s), s[i].kind, k) {
      FollowerIsNext(s, i, k);
    }
  }

  lemma FollowerIsNext(s: seq<Member>, i: nat, k: string)
    requires InOrder(s) && i < |s| && Follows(Kinds(s), s[i].kind, k)
    ensures i + 1 < |s| && k == s[i + 1].kind
  {
    hide Before;
    var j :| 0 <= j < |s| && s[j].kind == k;
    assert i < j;
    assert s[i + 1] in s && s[i + 1].kind in Kinds(s);
  }

  lemma ClearIsFirstReading(ms: seq<Member>)
    requires DistinctKinds(ms) && ColonFreeKinds(ms)
    ensures AllClear(ms) <==> FirstReading(SortMembers(ms))
  {
    var s := SortMembers(ms);
    SortMembersElements(ms);
    if AllClear(ms) {
      forall i | 0 <= i < |s| ensures ColonFree(s[i].namespace) { assert s[i] in ms; }
      forall i | 0 <= i < |s| - 1 ensures !Occurs(Marker(s[i + 1].kind), s[i].name) {
        FollowsIsNext(ms, i, s[i + 1].kind);
        assert s[i] in ms;
      }
    }
    if FirstReading(s) {
      forall m | m in ms ensures Clear(Kinds(ms), m) {
        assert m in s;
        var i :| 0 <= i < |s| && s[i] == m;
        forall k | Follows(Kinds(ms), m.kind, k) ensures !Occurs(Marker(k), m.name) {
          FollowsIsNext(ms, i, k);
        }
      }
    }
  }

  /** `ms` is an earlier reading of its identifier than `ns`. */
  predicate EarlierTuple(ms: seq<Member>, ns: seq<Member>) {
    Earlier(SortMembers(ms), SortMembers(ns))
  }

  lemma SortedEqual(ms: seq<Member>, ns: seq<Member>)
    requires SameKinds(ms, ns) && DistinctKinds(ms) && SortMembers(ms) == SortMembers(ns)
    ensures ms == ns
  {
    SortMembersElements(ms);
    SortMembersElements(ns);
    forall i | 0 <= i < |ms| ensures ms[i] == ns[i] {
      assert ms[i] in ns;
      var j :| 0 <= j < |ns| && ns[j] == ms[i];
      assert ms[j].kind == ms[i].kind;
    }
  }

  /** A clear tuple is earlier than every other tuple of the same kinds with the same identifier. */
  lemma ClearIsEarliest(ms: seq<Member>, ns: seq<Member>)
    requires SameKinds(ms, ns) && DistinctKinds(ms) && ColonFreeKinds(ms)
    requires AllClear(ms) && JoinId(ms) == JoinId(ns) && ms != ns
    ensures EarlierTuple(ms, ns)
  {
    SortMembersRenders(ms);
    SortMembersRenders(ns);
    SortInLockstep(ms, ns);
    SortMembersElements(ms);
    ClearIsFirstReading(ms);
    if SortMembers(ms) == SortMembers(ns) { SortedEqual(ms, ns); }
    FirstReadingIsEarliest(SortMembers(ms), SortMembers(ns));
  }

  /** Join ids are uniquely decodable: two clear tuples over the same distinct kinds with the same id have
      the same namespace and name in every slot. Names may contain `:` and the separator. */
  lemma JoinIdDecodes(ms: seq<Member>, ns: seq<Member>)
    requires SameKinds(ms, ns) && DistinctKinds(ms) && ColonFreeKinds(ms) && AllClear(ms) && AllClear(ns)
    requires JoinId(ms) == JoinId(ns)
    ensures ms == ns
  {
    if ms != ns {
      assert ColonFreeKinds(ns) by {
        forall n | n in ns ensures ColonFree(n.kind) {
          var i :| 0 <= i < |ns| && ns[i] == n;
          assert ms[i] in ms;
        }
      }
      ClearIsEarliest(ms, ns);
      ClearIsEarliest(ns, ms);
      EarlierDiffers(SortMembers(ms), SortMembers(ns));
    }
  }

  /** The members of the sorted list `s`, in the order of the kinds of `ms`. */
  lemma Unsort(ms: seq<Member>, s: seq<Member>) returns (ns: seq<Member>)
    requires DistinctKinds(ms) && ColonFreeKinds(ms) && SameKinds(SortMembers(ms), s)
    ensures SameKinds(ms, ns) && SortMembers(ns) == s
  {
    SortMembersElements(ms);
    SortedDistinct(ms);
    ns := Rearranged(ms, SortMembers(ms), s);
    SortInLockstep(ms, ns);
    SortMembersElements(ns);
    hide SortMembers;
    SameMembers(SortMembers(ms), s, SortMembers(ns), ns);
  }

  /** Each member of `s` in the place its kind has in `ms`. */
  lemma {:induction false} Rearranged(ms: seq<Member>, t: seq<Member>, s: seq<Member>) returns (ns: seq<Member>)
    requires SameKinds(t, s) && forall m :: m in ms ==> m in t
    ensures SameKinds(ms, ns) && forall n :: n in ns ==> n in s
  {
    if ms == [] {
      ns := [];
    } else {
      var pre := Rearranged(ms[..|ms| - 1], t, s);
      var last := ms[|ms| - 1];
      assert last in ms;
      var j :| 0 <= j < |t| && t[j] == last;
      ns := pre + [s[j]];
    }
  }

  /** Two lists of the same distinct kinds, one of them drawn from the other, are equal. */
  lemma SameMembers(t: seq<Member>, s: seq<Member>, u: seq<Member>, ns: seq<Member>)
    requires DistinctKinds(t) && SameKinds(t, s) && SameKinds(t, u)
    requires forall m :: m in u ==> m in ns
    requires forall n :: n in ns ==> n in s
    ensures u == s
  {
    forall i | 0 <= i < |u| ensures u[i] == s[i] {
      assert u[i] in s;
      var j :| 0 <= j < |s| && s[j] == u[i];
      assert t[i].kind == t[j].kind;
    }
  }

  /** Every tuple that is not clear shares its id with an earlier one over the same kinds. */
  lemma JoinIdCollides(ms: seq<Member>) returns (ns: seq<Member>)
    requires DistinctKinds(ms) && ColonFreeKinds(ms) && !AllClear(ms)
    ensures SameKinds(ms, ns) && ms != ns && JoinId(ms) == JoinId(ns) && EarlierTuple(ns, ms)
  {
    ClearIsFirstReading(ms);
    var s := OtherListsHaveEarlier(SortMembers(ms));
    ns := Unsort(ms, s);
    EarlierDiffers(s, SortMembers(ms));
    SortMembersRenders(ms);
    SortMembersRenders(ns);
  }

  /** The exact condition: a tuple is the earliest reading of its id if and only if it is clear. */
  lemma ClearIff(ms: seq<Member>)
    requires DistinctKinds(ms) && ColonFreeKinds(ms)
    ensures AllClear(ms) <==>
              forall ns :: SameKinds(ms, ns) && JoinId(ms) == JoinId(ns) && ms != ns ==> EarlierTuple(ms, ns)
  {
    if AllClear(ms) {
      forall ns | SameKinds(ms, ns) && JoinId(ms) == JoinId(ns) && ms != ns ensures EarlierTuple(ms, ns) {
        ClearIsEarliest(ms, ns);
      }
    } else {
      var ns := JoinIdCollides(ms);
      EarlierDiffers(SortMembers(ns), SortMembers(ms));
    }
  }
}
