/** The form of a type reads no declaration but those the type reaches. What the contract form and its two notions of
    equality ask of a table is therefore asked of the reached declarations only. */
module ContractReach {
  import opened Types
  import opened Refinements
  import opened Contract
  import opened ContractInvariance
  import opened ContractShapes
  import ContractUnfold

  // ----- reached declarations -----

  /** The names lead to no others. A parameter counts as a name. */
  ghost predicate ClosedWords(names: iset<string>, a: Table) {
    forall n | n in names && n in a :: BodyWithin(a[n].body, names, [])
  }

  ghost predicate Reaches(t: TypeRef, n: string, a: Table) {
    forall names: iset<string> | Within(t, names, []) && ClosedWords(names, a) :: n in names
  }

  ghost function Reached(t: TypeRef, a: Table): iset<string> {
    iset n: string | Reaches(t, n, a)
  }

  /** The declarations a type reaches. */
  ghost function Needed(t: TypeRef, a: Table): Table {
    map n | n in a && Reaches(t, n, a) :: a[n]
  }

  lemma {:induction false} WithinReached(c: TypeRef, t: TypeRef, a: Table)
    requires forall names: iset<string> | Within(t, names, []) && ClosedWords(names, a) :: Within(c, names, [])
    ensures Within(c, Reached(t, a), [])
  {
    hide ClosedWords;
    match c
    case WrapRef(_, d) =>
      assert forall names: iset<string> | Within(t, names, []) && ClosedWords(names, a) :: Within(d, names, []);
      WithinReached(d, t, a);
    case PairRef(_, d, e) =>
      assert forall names: iset<string> | Within(t, names, []) && ClosedWords(names, a) ::
        Within(d, names, []) && Within(e, names, []);
      WithinReached(d, t, a);
      WithinReached(e, t, a);
    case AppRef(n, args) =>
      forall i | 0 <= i < |args| ensures Within(args[i], Reached(t, a), []) {
        assert forall names: iset<string> | Within(t, names, []) && ClosedWords(names, a) :: Within(args[i], names, []);
        WithinReached(args[i], t, a);
      }
    case _ =>
  }

  lemma ReachedClosed(t: TypeRef, a: Table)
    ensures Within(t, Reached(t, a), []) && ClosedWords(Reached(t, a), a)
  {
    hide Within;
    WithinReached(t, t, a);
    forall n | n in Reached(t, a) && n in a ensures BodyWithin(a[n].body, Reached(t, a), []) {
      forall ref | MemberRef(ref, a[n].body) ensures Within(ref, Reached(t, a), []) {
        forall names: iset<string> | Within(t, names, []) && ClosedWords(names, a) ensures Within(ref, names, []) {
          MemberWithin(ref, a[n].body, names, []);
        }
        WithinReached(ref, t, a);
      }
    }
  }

  /** The tables declare the names alike. */
  ghost predicate Agree(names: iset<string>, a: Table, b: Table) {
    forall n | n in names :: (n in a <==> n in b) && (n in a ==> a[n] == b[n])
  }

  /** The names lead to no others and are declared alike. */
  ghost predicate Shared(names: iset<string>, a: Table, b: Table) {
    ClosedWords(names, a) && Agree(names, a, b)
  }

  lemma NeededShared(t: TypeRef, a: Table)
    ensures Within(t, Reached(t, a), []) && Shared(Reached(t, a), a, Needed(t, a)) && Shared(Reached(t, a), Needed(t, a), a)
  {
    hide Within;
    ReachedClosed(t, a);
  }

  // ----- forms -----

  lemma {:induction false} CanonShared(t: TypeRef, names: iset<string>, a: Table, b: Table, seen: set<string>, bound: Binding)
    requires Within(t, names, []) && Shared(names, a, b)
    ensures Canon(t, a, seen, bound) == Canon(t, b, seen, bound)
    decreases a.Keys - seen, 1, t, 1
  {
    hide CanonNamed, Shared;
    match t
    case WrapRef(_, c) => CanonShared(c, names, a, b, seen, bound);
    case PairRef(_, c, d) =>
      CanonShared(c, names, a, b, seen, bound);
      CanonShared(d, names, a, b, seen, bound);
    case NamedRef(n) => if n !in bound { CanonNamedShared(n, names, a, b, seen, bound); }
    case AppRef(n, args) => CanonAppShared(t, names, a, b, seen, bound);
    case _ =>
  }

  lemma {:induction false} CanonAppShared(t: TypeRef, names: iset<string>, a: Table, b: Table, seen: set<string>, bound: Binding)
    requires t.AppRef? && Within(t, names, []) && Shared(names, a, b)
    ensures Canon(t, a, seen, bound) == Canon(t, b, seen, bound)
    decreases a.Keys - seen, 1, t, 0
  {
    hide CanonNamed, BodyWithin;
    var xs, ys := CanonAll(t.args, a, seen, bound), CanonAll(t.args, b, seen, bound);
    forall i | 0 <= i < |t.args| ensures xs[i] == ys[i] { CanonShared(t.args[i], names, a, b, seen, bound); }
    assert xs == ys;
    CanonNamedShared(t.name, names, a, b, seen, if t.name in a then Zip(a[t.name].typeParams, xs) else map[]);
  }

  lemma {:induction false} CanonNamedShared(n: string, names: iset<string>, a: Table, b: Table, seen: set<string>, bound: Binding)
    requires n in names && Shared(names, a, b)
    ensures CanonNamed(n, a, seen, bound) == CanonNamed(n, b, seen, bound)
    decreases a.Keys - seen, 0
  {
    if n !in seen && n in a {
      var inside := seen + {n};
      forall t | MemberRef(t, a[n].body) ensures Canon(t, a, inside, bound) == Canon(t, b, inside, bound) {
        MemberWithin(t, a[n].body, names, []);
        CanonShared(t, names, a, b, inside, bound);
      }
      CanonBodyShared(a[n].body, a, b, inside, bound);
    }
  }

  lemma CanonBodyShared(body: Body, a: Table, b: Table, seen: set<string>, bound: Binding)
    requires forall t | MemberRef(t, body) :: Canon(t, a, seen, bound) == Canon(t, b, seen, bound)
    ensures CanonBody(body, a, seen, bound) == CanonBody(body, b, seen, bound)
  {
    hide Canon;
    match body
    case Record(fs) =>
      var xs := seq(|fs|, i requires 0 <= i < |fs| => CanonField(fs[i], a, seen, bound));
      var ys := seq(|fs|, i requires 0 <= i < |fs| => CanonField(fs[i], b, seen, bound));
      forall i | 0 <= i < |fs| ensures xs[i] == ys[i] { assert MemberRef(fs[i].typ, body); }
      assert xs == ys;
    case Sum(vs) =>
      var xs := seq(|vs|, i requires 0 <= i < |vs| => CanonVariant(vs[i], a, seen, bound));
      var ys := seq(|vs|, i requires 0 <= i < |vs| => CanonVariant(vs[i], b, seen, bound));
      forall i | 0 <= i < |vs| ensures xs[i] == ys[i] {
        var ts := PayloadTypes(vs[i].payload);
        forall k | 0 <= k < |ts| ensures CanonAll(ts, a, seen, bound)[k] == CanonAll(ts, b, seen, bound)[k] {
          assert vs[i].payload[k].typ == ts[k];
          assert MemberRef(ts[k], body);
        }
        assert CanonAll(ts, a, seen, bound) == CanonAll(ts, b, seen, bound);
      }
      assert xs == ys;
    case _ =>
  }

  /** Declarations a type does not reach play no part in its form. */
  lemma CanonNeeded(t: TypeRef, a: Table)
    ensures Canon(t, a, {}, map[]) == Canon(t, Needed(t, a), {}, map[])
  {
    hide Within, Shared;
    NeededShared(t, a);
    CanonShared(t, Reached(t, a), a, Needed(t, a), {}, map[]);
  }

  // ----- pairing parts off -----

  lemma {:induction false} MatchedAmong<T>(xs: seq<T>, ys: seq<T>, r: iset<(T, T)>, s: iset<(T, T)>)
    requires Matched(xs, ys, r) && forall x, y | x in xs && y in ys && (x, y) in r :: (x, y) in s
    ensures Matched(xs, ys, s)
  {
    if xs != [] {
      var j :| 0 <= j < |ys| && (xs[0], ys[j]) in r && Matched(xs[1..], Without(ys, j), r);
      MatchedAmong(xs[1..], Without(ys, j), r, s);
    }
  }

  // ----- shapes -----

  /** The closed type names nothing but `names`. */
  ghost predicate ClosedIn(c: Closed, names: iset<string>) {
    Within(c.ref, names, []) && forall i | 0 <= i < |c.args| :: ClosedIn(c.args[i], names)
  }

  lemma MadeIn(t: TypeRef, xs: seq<string>, cs: seq<Closed>, names: iset<string>)
    requires Within(t, names, []) && forall c | c in cs :: ClosedIn(c, names)
    ensures ClosedIn(Closed(t, xs, cs), names)
  {
  }

  lemma {:induction false} StrippedIn(c: Closed, names: iset<string>)
    requires ClosedIn(c, names)
    ensures ClosedIn(Stripped(c), names)
    decreases c.args, c.ref
  {
    match c.ref
    case WrapRef(w, a) => if w == EffectOf { StrippedIn(c.(ref := a), names); }
    case NamedRef(x) =>
      if x in c.params && Index(c.params, x) < |c.args| { StrippedIn(c.args[Index(c.params, x)], names); }
    case _ =>
  }

  ghost function PairsIn(r: Pairs, m: iset<string>, n: iset<string>): Pairs {
    iset q: (Closed, Closed) | q in r && ClosedIn(q.0, m) && ClosedIn(q.1, n)
  }

  lemma BodiesIn(x: Body, xs: seq<string>, cs: seq<Closed>, y: Body, ys: seq<string>, ds: seq<Closed>, r: Pairs,
                 m: iset<string>, n: iset<string>)
    requires SameBodies(x, xs, cs, y, ys, ds, r) && BodyWithin(x, m, []) && BodyWithin(y, n, [])
    requires (forall c | c in cs :: ClosedIn(c, m)) && forall d | d in ds :: ClosedIn(d, n)
    ensures SameBodies(x, xs, cs, y, ys, ds, PairsIn(r, m, n))
  {
    hide Within, Matched;
    var s := PairsIn(r, m, n);
    match (x, y)
    case (Record(fs), Record(gs)) =>
      forall f, g | f in fs && g in gs && FieldsPair(f, xs, cs, g, ys, ds, r) ensures FieldsPair(f, xs, cs, g, ys, ds, s) {
        MadeIn(f.typ, xs, cs, m);
        MadeIn(g.typ, ys, ds, n);
      }
      MatchedAmong(fs, gs, SameFields(xs, cs, ys, ds, r), SameFields(xs, cs, ys, ds, s));
    case (Sum(vs), Sum(ws)) =>
      forall v, w | v in vs && w in ws && VariantsPair(v, xs, cs, w, ys, ds, r) ensures VariantsPair(v, xs, cs, w, ys, ds, s) {
        forall k | 0 <= k < |v.payload|
          ensures (Closed(v.payload[k].typ, xs, cs), Closed(w.payload[k].typ, ys, ds)) in s
        {
          MadeIn(v.payload[k].typ, xs, cs, m);
          MadeIn(w.payload[k].typ, ys, ds, n);
        }
      }
      MatchedAmong(vs, ws, SameVariants(xs, cs, ys, ds, r), SameVariants(xs, cs, ys, ds, s));
    case _ =>
  }

  lemma StepIn(c: Closed, d: Closed, a: Table, b: Table, x: Table, y: Table, r: Pairs, m: iset<string>, n: iset<string>)
    requires Step(c, d, a, b, r) && ClosedIn(c, m) && ClosedIn(d, n) && Shared(m, a, x) && Shared(n, b, y)
    ensures Step(c, d, x, y, PairsIn(r, m, n))
  {
    hide SameBodies;
    if (c.ref.NamedRef? || c.ref.AppRef?) && c.ref.name in a && d.ref.name in b {
      BodiesIn(a[c.ref.name].body, a[c.ref.name].typeParams, ArgsOf(c), b[d.ref.name].body, b[d.ref.name].typeParams, ArgsOf(d),
               r, m, n);
    }
  }

  /** Shapes do not depend on declarations that are not reached. */
  lemma ShapeShared(t: TypeRef, u: TypeRef, a: Table, b: Table, x: Table, y: Table, m: iset<string>, n: iset<string>)
    requires Within(t, m, []) && Within(u, n, []) && Shared(m, a, x) && Shared(n, b, y)
    requires SameShape(ContractUnfold.Start(t), ContractUnfold.Start(u), a, b)
    ensures SameShape(ContractUnfold.Start(t), ContractUnfold.Start(u), x, y)
  {
    hide Within, Step, Shared;
    var r: Pairs :| Unfolding(r, a, b) && (ContractUnfold.Start(t), ContractUnfold.Start(u)) in r;
    var s := PairsIn(r, m, n);
    forall q | q in s ensures Step(Stripped(q.0), Stripped(q.1), x, y, s) {
      StrippedIn(q.0, m);
      StrippedIn(q.1, n);
      StepIn(Stripped(q.0), Stripped(q.1), a, b, x, y, r, m, n);
    }
    assert Unfolding(s, x, y);
  }

  /** What is reached keeps to its scope, and no generic declaration among it reaches itself. */
  ghost predicate Expandable(t: TypeRef, a: Table) {
    var types := Needed(t, a);
    WellScoped(types) && GenericsEnd(types) && Scoped(t, [], types)
  }

  /** As long as no generic declaration that is reached reaches itself, two types have one canonical form exactly when
      they have one shape. */
  lemma CanonIffSameShape(t: TypeRef, u: TypeRef, a: Table, b: Table)
    requires Expandable(t, a) && Expandable(u, b)
    ensures Canon(t, a, {}, map[]) == Canon(u, b, {}, map[]) <==>
            SameShape(ContractUnfold.Start(t), ContractUnfold.Start(u), a, b)
  {
    hide Canon, SameShape, WellScoped, GenericsEnd, Scoped, Needed, Reached, Within, Shared;
    var x, y := Needed(t, a), Needed(u, b);
    CanonNeeded(t, a);
    CanonNeeded(u, b);
    ContractUnfold.ScopedCanonIffSameShape(t, u, x, y);
    NeededShared(t, a);
    NeededShared(u, b);
    if SameShape(ContractUnfold.Start(t), ContractUnfold.Start(u), a, b) {
      ShapeShared(t, u, a, b, x, y, Reached(t, a), Reached(u, b));
    }
    if SameShape(ContractUnfold.Start(t), ContractUnfold.Start(u), x, y) {
      ShapeShared(t, u, x, y, a, b, Reached(t, a), Reached(u, b));
    }
  }

  // ----- graphs -----

  lemma {:induction false} TypeEqIn(t: TypeRef, u: TypeRef, same: iset<string>, m: iset<string>, n: iset<string>, scope: Scope)
    requires TypeEq(t, u, same, scope) && Within(t, m, []) && Within(u, n, [])
    ensures TypeEq(t, u, same * m * n, scope)
    decreases t, u
  {
    if IsEffect(t) {
      TypeEqIn(t.inner, u, same, m, n, scope);
    } else if IsEffect(u) {
      TypeEqIn(t, u.inner, same, m, n, scope);
    } else if t.PairRef? {
      TypeEqIn(t.first, u.first, same, m, n, scope);
      TypeEqIn(t.second, u.second, same, m, n, scope);
    } else if t.AppRef? {
      forall i | 0 <= i < |t.args| ensures TypeEq(t.args[i], u.args[i], same * m * n, scope) {
        TypeEqIn(t.args[i], u.args[i], same, m, n, scope);
      }
    } else if t.WrapRef? && !Outside(t) {
      TypeEqIn(t.inner, u.inner, same, m, n, scope);
    }
  }

  lemma BodyEqIn(x: Body, y: Body, same: iset<string>, m: iset<string>, n: iset<string>, scope: Scope)
    requires BodyEq(x, y, same, scope) && BodyWithin(x, m, []) && BodyWithin(y, n, [])
    ensures BodyEq(x, y, same * m * n, scope)
  {
    hide Within, Matched, TypeEq;
    forall t, u | TypeEq(t, u, same, scope) && Within(t, m, []) && Within(u, n, []) ensures TypeEq(t, u, same * m * n, scope) {
      TypeEqIn(t, u, same, m, n, scope);
    }
    match (x, y)
    case (Record(fs), Record(gs)) => MatchedAmong(fs, gs, FieldPairs(same, scope), FieldPairs(same * m * n, scope));
    case (Sum(vs), Sum(ws)) => MatchedAmong(vs, ws, VariantPairs(same, scope), VariantPairs(same * m * n, scope));
    case _ =>
  }

  lemma GraphShared(t: TypeRef, u: TypeRef, a: Table, b: Table, x: Table, y: Table, m: iset<string>, n: iset<string>)
    requires Within(t, m, []) && Within(u, n, []) && Shared(m, a, x) && Shared(n, b, y) && EqualGraphs(t, u, a, b)
    ensures EqualGraphs(t, u, x, y)
  {
    hide Within, TypeEq, BodyEq, BodyWithin;
    var all: iset<string> :| SameGraph(all, a, b) && TypeEq(t, u, all, CLOSED);
    var same := all * m * n;
    TypeEqIn(t, u, all, m, n, CLOSED);
    forall k | k in same ensures NameEq(k, x, y, same) {
      assert NameEq(k, a, b, all);
      if k in a {
        BodyEqIn(a[k].body, b[k].body, all, m, n, Scope(a[k].typeParams, b[k].typeParams));
      }
    }
    assert SameGraph(same, x, y);
  }

  /** As long as no declaration that is reached has type parameters, two types have one canonical form exactly when their
      declaration graphs are equal. */
  lemma CanonIffSameGraph(t: TypeRef, u: TypeRef, a: Table, b: Table)
    requires ParameterFree(Needed(t, a)) && ParameterFree(Needed(u, b))
    ensures Canon(t, a, {}, map[]) == Canon(u, b, {}, map[]) <==> EqualGraphs(t, u, a, b)
  {
    hide Canon, ParameterFree, Needed, Reached, Within, Shared, SameGraph, TypeEq;
    var x, y := Needed(t, a), Needed(u, b);
    CanonNeeded(t, a);
    CanonNeeded(u, b);
    FreeCanonIffSameGraph(t, u, x, y);
    NeededShared(t, a);
    NeededShared(u, b);
    if EqualGraphs(t, u, a, b) { GraphShared(t, u, a, b, x, y, Reached(t, a), Reached(u, b)); }
    if EqualGraphs(t, u, x, y) { GraphShared(t, u, x, y, a, b, Reached(t, a), Reached(u, b)); }
  }

  function OneField(param: string): Table {
    map["Pair" := TypeDecl(0, 0, "Pair", ["X", "Y"], Record([Field("one", NamedRef(param), None)]))]
  }

  lemma OneFieldBody(param: string)
    requires param in ["X", "Y"]
    ensures CanonBody(OneField(param)["Pair"].body, OneField(param), {"Pair"}, Zip(["X", "Y"], [BaseForm(String), BaseForm(String)])) ==
            RecordForm(multiset{FieldForm("one", BaseForm(String), None)})
  {
    var f, forms := Field("one", NamedRef(param), None), [BaseForm(String), BaseForm(String)];
    ZipAt(["X", "Y"], forms);
    var bound := Zip(["X", "Y"], forms);
    var fields := seq(|[f]|, i requires 0 <= i < |[f]| => CanonField([f][i], OneField(param), {"Pair"}, bound));
    assert bound[param] == BaseForm(String);
    assert fields == [FieldForm("one", BaseForm(String), None)];
  }

  lemma OneFieldForm(param: string)
    requires param in ["X", "Y"]
    ensures Canon(AppRef("Pair", [BaseRef(String), BaseRef(String)]), OneField(param), {}, map[]) ==
            AppForm(Declared("Pair", RecordForm(multiset{FieldForm("one", BaseForm(String), None)})), [BaseForm(String), BaseForm(String)])
  {
    var args, types, forms := [BaseRef(String), BaseRef(String)], OneField(param), [BaseForm(String), BaseForm(String)];
    assert CanonAll(args, types, {}, map[]) == forms by { hide CanonNamed; }
    assert {} + {"Pair"} == {"Pair"};
    OneFieldBody(param);
  }

  /** For generic declarations equal graphs are too much to ask: which parameter a field uses does not show where both are
      given the same type. */
  lemma GraphTooFine()
    ensures var t := AppRef("Pair", [BaseRef(String), BaseRef(String)]);
      Canon(t, OneField("X"), {}, map[]) == Canon(t, OneField("Y"), {}, map[]) && !EqualGraphs(t, t, OneField("X"), OneField("Y"))
  {
    hide Canon;
    OneFieldForm("X");
    OneFieldForm("Y");
    var t := AppRef("Pair", [BaseRef(String), BaseRef(String)]);
    var a, b, scope := OneField("X"), OneField("Y"), Scope(["X", "Y"], ["X", "Y"]);
    assert !SameParameter("X", "Y", scope);
    forall same: iset<string> ensures !NameEq("Pair", a, b, same) {
      assert !TypeEq(NamedRef("X"), NamedRef("Y"), same, scope);
      assert !Matched(a["Pair"].body.fields, b["Pair"].body.fields, FieldPairs(same, scope));
    }
  }
}
