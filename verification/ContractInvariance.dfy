/** What the canonical form is blind to, generic declarations included.

    A declaration without parameters is expanded with the parameters of whoever uses it still bound, so
    parameter names must not be used outside their own declaration; and every application must give each
    parameter its argument. */
module ContractInvariance {
  import opened Types
  import opened Refinements
  import opened Contract

  function Parameters(types: Table): set<string> {
    set n, p | n in types && p in types[n].typeParams :: p
  }

  /** Parameter names are used in their own scope only, and every declared name gets its arguments. */
  predicate Scoped(t: TypeRef, params: seq<string>, types: Table) {
    match t
    case NamedRef(n) => n in params || (n !in Parameters(types) && (n in types ==> types[n].typeParams == []))
    case AppRef(n, args) =>
      (n in types ==> |args| == |types[n].typeParams|) && forall i | 0 <= i < |args| :: Scoped(args[i], params, types)
    case WrapRef(_, a) => Scoped(a, params, types)
    case PairRef(_, a, b) => Scoped(a, params, types) && Scoped(b, params, types)
    case _ => true
  }

  predicate BodyScoped(body: Body, params: seq<string>, types: Table) {
    match body
    case Record(fs) => forall i | 0 <= i < |fs| :: Scoped(fs[i].typ, params, types)
    case Sum(vs) =>
      forall i | 0 <= i < |vs| :: forall k | 0 <= k < |vs[i].payload| :: Scoped(vs[i].payload[k].typ, params, types)
    case _ => true
  }

  predicate NoRepeats(names: seq<string>) {
    forall i, j | 0 <= i < j < |names| :: names[i] != names[j]
  }

  ghost predicate WellScoped(types: Table) {
    forall n | n in types :: NoRepeats(types[n].typeParams) && BodyScoped(types[n].body, types[n].typeParams, types)
  }

  /** Paired parameters stand for one form, and only parameters are bound. */
  ghost predicate Linked(left: Binding, right: Binding, scope: Scope) {
    |scope.left| == |scope.right| &&
    forall i | 0 <= i < |scope.left| ::
      scope.left[i] in left && scope.right[i] in right && left[scope.left[i]] == right[scope.right[i]]
  }

  lemma {:induction false} ZipAt(params: seq<string>, forms: seq<Form>)
    requires |params| == |forms| && NoRepeats(params)
    ensures Zip(params, forms).Keys == set p | p in params
    ensures forall i | 0 <= i < |params| :: Zip(params, forms)[params[i]] == forms[i]
  {
    if params != [] {
      ZipAt(params[1..], forms[1..]);
      assert forall i | 1 <= i < |params| :: params[i] == params[1..][i - 1] && forms[i] == forms[1..][i - 1];
    }
  }

  lemma {:induction false} MatchedImages<T, F>(xs: seq<T>, ys: seq<T>, related: iset<(T, T)>, fs: seq<F>, gs: seq<F>)
    requires |fs| == |xs| && |gs| == |ys| && Matched(xs, ys, related)
    requires forall i, j | 0 <= i < |xs| && 0 <= j < |ys| :: (xs[i], ys[j]) in related ==> fs[i] == gs[j]
    ensures multiset(fs) == multiset(gs)
  {
    if xs != [] {
      var j :| 0 <= j < |ys| && (xs[0], ys[j]) in related && Matched(xs[1..], Without(ys, j), related);
      MatchedImagesRest(xs, ys, related, fs, gs, j);
      MultisetWithout(gs, j);
      assert fs == [fs[0]] + fs[1..];
    }
  }

  lemma {:induction false} MatchedImagesRest<T, F>(xs: seq<T>, ys: seq<T>, related: iset<(T, T)>, fs: seq<F>, gs: seq<F>, j: nat)
    requires |fs| == |xs| > 0 && |gs| == |ys| && j < |ys| && Matched(xs[1..], Without(ys, j), related)
    requires forall i, k | 0 <= i < |xs| && 0 <= k < |ys| :: (xs[i], ys[k]) in related ==> fs[i] == gs[k]
    ensures multiset(fs[1..]) == multiset(Without(gs, j))
    decreases xs[1..]
  {
    forall i, k | 0 <= i < |xs[1..]| && 0 <= k < |Without(ys, j)|
      ensures (xs[1..][i], Without(ys, j)[k]) in related ==> fs[1..][i] == Without(gs, j)[k]
    {
      var k' := if k < j then k else k + 1;
      assert Without(ys, j)[k] == ys[k'] && Without(gs, j)[k] == gs[k'];
    }
    MatchedImages(xs[1..], Without(ys, j), related, fs[1..], Without(gs, j));
  }

  /** The two sides of a comparison: the tables, the names alike in both, and what is on the path. */
  ghost predicate Comparable(a: Table, b: Table, same: iset<string>) {
    SameGraph(same, a, b) && WellScoped(a) && WellScoped(b)
  }

  lemma {:induction false} CanonEqual(t: TypeRef, u: TypeRef, a: Table, b: Table, same: iset<string>,
                                      seen: set<string>, left: Binding, right: Binding, scope: Scope)
    requires Comparable(a, b, same) && TypeEq(t, u, same, scope) && Linked(left, right, scope)
    requires left.Keys <= Parameters(a) && right.Keys <= Parameters(b)
    requires Scoped(t, scope.left, a) && Scoped(u, scope.right, b)
    ensures Canon(t, a, seen, left) == Canon(u, b, seen, right)
    decreases a.Keys - seen, 1, t, u, 1
  {
    hide CanonNamed, CanonBody;
    if IsEffect(t) {
      CanonEqual(t.inner, u, a, b, same, seen, left, right, scope);
    } else if IsEffect(u) {
      CanonEqual(t, u.inner, a, b, same, seen, left, right, scope);
    } else if t.PairRef? {
      CanonEqual(t.first, u.first, a, b, same, seen, left, right, scope);
      CanonEqual(t.second, u.second, a, b, same, seen, left, right, scope);
    } else if t.WrapRef? && OnTheWire(t.wrapper) {
      CanonEqual(t.inner, u.inner, a, b, same, seen, left, right, scope);
    } else if t.NamedRef? {
      if !SameParameter(t.name, u.name, scope) {
        CanonNamedEqual(t.name, a, b, same, seen, left, right);
      }
    } else if t.AppRef? {
      CanonAppEqual(t, u, a, b, same, seen, left, right, scope);
    }
  }

  lemma {:induction false} CanonAppEqual(t: TypeRef, u: TypeRef, a: Table, b: Table, same: iset<string>,
                                         seen: set<string>, left: Binding, right: Binding, scope: Scope)
    requires Comparable(a, b, same) && TypeEq(t, u, same, scope) && Linked(left, right, scope)
    requires left.Keys <= Parameters(a) && right.Keys <= Parameters(b)
    requires Scoped(t, scope.left, a) && Scoped(u, scope.right, b) && t.AppRef? && u.AppRef?
    ensures Canon(t, a, seen, left) == Canon(u, b, seen, right)
    decreases a.Keys - seen, 1, t, u, 0
  {
    hide CanonNamed, CanonBody, NameEq, Zip;
    var n := t.name;
    var xs, ys := CanonAll(t.args, a, seen, left), CanonAll(u.args, b, seen, right);
    forall i | 0 <= i < |t.args| ensures xs[i] == ys[i] {
      CanonEqual(t.args[i], u.args[i], a, b, same, seen, left, right, scope);
    }
    assert xs == ys;
    CanonHeadEqual(n, xs, a, b, same, seen);
    assert Canon(t, a, seen, left) == AppForm(Head(n, xs, a, seen), xs);
    assert Canon(u, b, seen, right) == AppForm(Head(n, ys, b, seen), ys);
  }

  /** The form of the head of an application. */
  function Head(n: string, forms: seq<Form>, types: Table, seen: set<string>): Form {
    CanonNamed(n, types, seen, if n in types then Zip(types[n].typeParams, forms) else map[])
  }

  lemma {:induction false} CanonHeadEqual(n: string, forms: seq<Form>, a: Table, b: Table, same: iset<string>, seen: set<string>)
    requires Comparable(a, b, same) && n in same
    requires n in a ==> |forms| == |a[n].typeParams|
    requires n in b ==> |forms| == |b[n].typeParams|
    ensures Head(n, forms, a, seen) == Head(n, forms, b, seen)
    decreases a.Keys - seen, 0, 1
  {
    hide CanonNamed, CanonBody;
    assert NameEq(n, a, b, same);
    if n in a {
      ZipAt(a[n].typeParams, forms);
      ZipAt(b[n].typeParams, forms);
      CanonNamedEqual(n, a, b, same, seen, Zip(a[n].typeParams, forms), Zip(b[n].typeParams, forms));
    } else {
      CanonNamedEqual(n, a, b, same, seen, map[], map[]);
    }
  }

  lemma {:induction false} CanonNamedEqual(n: string, a: Table, b: Table, same: iset<string>, seen: set<string>,
                                           left: Binding, right: Binding)
    requires Comparable(a, b, same) && n in same
    requires left.Keys <= Parameters(a) && right.Keys <= Parameters(b)
    requires n in a && n in b ==> Linked(left, right, Scope(a[n].typeParams, b[n].typeParams))
    ensures CanonNamed(n, a, seen, left) == CanonNamed(n, b, seen, right)
    decreases a.Keys - seen, 0, 0
  {
    hide CanonBody;
    assert NameEq(n, a, b, same);
    if n !in seen && n in a {
      CanonBodyEqual(a[n].body, b[n].body, a, b, same, seen + {n}, left, right,
                     Scope(a[n].typeParams, b[n].typeParams));
    }
  }

  lemma {:induction false} CanonBodyEqual(x: Body, y: Body, a: Table, b: Table, same: iset<string>,
                                          seen: set<string>, left: Binding, right: Binding, scope: Scope)
    requires Comparable(a, b, same) && BodyEq(x, y, same, scope) && Linked(left, right, scope)
    requires left.Keys <= Parameters(a) && right.Keys <= Parameters(b)
    requires BodyScoped(x, scope.left, a) && BodyScoped(y, scope.right, b)
    ensures CanonBody(x, a, seen, left) == CanonBody(y, b, seen, right)
    decreases a.Keys - seen, 3
  {
    match (x, y)
    case (Record(fs), Record(gs)) =>
      var xs := seq(|fs|, i requires 0 <= i < |fs| => CanonField(fs[i], a, seen, left));
      var ys := seq(|gs|, i requires 0 <= i < |gs| => CanonField(gs[i], b, seen, right));
      forall i, j | 0 <= i < |fs| && 0 <= j < |gs| && (fs[i], gs[j]) in FieldPairs(same, scope)
        ensures xs[i] == ys[j]
      {
        CanonEqual(fs[i].typ, gs[j].typ, a, b, same, seen, left, right, scope);
      }
      MatchedImages(fs, gs, FieldPairs(same, scope), xs, ys);
      assert CanonBody(x, a, seen, left) == RecordForm(multiset(xs));
      assert CanonBody(y, b, seen, right) == RecordForm(multiset(ys));
    case (Sum(vs), Sum(ws)) =>
      var xs := seq(|vs|, i requires 0 <= i < |vs| => CanonVariant(vs[i], a, seen, left));
      var ys := seq(|ws|, i requires 0 <= i < |ws| => CanonVariant(ws[i], b, seen, right));
      forall i, j | 0 <= i < |vs| && 0 <= j < |ws| && (vs[i], ws[j]) in VariantPairs(same, scope)
        ensures xs[i] == ys[j]
      {
        PayloadEqual(vs[i].payload, ws[j].payload, a, b, same, seen, left, right, scope);
      }
      MatchedImages(vs, ws, VariantPairs(same, scope), xs, ys);
      assert CanonBody(x, a, seen, left) == SumForm(multiset(xs));
      assert CanonBody(y, b, seen, right) == SumForm(multiset(ys));
    case _ =>
  }

  lemma {:induction false} PayloadEqual(ps: seq<PayloadField>, qs: seq<PayloadField>, a: Table, b: Table,
                                        same: iset<string>, seen: set<string>, left: Binding, right: Binding, scope: Scope)
    requires Comparable(a, b, same) && Linked(left, right, scope)
    requires left.Keys <= Parameters(a) && right.Keys <= Parameters(b)
    requires |ps| == |qs| && forall k | 0 <= k < |ps| ::
      TypeEq(ps[k].typ, qs[k].typ, same, scope) && Scoped(ps[k].typ, scope.left, a) && Scoped(qs[k].typ, scope.right, b)
    ensures CanonAll(PayloadTypes(ps), a, seen, left) == CanonAll(PayloadTypes(qs), b, seen, right)
    decreases a.Keys - seen, 2
  {
    forall k | 0 <= k < |ps|
      ensures Canon(PayloadTypes(ps)[k], a, seen, left) == Canon(PayloadTypes(qs)[k], b, seen, right)
    {
      CanonEqual(ps[k].typ, qs[k].typ, a, b, same, seen, left, right, scope);
    }
  }

  /** Equal declaration graphs have equal forms, also when parameters are named differently on the two sides. */
  lemma SameGraphSameForm(t: TypeRef, u: TypeRef, a: Table, b: Table, same: iset<string>)
    requires SameGraph(same, a, b) && TypeEq(t, u, same, CLOSED)
    requires WellScoped(a) && WellScoped(b) && Scoped(t, [], a) && Scoped(u, [], b)
    ensures Canon(t, a, {}, map[]) == Canon(u, b, {}, map[])
  {
    CanonEqual(t, u, a, b, same, {}, map[], map[], CLOSED);
  }

  // ----- rearranging, respelling and changing what is not reached -----

  /** Every name the type mentions is a parameter or one of `names`. */
  ghost predicate Within(t: TypeRef, names: iset<string>, params: seq<string>) {
    match t
    case NamedRef(n) => n in params || n in names
    case AppRef(n, args) => n in names && forall i | 0 <= i < |args| :: Within(args[i], names, params)
    case WrapRef(_, a) => Within(a, names, params)
    case PairRef(_, a, b) => Within(a, names, params) && Within(b, names, params)
    case _ => true
  }

  ghost predicate BodyWithin(body: Body, names: iset<string>, params: seq<string>) {
    match body
    case Record(fs) => forall i | 0 <= i < |fs| :: Within(fs[i].typ, names, params)
    case Sum(vs) =>
      forall i | 0 <= i < |vs| :: forall k | 0 <= k < |vs[i].payload| :: Within(vs[i].payload[k].typ, names, params)
    case _ => true
  }

  lemma {:induction false} TypeEqReflexive(t: TypeRef, names: iset<string>, params: seq<string>)
    requires Within(t, names, params)
    ensures TypeEq(t, t, names, Scope(params, params))
  {
    match t
    case NamedRef(n) =>
      if n in params {
        var i :| 0 <= i < |params| && params[i] == n;
        assert SameParameter(n, n, Scope(params, params));
      }
    case AppRef(_, args) =>
      forall i | 0 <= i < |args| ensures TypeEq(args[i], args[i], names, Scope(params, params)) {
        TypeEqReflexive(args[i], names, params);
      }
    case WrapRef(w, a) =>
      TypeEqReflexive(a, names, params);
      if w == EffectOf { TypeEqEffect(a, names, Scope(params, params)); }
    case PairRef(_, a, b) => TypeEqReflexive(a, names, params); TypeEqReflexive(b, names, params);
    case _ =>
  }

  /** An `Effect` around the other side does not matter either. */
  lemma {:induction false} TypeEqEffect(a: TypeRef, names: iset<string>, scope: Scope)
    requires TypeEq(a, a, names, scope)
    ensures TypeEq(a, WrapRef(EffectOf, a), names, scope)
  {
    TypeEqEffectRight(a, a, names, scope);
  }

  lemma {:induction false} TypeEqEffectRight(t: TypeRef, u: TypeRef, names: iset<string>, scope: Scope)
    requires TypeEq(t, u, names, scope)
    ensures TypeEq(t, WrapRef(EffectOf, u), names, scope)
    decreases t
  {
    if IsEffect(t) { TypeEqEffectRight(t.inner, u, names, scope); }
  }

  datatype NormalField = NormalField(name: string, typ: TypeRef, preds: Option<set<Pred>>)

  datatype NormalVariant = NormalVariant(name: string, payload: seq<TypeRef>)

  function NormalFields(fs: seq<Field>): seq<NormalField> {
    seq(|fs|, i requires 0 <= i < |fs| => NormalField(fs[i].name, fs[i].typ, CanonicalRefinement(fs[i].refinement)))
  }

  function NormalVariants(vs: seq<Variant>): seq<NormalVariant> {
    seq(|vs|, i requires 0 <= i < |vs| => NormalVariant(vs[i].name, PayloadTypes(vs[i].payload)))
  }

  /** Fields or variants in another order, predicates in another order or spelling, other payload names, or
      other predicates on an opaque type. */
  ghost predicate Rearranged(x: Body, y: Body) {
    match (x, y)
    case (Refined(a, r), Refined(b, s)) => a == b && CanonicalRefinement(r) == CanonicalRefinement(s)
    case (Opaque(a, _), Opaque(b, _)) => a == b
    case (Record(fs), Record(gs)) => multiset(NormalFields(fs)) == multiset(NormalFields(gs))
    case (Sum(vs), Sum(ws)) => multiset(NormalVariants(vs)) == multiset(NormalVariants(ws))
    case _ => false
  }

  lemma RearrangedBodyEq(x: Body, y: Body, names: iset<string>, params: seq<string>)
    requires Rearranged(x, y) && BodyWithin(x, names, params)
    ensures BodyEq(x, y, names, Scope(params, params))
  {
    var scope := Scope(params, params);
    match (x, y)
    case (Record(fs), Record(gs)) =>
      var related := iset q: (Field, Field) | NormalFields([q.0]) == NormalFields([q.1]) && Within(q.0.typ, names, params);
      forall i, j | 0 <= i < |fs| && 0 <= j < |gs|
        ensures NormalFields(fs)[i] == NormalFields(gs)[j] <==> (fs[i], gs[j]) in related
      {
        assert NormalFields([fs[i]]) == [NormalFields(fs)[i]] && NormalFields([gs[j]]) == [NormalFields(gs)[j]];
      }
      MatchedIffMultisets(fs, gs, related, NormalFields(fs), NormalFields(gs));
      forall q | q in related ensures q in FieldPairs(names, scope) {
        assert NormalFields([q.0])[0] == NormalFields([q.1])[0];
        TypeEqReflexive(q.0.typ, names, params);
      }
      MatchedMonotone(fs, gs, related, FieldPairs(names, scope));
    case (Sum(vs), Sum(ws)) =>
      var related := iset q: (Variant, Variant) | NormalVariants([q.0]) == NormalVariants([q.1]) &&
        forall k | 0 <= k < |q.0.payload| :: Within(q.0.payload[k].typ, names, params);
      forall i, j | 0 <= i < |vs| && 0 <= j < |ws|
        ensures NormalVariants(vs)[i] == NormalVariants(ws)[j] <==> (vs[i], ws[j]) in related
      {
        assert NormalVariants([vs[i]]) == [NormalVariants(vs)[i]] && NormalVariants([ws[j]]) == [NormalVariants(ws)[j]];
      }
      MatchedIffMultisets(vs, ws, related, NormalVariants(vs), NormalVariants(ws));
      forall q | q in related ensures q in VariantPairs(names, scope) {
        NormalVariantEq(q.0, q.1, names, params);
      }
      MatchedMonotone(vs, ws, related, VariantPairs(names, scope));
    case _ =>
  }

  lemma NormalVariantEq(v: Variant, w: Variant, names: iset<string>, params: seq<string>)
    requires NormalVariants([v]) == NormalVariants([w])
    requires forall k | 0 <= k < |v.payload| :: Within(v.payload[k].typ, names, params)
    ensures VariantEq(v, w, names, Scope(params, params))
  {
    assert NormalVariants([v])[0] == NormalVariants([w])[0];
    assert |PayloadTypes(v.payload)| == |PayloadTypes(w.payload)|;
    forall k | 0 <= k < |v.payload|
      ensures TypeEq(v.payload[k].typ, w.payload[k].typ, names, Scope(params, params))
    {
      assert PayloadTypes(v.payload)[k] == PayloadTypes(w.payload)[k];
      TypeEqReflexive(v.payload[k].typ, names, params);
    }
  }

  /** The form of a type stays as it is when the declarations it reaches are rearranged or respelled and the
      others change in any way. `reach` is any set of names that holds those the type and the declarations
      of its own names mention. */
  lemma RearrangedSameForm(t: TypeRef, a: Table, b: Table, reach: iset<string>)
    requires Within(t, reach, []) && Scoped(t, [], a) && Scoped(t, [], b) && WellScoped(a) && WellScoped(b)
    requires forall n | n in reach ::
      (n !in a && n !in b) ||
      (n in a && n in b && a[n].typeParams == b[n].typeParams && Rearranged(a[n].body, b[n].body) &&
       BodyWithin(a[n].body, reach, a[n].typeParams))
    ensures Canon(t, a, {}, map[]) == Canon(t, b, {}, map[])
  {
    forall n | n in reach ensures NameEq(n, a, b, reach) {
      if n in a {
        RearrangedBodyEq(a[n].body, b[n].body, reach, a[n].typeParams);
      }
    }
    TypeEqReflexive(t, reach, []);
    SameGraphSameForm(t, t, a, b, reach);
  }

  // ----- renaming a type parameter -----

  function Renamed(n: string, old': string, new': string): string {
    if n == old' then new' else n
  }

  function RenameRef(t: TypeRef, old': string, new': string): TypeRef {
    match t
    case NamedRef(n) => NamedRef(Renamed(n, old', new'))
    case AppRef(n, args) => AppRef(n, seq(|args|, i requires 0 <= i < |args| => RenameRef(args[i], old', new')))
    case WrapRef(w, a) => WrapRef(w, RenameRef(a, old', new'))
    case PairRef(p, a, b) => PairRef(p, RenameRef(a, old', new'), RenameRef(b, old', new'))
    case _ => t
  }

  function RenamePayload(payload: seq<PayloadField>, old': string, new': string): seq<PayloadField> {
    seq(|payload|, k requires 0 <= k < |payload| => payload[k].(typ := RenameRef(payload[k].typ, old', new')))
  }

  function RenameBody(body: Body, old': string, new': string): Body {
    match body
    case Record(fs) =>
      Record(seq(|fs|, i requires 0 <= i < |fs| => fs[i].(typ := RenameRef(fs[i].typ, old', new'))))
    case Sum(vs) =>
      Sum(seq(|vs|, i requires 0 <= i < |vs| => vs[i].(payload := RenamePayload(vs[i].payload, old', new'))))
    case _ => body
  }

  function RenameParams(params: seq<string>, old': string, new': string): seq<string> {
    seq(|params|, i requires 0 <= i < |params| => Renamed(params[i], old', new'))
  }

  function RenameParameter(d: TypeDecl, old': string, new': string): TypeDecl {
    d.(typeParams := RenameParams(d.typeParams, old', new'), body := RenameBody(d.body, old', new'))
  }

  ghost predicate Differs(n: string, name: string) {
    n != name
  }

  ghost function AllBut(name: string): iset<string> {
    iset n: string | Differs(n, name)
  }

  lemma RenamedParamsMembers(params: seq<string>, old': string, new': string)
    ensures forall m | m in RenameParams(params, old', new') :: m in params || m == new'
  {
    forall m | m in RenameParams(params, old', new') ensures m in params || m == new' {
      var i :| 0 <= i < |params| && RenameParams(params, old', new')[i] == m;
      assert params[i] in params;
    }
  }

  lemma {:induction false} RenameTypeEq(t: TypeRef, params: seq<string>, old': string, new': string)
    requires old' in params && Within(t, AllBut(new'), [])
    ensures TypeEq(t, RenameRef(t, old', new'), AllBut(new'), Scope(params, RenameParams(params, old', new')))
  {
    var scope := Scope(params, RenameParams(params, old', new'));
    match t
    case NamedRef(n) =>
      if n in params {
        var i :| 0 <= i < |params| && params[i] == n;
        assert scope.right[i] == Renamed(n, old', new');
        assert SameParameter(n, Renamed(n, old', new'), scope);
      } else {
        RenamedParamsMembers(params, old', new');
      }
    case AppRef(_, args) =>
      forall i | 0 <= i < |args|
        ensures TypeEq(args[i], RenameRef(args[i], old', new'), AllBut(new'), scope)
      {
        RenameTypeEq(args[i], params, old', new');
      }
    case WrapRef(w, a) =>
      RenameTypeEq(a, params, old', new');
      if w == EffectOf { TypeEqEffectRight(a, RenameRef(a, old', new'), AllBut(new'), scope); }
    case PairRef(_, a, b) =>
      RenameTypeEq(a, params, old', new');
      RenameTypeEq(b, params, old', new');
    case _ =>
  }

  /** Lists that match index by index can be paired off. */
  lemma {:induction false} MatchedInOrder<T>(xs: seq<T>, ys: seq<T>, related: iset<(T, T)>)
    requires |xs| == |ys| && forall i | 0 <= i < |xs| :: (xs[i], ys[i]) in related
    ensures Matched(xs, ys, related)
  {
    if xs != [] {
      assert Without(ys, 0) == ys[1..];
      MatchedInOrder(xs[1..], ys[1..], related);
    }
  }

  lemma RenameBodyEq(body: Body, params: seq<string>, old': string, new': string)
    requires old' in params && BodyWithin(body, AllBut(new'), [])
    ensures BodyEq(body, RenameBody(body, old', new'), AllBut(new'), Scope(params, RenameParams(params, old', new')))
  {
    var scope := Scope(params, RenameParams(params, old', new'));
    match (body, RenameBody(body, old', new'))
    case (Record(fs), Record(gs)) =>
      forall i | 0 <= i < |fs| ensures (fs[i], gs[i]) in FieldPairs(AllBut(new'), scope) {
        RenameTypeEq(fs[i].typ, params, old', new');
      }
      MatchedInOrder(fs, gs, FieldPairs(AllBut(new'), scope));
    case (Sum(vs), Sum(ws)) =>
      forall i | 0 <= i < |vs| ensures (vs[i], ws[i]) in VariantPairs(AllBut(new'), scope) {
        forall k | 0 <= k < |vs[i].payload|
          ensures TypeEq(vs[i].payload[k].typ, ws[i].payload[k].typ, AllBut(new'), scope)
        {
          RenameTypeEq(vs[i].payload[k].typ, params, old', new');
        }
      }
      MatchedInOrder(vs, ws, VariantPairs(AllBut(new'), scope));
    case _ =>
  }

  /** `new'` is neither a declared name nor a parameter, and no declaration mentions it. */
  ghost predicate Fresh(a: Table, new': string) {
    new' !in a && new' !in Parameters(a) && forall m | m in a :: BodyWithin(a[m].body, AllBut(new'), [])
  }

  lemma RenamedParameters(a: Table, n: string, old': string, new': string)
    requires n in a
    ensures Parameters(a[n := RenameParameter(a[n], old', new')]) <= Parameters(a) + {new'}
  {
    var b := a[n := RenameParameter(a[n], old', new')];
    forall q | q in Parameters(b) ensures q in Parameters(a) + {new'} {
      var m :| m in b && q in b[m].typeParams;
      if m == n { RenamedParamsMembers(a[n].typeParams, old', new'); }
    }
  }

  /** A type elsewhere stays scoped. */
  lemma {:induction false} ScopedStill(r: TypeRef, params: seq<string>, a: Table, n: string, old': string, new': string)
    requires n in a && old' in a[n].typeParams && Scoped(r, params, a) && Within(r, AllBut(new'), [])
    ensures Scoped(r, params, a[n := RenameParameter(a[n], old', new')])
  {
    match r
    case NamedRef(m) => RenamedParameters(a, n, old', new');
    case AppRef(m, args) =>
      forall i | 0 <= i < |args| ensures Scoped(args[i], params, a[n := RenameParameter(a[n], old', new')]) {
        ScopedStill(args[i], params, a, n, old', new');
      }
    case WrapRef(_, c) => ScopedStill(c, params, a, n, old', new');
    case PairRef(_, c, d) => ScopedStill(c, params, a, n, old', new'); ScopedStill(d, params, a, n, old', new');
    case _ =>
  }

  lemma RenamedIn(params: seq<string>, m: string, old': string, new': string)
    requires m in params
    ensures Renamed(m, old', new') in RenameParams(params, old', new')
  {
    var i :| 0 <= i < |params| && params[i] == m;
    assert RenameParams(params, old', new')[i] == Renamed(m, old', new');
  }

  /** A type of the renamed declaration is scoped under the new parameters. */
  lemma {:induction false} ScopedRenamed(r: TypeRef, a: Table, n: string, old': string, new': string)
    requires n in a && old' in a[n].typeParams && Scoped(r, a[n].typeParams, a) && Within(r, AllBut(new'), [])
    ensures Scoped(RenameRef(r, old', new'), RenameParams(a[n].typeParams, old', new'), a[n := RenameParameter(a[n], old', new')])
  {
    match r
    case NamedRef(m) =>
      RenamedParameters(a, n, old', new');
      if m in a[n].typeParams { RenamedIn(a[n].typeParams, m, old', new'); }
    case AppRef(m, args) =>
      forall i | 0 <= i < |args|
        ensures Scoped(RenameRef(args[i], old', new'), RenameParams(a[n].typeParams, old', new'),
                       a[n := RenameParameter(a[n], old', new')])
      {
        ScopedRenamed(args[i], a, n, old', new');
      }
    case WrapRef(_, c) => ScopedRenamed(c, a, n, old', new');
    case PairRef(_, c, d) => ScopedRenamed(c, a, n, old', new'); ScopedRenamed(d, a, n, old', new');
    case _ =>
  }

  /** Renaming a parameter to a fresh name keeps every name in its scope. */
  lemma RenamedWellScoped(a: Table, n: string, old': string, new': string)
    requires n in a && old' in a[n].typeParams && WellScoped(a) && Fresh(a, new')
    ensures WellScoped(a[n := RenameParameter(a[n], old', new')])
  {
    hide Scoped, Within;
    var b := a[n := RenameParameter(a[n], old', new')];
    forall m | m in b ensures NoRepeats(b[m].typeParams) && BodyScoped(b[m].body, b[m].typeParams, b) {
      if m == n {
        RenamedNoRepeats(a[n].typeParams, old', new') by { assert new' !in a[n].typeParams; }
        forall r | Scoped(r, a[n].typeParams, a) && Within(r, AllBut(new'), [])
          ensures Scoped(RenameRef(r, old', new'), b[n].typeParams, b)
        {
          ScopedRenamed(r, a, n, old', new');
        }
      } else {
        forall r | Scoped(r, a[m].typeParams, a) && Within(r, AllBut(new'), []) ensures Scoped(r, a[m].typeParams, b) {
          ScopedStill(r, a[m].typeParams, a, n, old', new');
        }
      }
    }
  }

  lemma RenamedNoRepeats(params: seq<string>, old': string, new': string)
    requires NoRepeats(params) && new' !in params
    ensures NoRepeats(RenameParams(params, old', new'))
  {
  }

  /** Renaming a type parameter of any declaration to a name that occurs nowhere changes no form. */
  lemma RenamedParameterSameForm(t: TypeRef, a: Table, n: string, old': string, new': string)
    requires n in a && old' in a[n].typeParams && WellScoped(a) && Fresh(a, new')
    requires Scoped(t, [], a) && Within(t, AllBut(new'), [])
    ensures Canon(t, a, {}, map[]) == Canon(t, a[n := RenameParameter(a[n], old', new')], {}, map[])
  {
    hide Scoped;
    RenamedWellScoped(a, n, old', new');
    ScopedStill(t, [], a, n, old', new');
    var b := a[n := RenameParameter(a[n], old', new')];
    forall m | m in AllBut(new') ensures NameEq(m, a, b, AllBut(new')) {
      if m == n {
        RenameBodyEq(a[n].body, a[n].typeParams, old', new');
      } else if m in a {
        BodyWithinMore(a[m].body, AllBut(new'), a[m].typeParams);
        RearrangedBodyEq(a[m].body, a[m].body, AllBut(new'), a[m].typeParams);
      }
    }
    TypeEqReflexive(t, AllBut(new'), []);
    SameGraphSameForm(t, t, a, b, AllBut(new'));
  }

  lemma {:induction false} WithinMore(t: TypeRef, names: iset<string>, params: seq<string>)
    requires Within(t, names, [])
    ensures Within(t, names, params)
  {
    match t
    case AppRef(_, args) =>
      forall i | 0 <= i < |args| ensures Within(args[i], names, params) { WithinMore(args[i], names, params); }
    case WrapRef(_, a) => WithinMore(a, names, params);
    case PairRef(_, a, b) => WithinMore(a, names, params); WithinMore(b, names, params);
    case _ =>
  }

  lemma BodyWithinMore(body: Body, names: iset<string>, params: seq<string>)
    requires BodyWithin(body, names, [])
    ensures BodyWithin(body, names, params)
  {
    forall t | Within(t, names, []) ensures Within(t, names, params) { WithinMore(t, names, params); }
  }
}
