/** The canonical form of a type in a contract (`canon_type_in`, `canon_named_in`), as a tree.

    The checker renders the form as text and sorts the rendered fields and variants, so that their order does
    not show; a multiset stands for such a sorted list here. A name met again on the path from the root is cut
    to a back-reference. `seen` holds the names on that path. */
module Contract {
  import opened Types
  import opened Refinements

  datatype Form =
    | BaseForm(base: BaseType)
    | AtomForm(atom: Atom)
    | WrapForm(wrapper: Wrapper, inner: Form)
    | PairForm(pairing: Pairing, first: Form, second: Form)
    | NonBoundary
    | AppForm(head: Form, args: seq<Form>)
    | BackReference(name: string)
    | Undeclared(name: string)
    | Declared(name: string, body: BodyForm)

  datatype BodyForm =
    | RefinedForm(base: BaseType, preds: Option<set<Pred>>)
    | OpaqueForm(base: BaseType)
    | RecordForm(fields: multiset<FieldForm>)
    | SumForm(variants: multiset<VariantForm>)

  datatype FieldForm = FieldForm(name: string, typ: Form, preds: Option<set<Pred>>)

  datatype VariantForm = VariantForm(name: string, payload: seq<Form>)

  /** The forms the type parameters in scope stand for. */
  type Binding = map<string, Form>

  predicate OnTheWire(w: Wrapper) {
    w in {OptionOf, ListOf, HttpResultOf}
  }

  /** An `Effect` wraps the handler, not the payload, and leaves no trace. */
  function Canon(t: TypeRef, types: Table, seen: set<string>, bound: Binding): Form
    decreases types.Keys - seen, 1, t, 1
  {
    match t
    case BaseRef(b) => BaseForm(b)
    case AtomRef(a) => AtomForm(a)
    case WrapRef(w, a) =>
      if w == EffectOf then Canon(a, types, seen, bound)
      else if OnTheWire(w) then WrapForm(w, Canon(a, types, seen, bound))
      else NonBoundary
    case PairRef(p, a, b) => PairForm(p, Canon(a, types, seen, bound), Canon(b, types, seen, bound))
    case AppRef(n, args) =>
      var forms := CanonAll(args, types, seen, bound);
      var inner := if n in types then Zip(types[n].typeParams, forms) else map[];
      AppForm(CanonNamed(n, types, seen, inner), forms)
    case NamedRef(n) => if n in bound then bound[n] else CanonNamed(n, types, seen, bound)
    case FnRef(_, _) => NonBoundary
    case HistoryRef(_) => NonBoundary
  }

  function CanonAll(ts: seq<TypeRef>, types: Table, seen: set<string>, bound: Binding): (r: seq<Form>)
    ensures |r| == |ts| && forall i | 0 <= i < |ts| :: r[i] == Canon(ts[i], types, seen, bound)
    decreases types.Keys - seen, 1, ts, 0
  {
    if ts == [] then [] else [Canon(ts[0], types, seen, bound)] + CanonAll(ts[1..], types, seen, bound)
  }

  /** Parameters paired with argument forms, as far as both go; a repeated parameter keeps its last form. */
  function Zip(params: seq<string>, forms: seq<Form>): Binding {
    if params == [] || forms == [] then map[]
    else map[params[0] := forms[0]] + Zip(params[1..], forms[1..])
  }

  function CanonNamed(name: string, types: Table, seen: set<string>, bound: Binding): (f: Form)
    ensures (f.BackReference? || f.Undeclared? || f.Declared?) && f.name == name
    decreases types.Keys - seen, 0
  {
    if name in seen then BackReference(name)
    else if name !in types then Undeclared(name)
    else Declared(name, CanonBody(types[name].body, types, seen + {name}, bound))
  }

  /** An opaque type's predicates are not part of the contract, nor are the names of payload fields. */
  function CanonBody(body: Body, types: Table, seen: set<string>, bound: Binding): BodyForm
    decreases types.Keys - seen, 3
  {
    match body
    case Refined(b, r) => RefinedForm(b, CanonicalRefinement(r))
    case Opaque(b, _) => OpaqueForm(b)
    case Record(fs) =>
      RecordForm(multiset(seq(|fs|, i requires 0 <= i < |fs| => CanonField(fs[i], types, seen, bound))))
    case Sum(vs) =>
      SumForm(multiset(seq(|vs|, i requires 0 <= i < |vs| => CanonVariant(vs[i], types, seen, bound))))
  }

  function CanonField(f: Field, types: Table, seen: set<string>, bound: Binding): FieldForm
    decreases types.Keys - seen, 2
  {
    FieldForm(f.name, Canon(f.typ, types, seen, bound), CanonicalRefinement(f.refinement))
  }

  function CanonVariant(v: Variant, types: Table, seen: set<string>, bound: Binding): VariantForm
    decreases types.Keys - seen, 2
  {
    VariantForm(v.name, CanonAll(PayloadTypes(v.payload), types, seen, bound))
  }

  function PayloadTypes(payload: seq<PayloadField>): seq<TypeRef> {
    seq(|payload|, i requires 0 <= i < |payload| => payload[i].typ)
  }

  /** What a contract cannot carry, past `Effect`. */
  predicate Unsendable(t: TypeRef) {
    match t
    case WrapRef(w, a) => if w == EffectOf then Unsendable(a) else w in {HttpOutcomeOf, QueryOf, StreamOf, ConnectionOf}
    case FnRef(_, _) => true
    case HistoryRef(_) => true
    case _ => false
  }

  /** Outside a declaration's parameters, exactly these have no form of their own. */
  lemma {:induction false} NonBoundaryExactly(t: TypeRef, types: Table, seen: set<string>)
    ensures Canon(t, types, seen, map[]) == NonBoundary <==> Unsendable(t)
  {
    if t.WrapRef? && t.wrapper == EffectOf { NonBoundaryExactly(t.inner, types, seen); }
  }

  // ----- equal declaration graphs -----

  predicate IsEffect(t: TypeRef) {
    t.WrapRef? && t.wrapper == EffectOf
  }

  /** The kinds of type a contract cannot carry all render alike. */
  predicate Outside(t: TypeRef) {
    match t
    case WrapRef(w, _) => w != EffectOf && !OnTheWire(w)
    case FnRef(_, _) => true
    case HistoryRef(_) => true
    case _ => false
  }

  /** The type parameters in scope on both sides: the i-th of one side stands for the i-th of the other. */
  datatype Scope = Scope(left: seq<string>, right: seq<string>)

  const CLOSED := Scope([], [])

  predicate SameParameter(m: string, n: string, scope: Scope) {
    exists i | 0 <= i < |scope.left| && i < |scope.right| :: scope.left[i] == m && scope.right[i] == n
  }

  /** `t` and `u` are the same type but for `Effect` wrappers, with declared names in `same` and parameters
      paired by `scope`. */
  ghost predicate TypeEq(t: TypeRef, u: TypeRef, same: iset<string>, scope: Scope)
    decreases t, u
  {
    if IsEffect(t) then TypeEq(t.inner, u, same, scope)
    else if IsEffect(u) then TypeEq(t, u.inner, same, scope)
    else
      match t
      case BaseRef(_) => u == t
      case AtomRef(_) => u == t
      case PairRef(p, a, b) =>
        u.PairRef? && p == u.pairing && TypeEq(a, u.first, same, scope) && TypeEq(b, u.second, same, scope)
      case AppRef(n, args) =>
        u.AppRef? && n == u.name && n in same && |args| == |u.args| &&
        forall i | 0 <= i < |args| :: TypeEq(args[i], u.args[i], same, scope)
      case NamedRef(n) =>
        u.NamedRef? &&
        (SameParameter(n, u.name, scope) || (n !in scope.left && u.name !in scope.right && n == u.name && n in same))
      case WrapRef(w, a) =>
        if OnTheWire(w) then u.WrapRef? && w == u.wrapper && TypeEq(a, u.inner, same, scope) else Outside(u)
      case FnRef(_, _) => Outside(u)
      case HistoryRef(_) => Outside(u)
  }

  ghost predicate FieldEq(f: Field, g: Field, same: iset<string>, scope: Scope) {
    f.name == g.name && TypeEq(f.typ, g.typ, same, scope) &&
    CanonicalRefinement(f.refinement) == CanonicalRefinement(g.refinement)
  }

  ghost predicate VariantEq(v: Variant, w: Variant, same: iset<string>, scope: Scope) {
    v.name == w.name && |v.payload| == |w.payload| &&
    forall i | 0 <= i < |v.payload| :: TypeEq(v.payload[i].typ, w.payload[i].typ, same, scope)
  }

  function Without<T>(s: seq<T>, j: nat): seq<T>
    requires j < |s|
  {
    s[..j] + s[j + 1..]
  }

  /** The elements of the two lists can be paired off by `related`, in any order. */
  ghost predicate Matched<T>(xs: seq<T>, ys: seq<T>, related: iset<(T, T)>) {
    if xs == [] then ys == []
    else exists j | 0 <= j < |ys| :: (xs[0], ys[j]) in related && Matched(xs[1..], Without(ys, j), related)
  }

  ghost function FieldPairs(same: iset<string>, scope: Scope): iset<(Field, Field)> {
    iset q: (Field, Field) | FieldEq(q.0, q.1, same, scope)
  }

  ghost function VariantPairs(same: iset<string>, scope: Scope): iset<(Variant, Variant)> {
    iset q: (Variant, Variant) | VariantEq(q.0, q.1, same, scope)
  }

  ghost predicate BodyEq(x: Body, y: Body, same: iset<string>, scope: Scope) {
    match (x, y)
    case (Refined(a, r), Refined(b, s)) => a == b && CanonicalRefinement(r) == CanonicalRefinement(s)
    case (Opaque(a, _), Opaque(b, _)) => a == b
    case (Record(fs), Record(gs)) => Matched(fs, gs, FieldPairs(same, scope))
    case (Sum(vs), Sum(ws)) => Matched(vs, ws, VariantPairs(same, scope))
    case _ => false
  }

  /** A name means the same in both tables, given that the names in `same` do. */
  ghost predicate NameEq(n: string, a: Table, b: Table, same: iset<string>) {
    (n !in a && n !in b) ||
    (n in a && n in b && |a[n].typeParams| == |b[n].typeParams| &&
     BodyEq(a[n].body, b[n].body, same, Scope(a[n].typeParams, b[n].typeParams)))
  }

  ghost predicate SameGraph(same: iset<string>, a: Table, b: Table) {
    forall n | n in same :: NameEq(n, a, b, same)
  }

  /** The types are equal for some names that are declared alike, in all they lead to. */
  ghost predicate EqualGraphs(t: TypeRef, u: TypeRef, a: Table, b: Table) {
    exists same: iset<string> :: SameGraph(same, a, b) && TypeEq(t, u, same, CLOSED)
  }

  // ----- equal multisets are matched lists -----

  lemma MultisetWithout<T>(s: seq<T>, j: nat)
    requires j < |s|
    ensures multiset(s) == multiset{s[j]} + multiset(Without(s, j))
  {
    assert s == s[..j] + [s[j]] + s[j + 1..];
  }

  /** Lists whose images are equal as multisets are the lists that can be paired off, when images are equal
      exactly for related elements. */
  lemma {:induction false} MatchedIffMultisets<T, F>(xs: seq<T>, ys: seq<T>, related: iset<(T, T)>, fs: seq<F>, gs: seq<F>)
    requires |fs| == |xs| && |gs| == |ys|
    requires forall i, j | 0 <= i < |xs| && 0 <= j < |ys| :: fs[i] == gs[j] <==> (xs[i], ys[j]) in related
    ensures multiset(fs) == multiset(gs) <==> Matched(xs, ys, related)
  {
    if xs == [] {
      if ys != [] { assert gs[0] in multiset(gs); }
    } else {
      assert fs == [fs[0]] + fs[1..];
      if multiset(fs) == multiset(gs) {
        assert fs[0] in multiset(gs);
        var j :| 0 <= j < |gs| && gs[j] == fs[0];
        MultisetWithout(gs, j);
        assert multiset(fs[1..]) == multiset(gs) - multiset{fs[0]};
        MatchedRest(xs, ys, related, fs, gs, j);
      } else if Matched(xs, ys, related) {
        var j :| 0 <= j < |ys| && (xs[0], ys[j]) in related && Matched(xs[1..], Without(ys, j), related);
        MatchedRest(xs, ys, related, fs, gs, j);
        MultisetWithout(gs, j);
      }
    }
  }

  lemma {:induction false} MatchedRest<T, F>(xs: seq<T>, ys: seq<T>, related: iset<(T, T)>, fs: seq<F>, gs: seq<F>, j: nat)
    requires |fs| == |xs| > 0 && |gs| == |ys| && j < |ys|
    requires forall i, k | 0 <= i < |xs| && 0 <= k < |ys| :: fs[i] == gs[k] <==> (xs[i], ys[k]) in related
    ensures multiset(fs[1..]) == multiset(Without(gs, j)) <==> Matched(xs[1..], Without(ys, j), related)
    decreases xs[1..]
  {
    forall i, k | 0 <= i < |xs[1..]| && 0 <= k < |Without(ys, j)|
      ensures fs[1..][i] == Without(gs, j)[k] <==> (xs[1..][i], Without(ys, j)[k]) in related
    {
      var k' := if k < j then k else k + 1;
      assert Without(ys, j)[k] == ys[k'] && Without(gs, j)[k] == gs[k'];
    }
    MatchedIffMultisets(xs[1..], Without(ys, j), related, fs[1..], Without(gs, j));
  }

  lemma {:induction false} MatchedMonotone<T>(xs: seq<T>, ys: seq<T>, r: iset<(T, T)>, s: iset<(T, T)>)
    requires Matched(xs, ys, r) && r <= s
    ensures Matched(xs, ys, s)
  {
    if xs != [] {
      var j :| 0 <= j < |ys| && (xs[0], ys[j]) in r && Matched(xs[1..], Without(ys, j), r);
      MatchedMonotone(xs[1..], Without(ys, j), r, s);
    }
  }

  lemma {:induction false} TypeEqMonotone(t: TypeRef, u: TypeRef, r: iset<string>, s: iset<string>, scope: Scope)
    requires TypeEq(t, u, r, scope) && r <= s
    ensures TypeEq(t, u, s, scope)
    decreases t, u
  {
    if IsEffect(t) {
      TypeEqMonotone(t.inner, u, r, s, scope);
    } else if IsEffect(u) {
      TypeEqMonotone(t, u.inner, r, s, scope);
    } else if t.PairRef? {
      TypeEqMonotone(t.first, u.first, r, s, scope);
      TypeEqMonotone(t.second, u.second, r, s, scope);
    } else if t.AppRef? {
      forall i | 0 <= i < |t.args| ensures TypeEq(t.args[i], u.args[i], s, scope) {
        TypeEqMonotone(t.args[i], u.args[i], r, s, scope);
      }
    } else if t.WrapRef? && !Outside(t) {
      TypeEqMonotone(t.inner, u.inner, r, s, scope);
    }
  }

  lemma BodyEqMonotone(x: Body, y: Body, r: iset<string>, s: iset<string>, scope: Scope)
    requires BodyEq(x, y, r, scope) && r <= s
    ensures BodyEq(x, y, s, scope)
  {
    forall t, u | TypeEq(t, u, r, scope) ensures TypeEq(t, u, s, scope) { TypeEqMonotone(t, u, r, s, scope); }
    match (x, y)
    case (Record(fs), Record(gs)) => MatchedMonotone(fs, gs, FieldPairs(r, scope), FieldPairs(s, scope));
    case (Sum(vs), Sum(ws)) => MatchedMonotone(vs, ws, VariantPairs(r, scope), VariantPairs(s, scope));
    case _ =>
  }

  // ----- the form tells declaration graphs apart exactly -----

  /** The names with equal forms once the names in `seen` are on the path. */
  ghost function Alike(a: Table, b: Table, seen: set<string>): iset<string> {
    iset n: string | CanonNamed(n, a, seen, map[]) == CanonNamed(n, b, seen, map[])
  }

  lemma {:induction false} CanonIffTypeEq(t: TypeRef, u: TypeRef, a: Table, b: Table, seen: set<string>)
    requires ParameterFree(a) && ParameterFree(b)
    ensures Canon(t, a, seen, map[]) == Canon(u, b, seen, map[]) <==> TypeEq(t, u, Alike(a, b, seen), CLOSED)
    decreases t, u, 1
  {
    hide CanonNamed, CanonBody;
    if IsEffect(t) {
      CanonIffTypeEq(t.inner, u, a, b, seen);
    } else if IsEffect(u) {
      CanonIffTypeEq(t, u.inner, a, b, seen);
    } else if t.PairRef? && u.PairRef? {
      CanonIffTypeEq(t.first, u.first, a, b, seen);
      CanonIffTypeEq(t.second, u.second, a, b, seen);
    } else if t.WrapRef? && u.WrapRef? {
      CanonIffTypeEq(t.inner, u.inner, a, b, seen);
    } else if t.AppRef? && u.AppRef? {
      CanonAppIffTypeEq(t, u, a, b, seen);
    }
  }

  lemma {:induction false} CanonAppIffTypeEq(t: TypeRef, u: TypeRef, a: Table, b: Table, seen: set<string>)
    requires ParameterFree(a) && ParameterFree(b) && t.AppRef? && u.AppRef?
    ensures Canon(t, a, seen, map[]) == Canon(u, b, seen, map[]) <==> TypeEq(t, u, Alike(a, b, seen), CLOSED)
    decreases t, u, 0
  {
    hide CanonNamed, CanonBody;
    CanonAllIffTypeEq(t.args, u.args, a, b, seen);
    assert Canon(t, a, seen, map[]) == AppForm(CanonNamed(t.name, a, seen, map[]), CanonAll(t.args, a, seen, map[]));
    assert Canon(u, b, seen, map[]) == AppForm(CanonNamed(u.name, b, seen, map[]), CanonAll(u.args, b, seen, map[]));
  }

  lemma {:induction false} CanonAllIffTypeEq(ts: seq<TypeRef>, us: seq<TypeRef>, a: Table, b: Table, seen: set<string>)
    requires ParameterFree(a) && ParameterFree(b)
    ensures CanonAll(ts, a, seen, map[]) == CanonAll(us, b, seen, map[]) <==>
            |ts| == |us| && forall i | 0 <= i < |ts| :: TypeEq(ts[i], us[i], Alike(a, b, seen), CLOSED)
    decreases ts
  {
    var xs, ys := CanonAll(ts, a, seen, map[]), CanonAll(us, b, seen, map[]);
    if |ts| == |us| {
      forall i | 0 <= i < |ts| ensures xs[i] == ys[i] <==> TypeEq(ts[i], us[i], Alike(a, b, seen), CLOSED) {
        CanonIffTypeEq(ts[i], us[i], a, b, seen);
      }
    }
  }

  lemma CanonBodyIffBodyEq(x: Body, y: Body, a: Table, b: Table, seen: set<string>)
    requires ParameterFree(a) && ParameterFree(b)
    ensures CanonBody(x, a, seen, map[]) == CanonBody(y, b, seen, map[]) <==> BodyEq(x, y, Alike(a, b, seen), CLOSED)
  {
    match (x, y)
    case (Record(fs), Record(gs)) =>
      var xs := seq(|fs|, i requires 0 <= i < |fs| => CanonField(fs[i], a, seen, map[]));
      var ys := seq(|gs|, i requires 0 <= i < |gs| => CanonField(gs[i], b, seen, map[]));
      forall i, j | 0 <= i < |fs| && 0 <= j < |gs|
        ensures xs[i] == ys[j] <==> (fs[i], gs[j]) in FieldPairs(Alike(a, b, seen), CLOSED)
      {
        CanonIffTypeEq(fs[i].typ, gs[j].typ, a, b, seen);
      }
      MatchedIffMultisets(fs, gs, FieldPairs(Alike(a, b, seen), CLOSED), xs, ys);
      assert CanonBody(x, a, seen, map[]) == RecordForm(multiset(xs));
      assert CanonBody(y, b, seen, map[]) == RecordForm(multiset(ys));
    case (Sum(vs), Sum(ws)) =>
      var xs := seq(|vs|, i requires 0 <= i < |vs| => CanonVariant(vs[i], a, seen, map[]));
      var ys := seq(|ws|, i requires 0 <= i < |ws| => CanonVariant(ws[i], b, seen, map[]));
      forall i, j | 0 <= i < |vs| && 0 <= j < |ws|
        ensures xs[i] == ys[j] <==> (vs[i], ws[j]) in VariantPairs(Alike(a, b, seen), CLOSED)
      {
        CanonAllIffTypeEq(PayloadTypes(vs[i].payload), PayloadTypes(ws[j].payload), a, b, seen);
        assert (forall k | 0 <= k < |vs[i].payload| :: PayloadTypes(vs[i].payload)[k] == vs[i].payload[k].typ) &&
               (forall k | 0 <= k < |ws[j].payload| :: PayloadTypes(ws[j].payload)[k] == ws[j].payload[k].typ);
      }
      MatchedIffMultisets(vs, ws, VariantPairs(Alike(a, b, seen), CLOSED), xs, ys);
      assert CanonBody(x, a, seen, map[]) == SumForm(multiset(xs));
      assert CanonBody(y, b, seen, map[]) == SumForm(multiset(ys));
    case _ =>
  }

  /** Equal forms of a name, one step unfolded. */
  lemma AlikeStep(n: string, a: Table, b: Table, seen: set<string>)
    requires ParameterFree(a) && ParameterFree(b)
    ensures n in Alike(a, b, seen) <==> n in seen || NameEq(n, a, b, Alike(a, b, seen + {n}))
  {
    if n !in seen && n in a && n in b {
      CanonBodyIffBodyEq(a[n].body, b[n].body, a, b, seen + {n});
    }
  }

  lemma NameEqMonotone(n: string, a: Table, b: Table, r: iset<string>, s: iset<string>)
    requires NameEq(n, a, b, r) && r <= s
    ensures NameEq(n, a, b, s)
  {
    if n in a {
      BodyEqMonotone(a[n].body, b[n].body, r, s, Scope(a[n].typeParams, b[n].typeParams));
    }
  }

  ghost function Path(seen: set<string>): iset<string> {
    iset m: string | m in seen
  }

  ghost predicate UpTo(names: iset<string>, a: Table, b: Table, seen: set<string>) {
    forall n | n in names :: NameEq(n, a, b, names + Path(seen))
  }

  ghost predicate Supported(n: string, a: Table, b: Table, seen: set<string>) {
    exists names: iset<string> :: n in names && UpTo(names, a, b, seen)
  }

  ghost function Largest(a: Table, b: Table, seen: set<string>): iset<string> {
    iset n: string | Supported(n, a, b, seen)
  }

  lemma LargestUpTo(a: Table, b: Table, seen: set<string>)
    ensures UpTo(Largest(a, b, seen), a, b, seen)
  {
    var all := Largest(a, b, seen);
    forall n | n in all ensures NameEq(n, a, b, all + Path(seen)) {
      var names: iset<string> :| n in names && UpTo(names, a, b, seen);
      assert forall k | k in names :: Supported(k, a, b, seen);
      NameEqMonotone(n, a, b, names + Path(seen), all + Path(seen));
    }
  }

  /** Names with equal forms have equal declaration graphs, up to the names on the path. */
  lemma {:induction false} AlikeUpTo(a: Table, b: Table, seen: set<string>)
    requires ParameterFree(a) && ParameterFree(b)
    ensures Alike(a, b, seen) <= Largest(a, b, seen) + Path(seen)
    decreases a.Keys - seen
  {
    forall n | n in Alike(a, b, seen) ensures n in Largest(a, b, seen) + Path(seen) {
      AlikeStep(n, a, b, seen);
      if n !in seen {
        var inside := seen + {n};
        var names := iset{n};
        if n in a {
          AlikeUpTo(a, b, inside);
          LargestUpTo(a, b, inside);
          names := Largest(a, b, inside) + iset{n};
          var reach := names + Path(seen);
          NameEqMonotone(n, a, b, Alike(a, b, inside), reach);
          forall k | k in names ensures NameEq(k, a, b, reach) {
            if k != n { NameEqMonotone(k, a, b, Largest(a, b, inside) + Path(inside), reach); }
          }
        }
        assert n in names && UpTo(names, a, b, seen);
        assert Supported(n, a, b, seen);
      }
    }
  }

  lemma {:induction false} SameGraphAlike(same: iset<string>, a: Table, b: Table, seen: set<string>)
    requires ParameterFree(a) && ParameterFree(b) && SameGraph(same, a, b)
    ensures same <= Alike(a, b, seen)
    decreases a.Keys - seen
  {
    forall n | n in same ensures n in Alike(a, b, seen) {
      if n !in seen && n in a {
        SameGraphAlike(same, a, b, seen + {n});
        NameEqMonotone(n, a, b, same, Alike(a, b, seen + {n}));
      }
      AlikeStep(n, a, b, seen);
    }
  }

  lemma FormsEqualGraphs(t: TypeRef, u: TypeRef, a: Table, b: Table)
    requires ParameterFree(a) && ParameterFree(b) && TypeEq(t, u, Alike(a, b, {}), CLOSED)
    ensures EqualGraphs(t, u, a, b)
  {
    hide TypeEq, NameEq, Alike;
    AlikeUpTo(a, b, {});
    LargestUpTo(a, b, {});
    var same := Largest(a, b, {});
    assert Path({}) == iset{} && same + Path({}) == same;
    assert SameGraph(same, a, b);
    TypeEqMonotone(t, u, Alike(a, b, {}), same, CLOSED);
  }

  /** Over tables without type parameters two types have one canonical form exactly when their reachable
      declaration graphs are equal, up to the order of fields and variants, the spelling of predicate sets,
      opaque predicates, payload field names and `Effect` wrappers. Cutting cycles on the path loses nothing. */
  lemma FreeCanonIffSameGraph(t: TypeRef, u: TypeRef, a: Table, b: Table)
    requires ParameterFree(a) && ParameterFree(b)
    ensures Canon(t, a, {}, map[]) == Canon(u, b, {}, map[]) <==> EqualGraphs(t, u, a, b)
  {
    hide Canon, TypeEq, NameEq, Alike;
    CanonIffTypeEq(t, u, a, b, {});
    if Canon(t, a, {}, map[]) == Canon(u, b, {}, map[]) { FormsEqualGraphs(t, u, a, b); }
    if EqualGraphs(t, u, a, b) {
      var same: iset<string> :| SameGraph(same, a, b) && TypeEq(t, u, same, CLOSED);
      SameGraphAlike(same, a, b, {});
      TypeEqMonotone(t, u, same, Alike(a, b, {}), CLOSED);
    }
  }
}
