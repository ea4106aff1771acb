/** What the comparison must accept. A second table may copy the declarations of the first under other identities, places
    and names, list members in another order, spell predicates differently or drop them, and take the base type for a
    refined one: whatever the first side sends fits there. */
module BoundaryCopies {
  import opened Types
  import opened TypeCore
  import opened Resolution
  import opened Refinements
  import opened Boundary
  import opened BoundaryUniform
  import opened BoundaryExact
  import opened BoundaryMeaning

  /** The names the second table uses for those of the first. */
  type Names = map<string, string>

  // ----- words -----

  /** The second word says of the second table what the first says of the first, or the base type for a refined one.
      Both cross the boundary. */
  predicate SameWords(f: TypeRef, g: TypeRef, params: seq<string>, a: Table, names: Names) {
    match f
    case BaseRef(_) => g == f
    case AtomRef(_) => g == f
    case NamedRef(n) =>
      if n in params then g == f
      else n in a && a[n].typeParams == [] && n in names && names[n] !in params &&
           (g == NamedRef(names[n]) || (a[n].body.Refined? && g == BaseRef(a[n].body.base)))
    case WrapRef(w, x) =>
      w in {OptionOf, EffectOf, HttpResultOf, HttpOutcomeOf, ListOf} && g.WrapRef? && g.wrapper == w &&
      SameWords(x, g.inner, params, a, names)
    case PairRef(q, x, y) =>
      g.PairRef? && g.pairing == q && SameWords(x, g.first, params, a, names) && SameWords(y, g.second, params, a, names)
    case AppRef(n, xs) =>
      n in a && n in names && |xs| == |a[n].typeParams| && g.AppRef? && g.name == names[n] && |g.args| == |xs| &&
      forall i | 0 <= i < |xs| :: SameWords(xs[i], g.args[i], params, a, names)
    case FnRef(_, _) => false
    case HistoryRef(_) => false
  }

  /** The receiver drops the predicates or asks for the same. */
  ghost predicate Loosened(r: Refinement, s: Refinement) {
    s.None? || (r.Some? && forall q :: AsksFor(r.value, q) <==> AsksFor(s.value, q))
  }

  predicate SamePayloads(fs: seq<PayloadField>, gs: seq<PayloadField>, params: seq<string>, a: Table, names: Names) {
    PayloadNames(fs) == PayloadNames(gs) && |fs| == |gs| &&
    forall k | 0 <= k < |fs| :: SameWords(fs[k].typ, gs[k].typ, params, a, names)
  }

  /** Only opaque types must keep their name. */
  ghost predicate CopyBody(b: Body, c: Body, params: seq<string>, a: Table, names: Names, sameName: bool) {
    DistinctMembers(b) && DistinctMembers(c) &&
    match (b, c)
    case (Refined(x, r), Refined(y, s)) => x == y && Loosened(r, s)
    case (Opaque(x, r), Opaque(y, s)) => sameName && x == y && Loosened(r, s)
    case (Record(fs), Record(gs)) =>
      (forall name :: name in FieldNames(fs) <==> name in FieldNames(gs)) &&
      forall f, g | f in fs && g in gs && f.name == g.name :: SameWords(f.typ, g.typ, params, a, names)
    case (Sum(vs), Sum(ws)) =>
      (forall name :: name in VariantNames(vs) <==> name in VariantNames(ws)) &&
      forall v, w | v in vs && w in ws && v.name == w.name :: SamePayloads(v.payload, w.payload, params, a, names)
    case _ => false
  }

  ghost predicate Copied(n: string, a: Table, p: Table, names: Names)
    requires n in a
  {
    n in names && names[n] in p && p[names[n]].typeParams == a[n].typeParams &&
    CopyBody(a[n].body, p[names[n]].body, a[n].typeParams, a, names, names[n] == n)
  }

  /** Every declaration of the first table has its copy in the second. */
  ghost predicate Copy(a: Table, p: Table, names: Names) {
    WellKeyed(a) && WellKeyed(p) && forall n | n in a :: Copied(n, a, p, names)
  }

  // ----- types -----

  /** The same type in the second table's names, or the base type for a refined one. */
  predicate SameType(t: Ty, u: Ty, a: Table, names: Names) {
    match (t, u)
    case (Base(x), Base(y)) => x == y
    case (Atom(x), Atom(y)) => x == y
    case (Wrap(v, x), Wrap(w, y)) =>
      v == w && v in {OptionOf, EffectOf, HttpResultOf, HttpOutcomeOf, ListOf} && SameType(x, y, a, names)
    case (Pair(v, x, y), Pair(w, x', y')) => v == w && SameType(x, x', a, names) && SameType(y, y', a, names)
    case (Named(m, _, ps), Named(n, _, qs)) =>
      m in a && m in names && n == names[m] && |ps| == |qs| == |a[m].typeParams| &&
      forall i | 0 <= i < |ps| :: SameType(ps[i], qs[i], a, names)
    case (Named(m, k, _), Base(y)) => k == RefinedKind(y)
    case _ => false
  }

  ghost function Pairs(a: Table, names: Names): Relation {
    iset q: (Ty, Ty) | q.0.Named? && q.1.Named? && SameType(q.0, q.1, a, names)
  }

  lemma {:induction false} SameTypeWalks(t: Ty, u: Ty, a: Table, names: Names)
    requires SameType(t, u, a, names)
    ensures Walk(t, u, Pairs(a, names))
  {
    if t.Named? && u.Named? {
      forall i | 0 <= i < |t.args| ensures Walk(t.args[i], u.args[i], Pairs(a, names)) {
        SameTypeWalks(t.args[i], u.args[i], a, names);
      }
    } else if t.Wrap? {
      SameTypeWalks(t.inner, u.inner, a, names);
    } else if t.Pair? {
      SameTypeWalks(t.first, u.first, a, names);
      SameTypeWalks(t.second, u.second, a, names);
    }
  }

  // ----- members at their arguments -----

  ghost predicate SameSubst(s: Subst, z: Subst, params: seq<string>, a: Table, names: Names) {
    forall n | n in params :: n in s && n in z && SameType(s[n], z[n], a, names)
  }

  /** Two types once parameters have their arguments. */
  ghost predicate SameAt(t: Option<Ty>, u: Option<Ty>, s: Subst, z: Subst, a: Table, names: Names) {
    t.Some? && u.Some? && SameType(Substitute(t.value, s), Substitute(u.value, z), a, names)
  }

  lemma {:induction false} SameWordsSameType(f: TypeRef, g: TypeRef, params: seq<string>, s: Subst, z: Subst,
                                             a: Table, p: Table, names: Names)
    requires SameWords(f, g, params, a, names) && Copy(a, p, names) && SameSubst(s, z, params, a, names)
    ensures var vars := set q | q in params; SameAt(Resolve(f, a, vars), Resolve(g, p, vars), s, z, a, names)
    decreases f
  {
    hide CopyBody, SameSubst, Copied, SameType, Substitute;
    var vars := set q | q in params;
    match f
    case NamedRef(n) =>
      if n in params { ParamSame(n, params, s, z, a, names); } else { NameSame(n, g, params, s, z, a, p, names); }
    case BaseRef(b) => LeafSame(Base(b), s, z, a, names);
    case AtomRef(c) => LeafSame(Ty.Atom(c), s, z, a, names);
    case WrapRef(w, x) =>
      SameWordsSameType(x, g.inner, params, s, z, a, p, names);
      WrapSame(w, Resolve(x, a, vars).value, Resolve(g.inner, p, vars).value, s, z, a, names);
    case PairRef(q, x, y) =>
      SameWordsSameType(x, g.first, params, s, z, a, p, names);
      SameWordsSameType(y, g.second, params, s, z, a, p, names);
      PairSame(q, Resolve(x, a, vars).value, Resolve(g.first, p, vars).value, Resolve(y, a, vars).value,
               Resolve(g.second, p, vars).value, s, z, a, names);
    case AppRef(n, xs) =>
      forall i | 0 <= i < |xs| ensures SameAt(Resolve(xs[i], a, vars), Resolve(g.args[i], p, vars), s, z, a, names) {
        SameWordsSameType(xs[i], g.args[i], params, s, z, a, p, names);
      }
      UseSame(n, xs, g.args, vars, s, z, a, p, names);
    case _ =>
  }

  lemma LeafSame(t: Ty, s: Subst, z: Subst, a: Table, names: Names)
    requires t.Base? || t.Atom?
    ensures SameAt(Some(t), Some(t), s, z, a, names)
  {
  }

  lemma WrapSame(w: Wrapper, t: Ty, u: Ty, s: Subst, z: Subst, a: Table, names: Names)
    requires w in {OptionOf, EffectOf, HttpResultOf, HttpOutcomeOf, ListOf} && SameAt(Some(t), Some(u), s, z, a, names)
    ensures SameAt(Some(Wrap(w, t)), Some(Wrap(w, u)), s, z, a, names)
  {
  }

  lemma PairSame(q: Pairing, t: Ty, u: Ty, t': Ty, u': Ty, s: Subst, z: Subst, a: Table, names: Names)
    requires SameAt(Some(t), Some(u), s, z, a, names) && SameAt(Some(t'), Some(u'), s, z, a, names)
    ensures SameAt(Some(Pair(q, t, t')), Some(Pair(q, u, u')), s, z, a, names)
  {
  }

  lemma ParamSame(n: string, params: seq<string>, s: Subst, z: Subst, a: Table, names: Names)
    requires n in params && SameSubst(s, z, params, a, names)
    ensures SameAt(Some(Var(n)), Some(Var(n)), s, z, a, names)
  {
  }

  lemma NameSame(n: string, g: TypeRef, params: seq<string>, s: Subst, z: Subst, a: Table, p: Table, names: Names)
    requires n !in params && SameWords(NamedRef(n), g, params, a, names) && Copy(a, p, names)
    ensures var vars := set q | q in params; SameAt(Resolve(NamedRef(n), a, vars), Resolve(g, p, vars), s, z, a, names)
  {
    hide CopyBody;
    assert Copied(n, a, p, names);
  }

  lemma {:induction false} ResolveAllAt(rs: seq<TypeRef>, table: Table, vars: set<string>)
    requires forall i | 0 <= i < |rs| :: Resolve(rs[i], table, vars).Some?
    ensures var ts := ResolveAll(rs, table, vars);
      ts.Some? && |ts.value| == |rs| && forall i | 0 <= i < |rs| :: Resolve(rs[i], table, vars) == Some(ts.value[i])
  {
    if rs != [] { ResolveAllAt(rs[1..], table, vars); }
  }

  lemma UseSame(n: string, xs: seq<TypeRef>, ys: seq<TypeRef>, vars: set<string>, s: Subst, z: Subst, a: Table, p: Table, names: Names)
    requires Copy(a, p, names) && n in a && n in names && |xs| == |ys| == |a[n].typeParams|
    requires forall i | 0 <= i < |xs| :: SameAt(Resolve(xs[i], a, vars), Resolve(ys[i], p, vars), s, z, a, names)
    ensures SameAt(Resolve(AppRef(n, xs), a, vars), Resolve(AppRef(names[n], ys), p, vars), s, z, a, names)
  {
    hide CopyBody;
    ResolveAllAt(xs, a, vars);
    ResolveAllAt(ys, p, vars);
    assert Copied(n, a, p, names);
  }

  lemma {:induction false} ParamSubstSame(params: seq<string>, ps: seq<Ty>, qs: seq<Ty>, a: Table, names: Names)
    requires |params| == |ps| == |qs| && forall i | 0 <= i < |ps| :: SameType(ps[i], qs[i], a, names)
    ensures SameSubst(ParamSubst(params, ps), ParamSubst(params, qs), params, a, names)
  {
    if params != [] { ParamSubstSame(params[1..], ps[1..], qs[1..], a, names); }
  }

  /** Members in the same words walk at arguments that are the same. */
  lemma MembersSame(m: string, f: TypeRef, g: TypeRef, ps: seq<Ty>, qs: seq<Ty>, a: Table, p: Table, names: Names)
    requires Copy(a, p, names) && m in a && m in names && names[m] in p && SameWords(f, g, a[m].typeParams, a, names)
    requires p[names[m]].typeParams == a[m].typeParams && |ps| == |qs| == |a[m].typeParams|
    requires forall i | 0 <= i < |ps| :: SameType(ps[i], qs[i], a, names)
    ensures MembersWalk(Side(a[m], ps, a), f, Side(p[names[m]], qs, p), g, Pairs(a, names))
  {
    hide Copy, SameWords, Resolve, InstantiateField, Pairs, SameType;
    var params := a[m].typeParams;
    var s, z := ArgSubst(a[m], ps), ArgSubst(p[names[m]], qs);
    InstantiateIs(a[m], ps, f, a);
    InstantiateIs(p[names[m]], qs, g, p);
    ParamSubstSame(params, ps, qs, a, names);
    SameWordsSameType(f, g, params, s, z, a, p, names);
    var t, u := Resolved(a[m], f, a).value, Resolved(p[names[m]], g, p).value;
    SameTypeWalks(Substitute(t, s), Substitute(u, z), a, names);
  }

  lemma LoosenedMatches(r: Refinement, s: Refinement)
    requires Loosened(r, s)
    ensures RefinementsMatch(r, s)
  {
    CanonicalMeans(r, s);
  }

  lemma BodiesSame(m: string, ps: seq<Ty>, qs: seq<Ty>, a: Table, p: Table, names: Names)
    requires Copy(a, p, names) && m in a && m in names && names[m] in p && |ps| == |qs| == |a[m].typeParams|
    requires forall i | 0 <= i < |ps| :: SameType(ps[i], qs[i], a, names)
    ensures BodiesWalk(Side(a[m], ps, a), Side(p[names[m]], qs, p), m == names[m], Pairs(a, names))
  {
    hide SameWords, MembersWalk, Loosened, RefinementsMatch, SameType, Pairs;
    assert Copied(m, a, p, names);
    var x, y := Side(a[m], ps, a), Side(p[names[m]], qs, p);
    forall f, g | SameWords(f, g, a[m].typeParams, a, names) ensures MembersWalk(x, f, y, g, Pairs(a, names)) {
      MembersSame(m, f, g, ps, qs, a, p, names);
    }
    forall r, s | Loosened(r, s) ensures RefinementsMatch(r, s) { LoosenedMatches(r, s); }
    BodiesWalkMeans(x, y, m == names[m], Pairs(a, names));
  }

  lemma PairsSimulation(a: Table, p: Table, names: Names)
    requires Copy(a, p, names)
    ensures Simulation(Pairs(a, names), a, p)
  {
    hide BodiesWalk, CopyBody;
    forall q | q in Pairs(a, names) ensures NamedStep(q.0, q.1, a, p, Pairs(a, names)) {
      assert Copied(q.0.name, a, p, names);
      BodiesSame(q.0.name, q.0.args, q.1.args, a, p, names);
    }
  }

  /** Every type of the first side is accepted against the same type in the names of the copy, whatever is visited. */
  lemma CopyAccepted(t: Ty, u: Ty, a: Table, p: Table, names: Names, visited: set<NamePair>)
    requires Copy(a, p, names) && SameType(t, u, a, names)
    ensures Compat(t, u, a, p, visited)
  {
    hide Copy, SameType, Pairs, Simulation, Walk, Compat;
    PairsSimulation(a, p, names);
    SameTypeWalks(t, u, a, names);
    SimilarCompat(t, u, a, p, visited);
  }
}
