/** Comparing two types that live in two declaration tables (`structurally_compatible`).

    The comparison walks both types in parallel. Where it meets two named types it follows their
    declarations, unless it is already comparing that pair of names: then it trusts the pair. The module
    states the walk over an arbitrary relation on named types; the checker's walk uses the relation that its
    set of visited name pairs induces. */
module Boundary {
  import opened Types
  import opened Resolution
  import opened Refinements

  type NamePair = (string, string)

  /** A relation between the named types of two tables. */
  type Relation = iset<(Ty, Ty)>

  // ----- the walk over types -----

  /** The built-ins with one inner type that may cross a boundary. */
  predicate Crosses(w: Wrapper) {
    w in {OptionOf, EffectOf, HttpResultOf, HttpOutcomeOf, ListOf}
  }

  /** `t` and `u` have the same shape down to named types, which must be related by `related`. */
  ghost predicate Walk(t: Ty, u: Ty, related: Relation) {
    match (t, u)
    case (Error, _) => true
    case (_, Error) => true
    case (Base(a), Base(b)) => a == b
    case (Atom(a), Atom(b)) => a == b
    case (Pair(p, a, b), Pair(q, c, d)) => p == q && Walk(a, c, related) && Walk(b, d, related)
    case (Wrap(v, a), Wrap(w, b)) => v == w && Crosses(v) && Walk(a, b, related)
    case (Named(_, _, ps), Named(_, _, qs)) =>
      |ps| == |qs| && (forall i | 0 <= i < |ps| :: Walk(ps[i], qs[i], related)) && (t, u) in related
    case (Named(_, RefinedKind(b), _), Base(target)) => b == target
    case _ => false
  }

  lemma {:induction false} WalkMonotone(t: Ty, u: Ty, r: Relation, s: Relation)
    requires Walk(t, u, r) && r <= s
    ensures Walk(t, u, s)
  {
    match (t, u)
    case (Error, _) =>
    case (_, Error) =>
    case (Pair(_, a, b), Pair(_, c, d)) => WalkMonotone(a, c, r, s); WalkMonotone(b, d, r, s);
    case (Wrap(_, a), Wrap(_, b)) => WalkMonotone(a, b, r, s);
    case (Named(_, _, ps), Named(_, _, qs)) =>
      forall i | 0 <= i < |ps| ensures Walk(ps[i], qs[i], s) { WalkMonotone(ps[i], qs[i], r, s); }
    case _ =>
  }

  // ----- declarations -----

  function FieldNames(fields: seq<Field>): seq<string> {
    seq(|fields|, i requires 0 <= i < |fields| => fields[i].name)
  }

  function PayloadNames(payload: seq<PayloadField>): seq<string> {
    seq(|payload|, i requires 0 <= i < |payload| => payload[i].name)
  }

  predicate SameMembers(a: TypeDecl, b: TypeDecl) {
    match (a.body, b.body)
    case (Record(fs), Record(gs)) => FieldNames(fs) == FieldNames(gs)
    case (Sum(vs), Sum(ws)) =>
      |vs| == |ws| &&
      forall i | 0 <= i < |vs| ::
        vs[i].name == ws[i].name && PayloadNames(vs[i].payload) == PayloadNames(ws[i].payload)
    case (Refined(x, _), Refined(y, _)) => x == y
    case (Opaque(x, _), Opaque(y, _)) => x == y
    case _ => false
  }

  /** Both tables hold one declaration under one name: the comparison then looks no further. */
  predicate OneDeclaration(m: string, n: string, a: Table, p: Table)
    requires m in a && n in p
  {
    m == n && (a[m].identity == p[n].identity || (a[m].span == p[n].span && SameMembers(a[m], p[n])))
  }

  /** One side of a comparison: a named type's declaration, its arguments, and the table both belong to. */
  datatype Side = Side(decl: TypeDecl, args: seq<Ty>, table: Table)

  ghost predicate MembersWalk(x: Side, f: TypeRef, y: Side, g: TypeRef, related: Relation) {
    var t, u := InstantiateField(x.decl, x.args, f, x.table), InstantiateField(y.decl, y.args, g, y.table);
    t.Some? && u.Some? && Walk(t.value, u.value, related)
  }

  ghost predicate PayloadsWalk(x: Side, fs: seq<PayloadField>, y: Side, gs: seq<PayloadField>, related: Relation) {
    |fs| == |gs| &&
    forall i | 0 <= i < |fs| :: fs[i].name == gs[i].name && MembersWalk(x, fs[i].typ, y, gs[i].typ, related)
  }

  ghost predicate FieldWalks(x: Side, f: Field, y: Side, gs: seq<Field>, related: Relation) {
    var g := FindField(gs, f.name);
    g.Some? && MembersWalk(x, f.typ, y, g.value.typ, related)
  }

  ghost predicate VariantWalks(x: Side, v: Variant, y: Side, ws: seq<Variant>, related: Relation) {
    var w := FindVariant(ws, v.name);
    w.Some? && PayloadsWalk(x, v.payload, y, w.value.payload, related)
  }

  /** The members of two declarations walk in parallel. */
  ghost predicate BodiesWalk(x: Side, y: Side, sameName: bool, related: Relation) {
    match (x.decl.body, y.decl.body)
    case (Refined(b, r), Refined(c, s)) => b == c && RefinementsMatch(r, s)
    case (Opaque(b, r), Opaque(c, s)) => sameName && b == c && RefinementsMatch(r, s)
    case (Record(fs), Record(gs)) =>
      |fs| == |gs| && forall i | 0 <= i < |fs| :: FieldWalks(x, fs[i], y, gs, related)
    case (Sum(vs), Sum(ws)) =>
      |vs| == |ws| && forall i | 0 <= i < |vs| :: VariantWalks(x, vs[i], y, ws, related)
    case _ => false
  }

  lemma BodiesWalkMonotone(x: Side, y: Side, sameName: bool, r: Relation, s: Relation)
    requires BodiesWalk(x, y, sameName, r) && r <= s
    ensures BodiesWalk(x, y, sameName, s)
  {
    forall t, u | Walk(t, u, r) ensures Walk(t, u, s) { WalkMonotone(t, u, r, s); }
  }

  /** Two named types have declarations whose members walk in parallel. */
  ghost predicate Unfolds(t: Ty, u: Ty, a: Table, p: Table, related: Relation) {
    t.Named? && u.Named? && t.name in a && u.name in p &&
    BodiesWalk(Side(a[t.name], t.args, a), Side(p[u.name], u.args, p), t.name == u.name, related)
  }

  /** What the comparison of two named types asks: one declaration, or members that walk. */
  ghost predicate NamedStep(t: Ty, u: Ty, a: Table, p: Table, related: Relation) {
    t.Named? && u.Named? && t.name in a && u.name in p &&
    (OneDeclaration(t.name, u.name, a, p) || Unfolds(t, u, a, p, related))
  }

  lemma NamedStepMonotone(t: Ty, u: Ty, a: Table, p: Table, r: Relation, s: Relation)
    requires NamedStep(t, u, a, p, r) && r <= s
    ensures NamedStep(t, u, a, p, s)
  {
    if Unfolds(t, u, a, p, r) {
      BodiesWalkMonotone(Side(a[t.name], t.args, a), Side(p[u.name], u.args, p), t.name == u.name, r, s);
    }
  }

  // ----- the checker's relation -----

  function NamePairs(a: Table, p: Table): set<NamePair> {
    set m, n | m in a.Keys && n in p.Keys :: (m, n)
  }

  /** The named types that compare equal while `visited` is being compared: a visited pair is trusted,
      any other pair joins `visited` for as long as its members are compared. */
  ghost function Passing(a: Table, p: Table, visited: set<NamePair>): Relation
    decreases NamePairs(a, p) - visited
  {
    iset q: (Ty, Ty) |
      q.0.Named? && q.1.Named? &&
      var key := (q.0.name, q.1.name);
      (key in visited ||
       (q.0.name in a && q.1.name in p &&
        assert key in NamePairs(a, p) - visited;
        NamedStep(q.0, q.1, a, p, Passing(a, p, visited + {key}))))
  }

  /** `structurally_compatible_inner`. */
  ghost predicate Compat(t: Ty, u: Ty, a: Table, p: Table, visited: set<NamePair>) {
    Walk(t, u, Passing(a, p, visited))
  }
}
