/** What an accepted comparison says of the two sides, in terms of their declarations alone. */
module BoundaryMeaning {
  import opened Types
  import opened Resolution
  import opened Refinements
  import opened Boundary
  import opened BoundaryExact
  import opened BoundaryInline
  import BoundaryValues

  predicate OpaqueHere(t: Ty, table: Table) {
    t.Named? && t.name in table && table[t.name].body.Opaque?
  }

  /** An opaque type is never taken for another: it is accepted, and accepts, under its own name and base only. */
  lemma OpaqueKeepsName(t: Ty, u: Ty, a: Table, p: Table)
    requires WellFormed(t, a) && WellFormed(u, p) && Compat(t, u, a, p, {})
    requires OpaqueHere(t, a) || OpaqueHere(u, p)
    ensures t.Named? && u.Named? && t.name == u.name && t.name in a && u.name in p
    ensures a[t.name].identity != p[u.name].identity ==>
      OpaqueHere(t, a) && OpaqueHere(u, p) && a[t.name].body.base == p[u.name].body.base
  {
    hide InstantiateField;
    assert Walk(t, u, Passing(a, p, {}));
  }

  predicate StaysHome(t: Ty) {
    t.Fn? || t.Actor? || t.ActorSum? || t.Var? || (t.Wrap? && t.wrapper in {QueryOf, StreamOf, ConnectionOf})
  }

  /** Functions, actors, open variables, queries, streams and connections are never accepted. */
  lemma StaysHomeRejected(t: Ty, u: Ty, a: Table, p: Table, visited: set<NamePair>)
    requires t != Error && u != Error && (StaysHome(t) || StaysHome(u))
    ensures !Compat(t, u, a, p, visited)
  {
  }

  // ----- members, by their names -----

  predicate DistinctFields(fs: seq<Field>) {
    forall i, j | 0 <= i < j < |fs| :: fs[i].name != fs[j].name
  }

  predicate DistinctVariants(vs: seq<Variant>) {
    forall i, j | 0 <= i < j < |vs| :: vs[i].name != vs[j].name
  }

  function VariantNames(vs: seq<Variant>): seq<string> {
    seq(|vs|, i requires 0 <= i < |vs| => vs[i].name)
  }

  predicate DistinctMembers(body: Body) {
    match body
    case Record(fs) => DistinctFields(fs)
    case Sum(vs) => DistinctVariants(vs)
    case _ => true
  }

  /** Records: the same field names, and whatever has one name walks. Sums: the same variant names, and whatever has one
      name has payload fields of the same names in the same order, which walk. Opaque types: one name and base. Refined
      types: one base. The receiver of the last two asks for no predicates or for the sender's. */
  ghost predicate MembersAgree(x: Side, y: Side, sameName: bool, r: Relation) {
    match (x.decl.body, y.decl.body)
    case (Refined(b, m), Refined(c, n)) => b == c && RefinementsMatch(m, n)
    case (Opaque(b, m), Opaque(c, n)) => sameName && b == c && RefinementsMatch(m, n)
    case (Record(fs), Record(gs)) =>
      (forall name :: name in FieldNames(fs) <==> name in FieldNames(gs)) &&
      forall f, g | f in fs && g in gs && f.name == g.name :: MembersWalk(x, f.typ, y, g.typ, r)
    case (Sum(vs), Sum(ws)) =>
      (forall name :: name in VariantNames(vs) <==> name in VariantNames(ws)) &&
      forall v, w | v in vs && w in ws && v.name == w.name :: PayloadsAgree(x, v.payload, y, w.payload, r)
    case _ => false
  }

  ghost predicate PayloadsAgree(x: Side, fs: seq<PayloadField>, y: Side, gs: seq<PayloadField>, r: Relation) {
    PayloadNames(fs) == PayloadNames(gs) &&
    forall k | 0 <= k < |fs| && k < |gs| :: MembersWalk(x, fs[k].typ, y, gs[k].typ, r)
  }

  lemma PayloadsSame(x: Side, fs: seq<PayloadField>, y: Side, gs: seq<PayloadField>, r: Relation)
    ensures PayloadsWalk(x, fs, y, gs, r) <==> PayloadsAgree(x, fs, y, gs, r)
  {
    hide MembersWalk;
    assert |PayloadNames(fs)| == |fs| && |PayloadNames(gs)| == |gs|;
    if PayloadsAgree(x, fs, y, gs, r) {
      forall i | 0 <= i < |fs| ensures fs[i].name == gs[i].name { assert PayloadNames(fs)[i] == PayloadNames(gs)[i]; }
    }
    if PayloadsWalk(x, fs, y, gs, r) { assert PayloadNames(fs) == PayloadNames(gs); }
  }

  lemma FoundField(fs: seq<Field>, f: Field)
    requires f in fs && DistinctFields(fs)
    ensures FindField(fs, f.name) == Some(f)
  {
    var g := FindField(fs, f.name).value;
    var i, j :| 0 <= i < |fs| && 0 <= j < |fs| && fs[i] == f && fs[j] == g;
  }

  lemma FoundVariant(vs: seq<Variant>, v: Variant)
    requires v in vs && DistinctVariants(vs)
    ensures FindVariant(vs, v.name) == Some(v)
  {
    var w := FindVariant(vs, v.name).value;
    var i, j :| 0 <= i < |vs| && 0 <= j < |vs| && vs[i] == v && vs[j] == w;
  }

  /** Lists of distinct names that contain each other are equally long, and of two equally long ones each contains the
      other if one does. */
  lemma SameNames(xs: seq<string>, ys: seq<string>)
    requires BoundaryValues.Distinct(xs) && BoundaryValues.Distinct(ys)
    ensures (|xs| == |ys| && forall n | n in xs :: n in ys) <==> forall n :: n in xs <==> n in ys
  {
    DistinctSize(xs);
    DistinctSize(ys);
    var s, t := set n | n in xs, set n | n in ys;
    assert forall n :: (n in xs <==> n in s) && (n in ys <==> n in t);
    if |xs| == |ys| && forall n | n in xs :: n in ys { SubsetSize(s, t); }
    if forall n :: n in xs <==> n in ys { assert s == t; }
  }

  lemma RecordsAgree(x: Side, fs: seq<Field>, y: Side, gs: seq<Field>, r: Relation)
    requires DistinctFields(fs) && DistinctFields(gs)
    ensures (|fs| == |gs| && forall i | 0 <= i < |fs| :: FieldWalks(x, fs[i], y, gs, r)) <==>
            (forall name :: name in FieldNames(fs) <==> name in FieldNames(gs)) &&
            forall f, g | f in fs && g in gs && f.name == g.name :: MembersWalk(x, f.typ, y, g.typ, r)
  {
    hide MembersWalk;
    var xs, ys := FieldNames(fs), FieldNames(gs);
    SameNames(xs, ys);
    forall g | g in gs ensures FindField(gs, g.name) == Some(g) { FoundField(gs, g); }
    if |fs| == |gs| && forall i | 0 <= i < |fs| :: FieldWalks(x, fs[i], y, gs, r) {
      forall n | n in xs ensures n in ys {
        var i :| 0 <= i < |fs| && xs[i] == n;
        assert FieldWalks(x, fs[i], y, gs, r);
        var j :| 0 <= j < |gs| && gs[j] == FindField(gs, n).value;
        assert ys[j] == n;
      }
      forall f, g | f in fs && g in gs && f.name == g.name ensures MembersWalk(x, f.typ, y, g.typ, r) {
        var i :| 0 <= i < |fs| && fs[i] == f;
        assert FieldWalks(x, fs[i], y, gs, r);
      }
    }
    if (forall name :: name in xs <==> name in ys) &&
       forall f, g | f in fs && g in gs && f.name == g.name :: MembersWalk(x, f.typ, y, g.typ, r) {
      forall i | 0 <= i < |fs| ensures FieldWalks(x, fs[i], y, gs, r) {
        assert xs[i] in ys;
        var j :| 0 <= j < |gs| && ys[j] == xs[i];
        assert gs[j] in gs && fs[i] in fs;
      }
    }
  }

  lemma SumsAgree(x: Side, vs: seq<Variant>, y: Side, ws: seq<Variant>, r: Relation)
    requires DistinctVariants(vs) && DistinctVariants(ws)
    ensures (|vs| == |ws| && forall i | 0 <= i < |vs| :: VariantWalks(x, vs[i], y, ws, r)) <==>
            (forall name :: name in VariantNames(vs) <==> name in VariantNames(ws)) &&
            forall v, w | v in vs && w in ws && v.name == w.name :: PayloadsAgree(x, v.payload, y, w.payload, r)
  {
    hide PayloadsWalk, PayloadsAgree;
    var xs, ys := VariantNames(vs), VariantNames(ws);
    SameNames(xs, ys);
    forall w | w in ws ensures FindVariant(ws, w.name) == Some(w) { FoundVariant(ws, w); }
    forall v, w | v in vs && w in ws ensures PayloadsWalk(x, v.payload, y, w.payload, r) <==> PayloadsAgree(x, v.payload, y, w.payload, r) {
      PayloadsSame(x, v.payload, y, w.payload, r);
    }
    if |vs| == |ws| && forall i | 0 <= i < |vs| :: VariantWalks(x, vs[i], y, ws, r) {
      forall n | n in xs ensures n in ys {
        var i :| 0 <= i < |vs| && xs[i] == n;
        assert VariantWalks(x, vs[i], y, ws, r);
        var j :| 0 <= j < |ws| && ws[j] == FindVariant(ws, n).value;
        assert ys[j] == n;
      }
      forall v, w | v in vs && w in ws && v.name == w.name ensures PayloadsAgree(x, v.payload, y, w.payload, r) {
        var i :| 0 <= i < |vs| && vs[i] == v;
        assert VariantWalks(x, vs[i], y, ws, r);
      }
    }
    if (forall name :: name in xs <==> name in ys) &&
       forall v, w | v in vs && w in ws && v.name == w.name :: PayloadsAgree(x, v.payload, y, w.payload, r) {
      forall i | 0 <= i < |vs| ensures VariantWalks(x, vs[i], y, ws, r) {
        assert xs[i] in ys;
        var j :| 0 <= j < |ws| && ys[j] == xs[i];
        assert ws[j] in ws && vs[i] in vs;
      }
    }
  }

  /** The comparison of two bodies, which counts the members and looks each one up, asks exactly that their members agree. */
  lemma BodiesWalkMeans(x: Side, y: Side, sameName: bool, r: Relation)
    requires DistinctMembers(x.decl.body) && DistinctMembers(y.decl.body)
    ensures BodiesWalk(x, y, sameName, r) <==> MembersAgree(x, y, sameName, r)
  {
    hide MembersWalk, PayloadsAgree, FieldWalks, VariantWalks;
    match (x.decl.body, y.decl.body)
    case (Record(fs), Record(gs)) => RecordsAgree(x, fs, y, gs, r);
    case (Sum(vs), Sum(ws)) => SumsAgree(x, vs, y, ws, r);
    case _ =>
  }

  // ----- accepted and shared declarations -----

  /** One kind of body, one base, and the same member names; opaque types have one name besides. */
  ghost predicate SameOutline(b: Body, c: Body, sameName: bool) {
    match (b, c)
    case (Refined(x, _), Refined(y, _)) => x == y
    case (Opaque(x, _), Opaque(y, _)) => sameName && x == y
    case (Record(fs), Record(gs)) => forall name :: name in FieldNames(fs) <==> name in FieldNames(gs)
    case (Sum(vs), Sum(ws)) =>
      (forall name :: name in VariantNames(vs) <==> name in VariantNames(ws)) &&
      forall v, w | v in vs && w in ws && v.name == w.name :: PayloadNames(v.payload) == PayloadNames(w.payload)
    case _ => false
  }

  /** An accepted pair of declarations in different places has one outline, whether it was walked or taken for one
      declaration. */
  lemma AcceptedOutline(t: Ty, u: Ty, a: Table, p: Table)
    requires t.Named? && u.Named? && Compat(t, u, a, p, {}) && t.name in a && u.name in p
    requires DistinctMembers(a[t.name].body) && DistinctMembers(p[u.name].body)
    requires a[t.name].identity != p[u.name].identity
    ensures SameOutline(a[t.name].body, p[u.name].body, t.name == u.name)
  {
    hide Walk, BodiesWalk, MembersWalk, OneDeclaration;
    var r := Passing(a, p, {} + {(t.name, u.name)});
    var x, y := Side(a[t.name], t.args, a), Side(p[u.name], u.args, p);
    assert NamedStep(t, u, a, p, r) by { AcceptedStep(t, u, a, p); }
    if OneDeclaration(t.name, u.name, a, p) {
      SharedOutline(t.name, u.name, a, p);
    } else {
      BodiesWalkMeans(x, y, t.name == u.name, r);
    }
  }

  lemma AcceptedStep(t: Ty, u: Ty, a: Table, p: Table)
    requires t.Named? && u.Named? && Compat(t, u, a, p, {})
    ensures NamedStep(t, u, a, p, Passing(a, p, {} + {(t.name, u.name)}))
  {
    hide NamedStep;
    assert (t, u) in Passing(a, p, {});
  }

  lemma SharedOutline(m: string, n: string, a: Table, p: Table)
    requires m in a && n in p && OneDeclaration(m, n, a, p) && a[m].identity != p[n].identity
    requires DistinctMembers(a[m].body) && DistinctMembers(p[n].body)
    ensures SameOutline(a[m].body, p[n].body, m == n)
  {
    match (a[m].body, p[n].body)
    case (Sum(vs), Sum(ws)) =>
      assert VariantNames(vs) == VariantNames(ws);
      forall v, w | v in vs && w in ws && v.name == w.name ensures PayloadNames(v.payload) == PayloadNames(w.payload) {
        var i, j :| 0 <= i < |vs| && 0 <= j < |ws| && vs[i] == v && ws[j] == w;
        assert vs[j].name == ws[j].name;
      }
    case _ =>
  }

  /** A declaration that both tables hold under one name, at one place and with the same members in order, is accepted
      at once, whatever its members' types mean on either side; so is one that is the same allocation. */
  lemma SamePlaceAccepted(n: string, a: Table, p: Table)
    requires n in a && n in p && |a[n].typeParams| == |p[n].typeParams|
    requires a[n].identity == p[n].identity || (a[n].span == p[n].span && a[n].body == p[n].body)
    ensures Compat(Sample(n, a), Sample(n, p), a, p, {})
  {
    hide BodiesWalk;
    var t, u := Sample(n, a), Sample(n, p);
    if a[n].body == p[n].body { assert SameMembers(a[n], p[n]); }
    assert NamedStep(t, u, a, p, Passing(a, p, {} + {(n, n)}));
    assert (t, u) in Passing(a, p, {});
    assert forall i | 0 <= i < |t.args| :: t.args[i] == u.args[i] == Base(BaseType.Int);
    assert Walk(t, u, Passing(a, p, {}));
  }
}
