/** Similarity composes across three tables. */
module BoundaryCompose {
  import opened Types
  import opened Resolution
  import opened Boundary
  import opened BoundaryCoherence
  import opened BoundaryValues

  // ----- well-formed pairs -----

  ghost predicate WellFormedArgs(s: Side) {
    WellKeyed(s.table) && forall i | 0 <= i < |s.args| :: WellFormed(s.args[i], s.table)
  }

  ghost function WellFormedPairs(r: Relation, a: Table, b: Table): Relation {
    iset q | q in r && WellFormed(q.0, a) && WellFormed(q.1, b)
  }

  lemma {:induction false} WalkWellFormed(t: Ty, u: Ty, r: Relation, a: Table, b: Table)
    requires Walk(t, u, r) && WellFormed(t, a) && WellFormed(u, b)
    ensures Walk(t, u, WellFormedPairs(r, a, b))
  {
    if t.Named? && u.Named? {
      forall i | 0 <= i < |t.args| ensures Walk(t.args[i], u.args[i], WellFormedPairs(r, a, b)) {
        WalkWellFormed(t.args[i], u.args[i], r, a, b);
      }
    } else if t.Wrap? && u.Wrap? {
      WalkWellFormed(t.inner, u.inner, r, a, b);
    } else if t.Pair? && u.Pair? {
      WalkWellFormed(t.first, u.first, r, a, b);
      WalkWellFormed(t.second, u.second, r, a, b);
    }
  }

  lemma WellFormedPlain(r: Relation, a: Table, b: Table)
    requires PlainSimulation(r, a, b) && WellKeyed(a) && WellKeyed(b)
    ensures PlainSimulation(WellFormedPairs(r, a, b), a, b)
  {
    hide Walk, BodiesWalk, WellKeyed;
    forall q | q in WellFormedPairs(r, a, b) ensures Unfolds(q.0, q.1, a, b, WellFormedPairs(r, a, b)) {
      assert Unfolds(q.0, q.1, a, b, r);
      BodiesWellFormed(Side(a[q.0.name], q.0.args, a), Side(b[q.1.name], q.1.args, b), q.0.name == q.1.name, r);
    }
  }

  lemma BodiesWellFormed(x: Side, y: Side, sameName: bool, r: Relation)
    requires BodiesWalk(x, y, sameName, r) && WellFormedArgs(x) && WellFormedArgs(y)
    ensures BodiesWalk(x, y, sameName, WellFormedPairs(r, x.table, y.table))
  {
    hide Walk, InstantiateField, WellFormed;
    forall f, g | MembersWalk(x, f, y, g, r) ensures MembersWalk(x, f, y, g, WellFormedPairs(r, x.table, y.table)) {
      MembersWalkTypes(x, f, y, g, r);
      WalkWellFormed(InstantiateField(x.decl, x.args, f, x.table).value, InstantiateField(y.decl, y.args, g, y.table).value,
                     r, x.table, y.table);
    }
  }

  // ----- one relation after the other -----

  ghost function Then(r: Relation, s: Relation): Relation {
    iset q: (Ty, Ty) | exists m: Ty :: (q.0, m) in r && (m, q.1) in s
  }

  lemma {:induction false} WalkThen(t: Ty, u: Ty, w: Ty, a: Table, b: Table, c: Table, r: Relation, s: Relation)
    requires Walk(t, u, r) && Walk(u, w, s) && PlainSimulation(r, a, b)
    requires WellFormed(t, a) && WellFormed(u, b) && WellFormed(w, c)
    ensures Walk(t, w, Then(r, s))
  {
    if t.Pair? {
      WalkThen(t.first, u.first, w.first, a, b, c, r, s);
      WalkThen(t.second, u.second, w.second, a, b, c, r, s);
    } else if t.Wrap? {
      WalkThen(t.inner, u.inner, w.inner, a, b, c, r, s);
    } else if t.Named? && u.Named? {
      assert Unfolds(t, u, a, b, r);
      if w.Named? {
        forall i | 0 <= i < |t.args| ensures Walk(t.args[i], w.args[i], Then(r, s)) {
          WalkThen(t.args[i], u.args[i], w.args[i], a, b, c, r, s);
        }
        assert (t, u) in r && (u, w) in s;
      }
    }
  }

  lemma MembersThen(x: Side, f: TypeRef, y: Side, g: TypeRef, z: Side, h: TypeRef, r: Relation, s: Relation)
    requires MembersWalk(x, f, y, g, r) && MembersWalk(y, g, z, h, s) && PlainSimulation(r, x.table, y.table)
    requires WellFormedArgs(x) && WellFormedArgs(y) && WellFormedArgs(z)
    ensures MembersWalk(x, f, z, h, Then(r, s))
  {
    hide Walk, InstantiateField, WellFormed;
    MembersWalkTypes(x, f, y, g, r);
    MembersWalkTypes(y, g, z, h, s);
    WalkThen(InstantiateField(x.decl, x.args, f, x.table).value, InstantiateField(y.decl, y.args, g, y.table).value,
             InstantiateField(z.decl, z.args, h, z.table).value, x.table, y.table, z.table, r, s);
  }

  lemma BodiesThen(x: Side, y: Side, z: Side, sameXY: bool, sameYZ: bool, sameXZ: bool, r: Relation, s: Relation)
    requires BodiesWalk(x, y, sameXY, r) && BodiesWalk(y, z, sameYZ, s) && PlainSimulation(r, x.table, y.table)
    requires WellFormedArgs(x) && WellFormedArgs(y) && WellFormedArgs(z) && (sameXY && sameYZ ==> sameXZ)
    ensures BodiesWalk(x, z, sameXZ, Then(r, s))
  {
    hide MembersWalk, WellFormedArgs, PlainSimulation;
    match (x.decl.body, y.decl.body, z.decl.body)
    case (Record(fs), Record(gs), Record(hs)) =>
      forall i | 0 <= i < |fs| ensures FieldWalks(x, fs[i], z, hs, Then(r, s)) {
        assert FieldWalks(x, fs[i], y, gs, r);
        var g := FindField(gs, fs[i].name).value;
        var j :| 0 <= j < |gs| && gs[j] == g;
        assert FieldWalks(y, gs[j], z, hs, s);
        MembersThen(x, fs[i].typ, y, g.typ, z, FindField(hs, g.name).value.typ, r, s);
      }
    case (Sum(us), Sum(vs), Sum(ws)) =>
      forall i | 0 <= i < |us| ensures VariantWalks(x, us[i], z, ws, Then(r, s)) {
        assert VariantWalks(x, us[i], y, vs, r);
        var v := FindVariant(vs, us[i].name).value;
        var j :| 0 <= j < |vs| && vs[j] == v;
        assert VariantWalks(y, vs[j], z, ws, s);
        PayloadsThen(x, us[i].payload, y, v.payload, z, FindVariant(ws, v.name).value.payload, r, s);
      }
    case _ =>
  }

  lemma PayloadsThen(x: Side, fs: seq<PayloadField>, y: Side, gs: seq<PayloadField>, z: Side, hs: seq<PayloadField>,
                     r: Relation, s: Relation)
    requires PayloadsWalk(x, fs, y, gs, r) && PayloadsWalk(y, gs, z, hs, s) && PlainSimulation(r, x.table, y.table)
    requires WellFormedArgs(x) && WellFormedArgs(y) && WellFormedArgs(z)
    ensures PayloadsWalk(x, fs, z, hs, Then(r, s))
  {
    hide MembersWalk, WellFormedArgs, PlainSimulation;
    forall i | 0 <= i < |fs|
      ensures fs[i].name == hs[i].name && MembersWalk(x, fs[i].typ, z, hs[i].typ, Then(r, s))
    {
      assert MembersWalk(x, fs[i].typ, y, gs[i].typ, r) && MembersWalk(y, gs[i].typ, z, hs[i].typ, s);
      MembersThen(x, fs[i].typ, y, gs[i].typ, z, hs[i].typ, r, s);
    }
  }

  /** Two simulations of well-formed types, one after the other, are a simulation. */
  lemma SimulationThen(r: Relation, s: Relation, a: Table, b: Table, c: Table)
    requires PlainSimulation(r, a, b) && PlainSimulation(s, b, c)
    requires r == WellFormedPairs(r, a, b) && s == WellFormedPairs(s, b, c)
    requires WellKeyed(a) && WellKeyed(b) && WellKeyed(c)
    ensures PlainSimulation(Then(r, s), a, c)
  {
    hide BodiesWalk, WellKeyed;
    forall q | q in Then(r, s) ensures Unfolds(q.0, q.1, a, c, Then(r, s)) {
      var m :| (q.0, m) in r && (m, q.1) in s;
      assert Unfolds(q.0, m, a, b, r) && Unfolds(m, q.1, b, c, s);
      assert (q.0, m) in WellFormedPairs(r, a, b) && (m, q.1) in WellFormedPairs(s, b, c);
      BodiesThen(Side(a[q.0.name], q.0.args, a), Side(b[m.name], m.args, b), Side(c[q.1.name], q.1.args, c),
                 q.0.name == m.name, m.name == q.1.name, q.0.name == q.1.name, r, s);
    }
  }

  /** Types that match member by member across two pairs of tables match across the outer two. */
  lemma SimilarTransitive(t: Ty, u: Ty, w: Ty, a: Table, b: Table, c: Table)
    requires PlainSimilar(t, u, a, b) && PlainSimilar(u, w, b, c)
    requires WellKeyed(a) && WellKeyed(b) && WellKeyed(c)
    requires WellFormed(t, a) && WellFormed(u, b) && WellFormed(w, c)
    ensures PlainSimilar(t, w, a, c)
  {
    hide Walk, WellFormed, WellKeyed;
    var r: Relation :| PlainSimulation(r, a, b) && Walk(t, u, r);
    var s: Relation :| PlainSimulation(s, b, c) && Walk(u, w, s);
    var r', s' := WellFormedPairs(r, a, b), WellFormedPairs(s, b, c);
    WellFormedPlain(r, a, b);
    WellFormedPlain(s, b, c);
    WalkWellFormed(t, u, r, a, b);
    WalkWellFormed(u, w, s, b, c);
    assert r' == WellFormedPairs(r', a, b) && s' == WellFormedPairs(s', b, c);
    SimulationThen(r', s', a, b, c);
    WalkThen(t, u, w, a, b, c, r', s');
  }
}
