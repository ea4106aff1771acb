/** The comparison as the checker runs it: one set of visited name pairs, inserted into before a pair's
    declarations are compared and removed from afterwards. */
module BoundaryWalk {
  import opened Types
  import opened Resolution
  import opened Refinements
  import opened Boundary

  /** Comparing two named types reads their names and arguments only. */
  lemma NamedStepKind(t: Ty, u: Ty, a: Table, p: Table, r: Relation)
    requires t.Named? && u.Named?
    ensures NamedStep(t, u, a, p, r) ==
            NamedStep(Named(t.name, RecordKind, t.args), Named(u.name, RecordKind, u.args), a, p, r)
  {
  }

  class Comparison {
    var visited: set<NamePair>

    constructor ()
      ensures visited == {}
    {
      visited := {};
    }

    /** Terminates on every pair of tables, generic declarations included, answers as `Compat` says, and
        leaves `visited` as it found it on every exit. */
    method Inner(t: Ty, u: Ty, a: Table, p: Table) returns (ok: bool)
      modifies this
      ensures visited == old(visited)
      ensures ok == Compat(t, u, a, p, visited)
      decreases NamePairs(a, p) - visited, 1, t
    {
      hide Passing, NamedStep;
      if t.Error? || u.Error? { return true; }
      match t {
        case Base(b) => return u.Base? && b == u.base;
        case Atom(b) => return u.Atom? && b == u.atom;
        case Pair(v, b, c) =>
          if !u.Pair? || v != u.pairing { return false; }
          ok := Inner(b, u.first, a, p);
          if ok { ok := Inner(c, u.second, a, p); }
        case Wrap(v, b) =>
          if !u.Wrap? || v != u.wrapper || !Crosses(v) { return false; }
          ok := Inner(b, u.inner, a, p);
        case Named(_, k, _) =>
          if u.Base? { return k == RefinedKind(u.base); }
          if !u.Named? { return false; }
          ok := InnerNamed(t, u, a, p);
        case _ => return false;
      }
    }

    method InnerNamed(t: Ty, u: Ty, a: Table, p: Table) returns (ok: bool)
      requires t.Named? && u.Named?
      modifies this
      ensures visited == old(visited)
      ensures ok == Compat(t, u, a, p, visited)
      decreases NamePairs(a, p) - visited, 1, t, 0
    {
      var key := (t.name, u.name);
      if |t.args| != |u.args| { return false; }
      for i := 0 to |t.args|
        invariant visited == old(visited)
        invariant forall k | 0 <= k < i :: Walk(t.args[k], u.args[k], Passing(a, p, visited))
      {
        ok := Inner(t.args[i], u.args[i], a, p);
        if !ok { return; }
      }
      if key in visited { return true; }
      visited := visited + {key};
      ok := CompareNamed(t.name, t.args, u.name, u.args, a, p);
      visited := visited - {key};
      NamedStepKind(t, u, a, p, Passing(a, p, visited + {key}));
    }

    /** `structural_compare_named`: the two declarations, once their arguments have been compared. */
    method CompareNamed(m: string, ps: seq<Ty>, n: string, qs: seq<Ty>, a: Table, p: Table) returns (ok: bool)
      modifies this
      ensures visited == old(visited)
      ensures ok == NamedStep(Named(m, RecordKind, ps), Named(n, RecordKind, qs), a, p, Passing(a, p, visited))
      decreases NamePairs(a, p) - (visited - {(m, n)}), if (m, n) in visited then 0 else 2
    {
      if m !in a || n !in p { return false; }
      if OneDeclaration(m, n, a, p) { return true; }
      var x, y := Side(a[m], ps, a), Side(p[n], qs, p);
      match (x.decl.body, y.decl.body) {
        case (Refined(b, r), Refined(c, s)) => return b == c && RefinementsMatch(r, s);
        case (Opaque(b, r), Opaque(c, s)) => return m == n && b == c && RefinementsMatch(r, s);
        case (Record(fs), Record(gs)) =>
          if |fs| != |gs| { return false; }
          for i := 0 to |fs|
            invariant visited == old(visited)
            invariant forall k | 0 <= k < i :: FieldWalks(x, fs[k], y, gs, Passing(a, p, visited))
          {
            var g := FindField(gs, fs[i].name);
            if g.None? { return false; }
            ok := CompareMembers(x, fs[i].typ, y, g.value.typ, (m, n));
            if !ok { return; }
          }
          return true;
        case (Sum(vs), Sum(ws)) =>
          if |vs| != |ws| { return false; }
          for i := 0 to |vs|
            invariant visited == old(visited)
            invariant forall k | 0 <= k < i :: VariantWalks(x, vs[k], y, ws, Passing(a, p, visited))
          {
            var w := FindVariant(ws, vs[i].name);
            if w.None? { return false; }
            ok := ComparePayloads(x, vs[i].payload, y, w.value.payload, (m, n));
            if !ok { return; }
          }
          return true;
        case _ => return false;
      }
    }

    method ComparePayloads(x: Side, fs: seq<PayloadField>, y: Side, gs: seq<PayloadField>, ghost key: NamePair)
      returns (ok: bool)
      requires key in NamePairs(x.table, y.table)
      modifies this
      ensures visited == old(visited)
      ensures ok == PayloadsWalk(x, fs, y, gs, Passing(x.table, y.table, visited))
      decreases NamePairs(x.table, y.table) - (visited - {key}), (if key in visited then 0 else 2), 1
    {
      if |fs| != |gs| { return false; }
      for i := 0 to |fs|
        invariant visited == old(visited)
        invariant forall k | 0 <= k < i ::
          fs[k].name == gs[k].name && MembersWalk(x, fs[k].typ, y, gs[k].typ, Passing(x.table, y.table, visited))
      {
        if fs[i].name != gs[i].name { return false; }
        ok := CompareMembers(x, fs[i].typ, y, gs[i].typ, key);
        if !ok { return; }
      }
      return true;
    }

    method CompareMembers(x: Side, f: TypeRef, y: Side, g: TypeRef, ghost key: NamePair) returns (ok: bool)
      requires key in NamePairs(x.table, y.table)
      modifies this
      ensures visited == old(visited)
      ensures ok == MembersWalk(x, f, y, g, Passing(x.table, y.table, visited))
      decreases NamePairs(x.table, y.table) - (visited - {key}), (if key in visited then 0 else 2), 0
    {
      var t, u := InstantiateField(x.decl, x.args, f, x.table), InstantiateField(y.decl, y.args, g, y.table);
      if t.None? || u.None? { return false; }
      ok := Inner(t.value, u.value, x.table, y.table);
    }
  }

  /** `structurally_compatible`: a comparison that starts with nothing visited. */
  method StructurallyCompatible(t: Ty, u: Ty, a: Table, p: Table) returns (ok: bool)
    ensures ok == Compat(t, u, a, p, {})
  {
    var comparison := new Comparison();
    ok := comparison.Inner(t, u, a, p);
  }
}
