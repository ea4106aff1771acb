/** Generic declarations on the two sides of a comparison. The comparison remembers a pair of declarations by their
    names, so a pair is trusted at arguments it was not compared at. That is right for declarations that use their
    type parameters in parallel: what their members ask of each other then does not depend on the arguments. */
module BoundaryUniform {
  import opened Types
  import opened TypeCore
  import opened Resolution
  import opened Boundary

  // ----- the pairs a comparison meets -----

  predicate Fits(decl: TypeDecl, args: seq<Ty>) {
    |args| == |decl.typeParams|
  }

  /** Two named types that stand across from each other are of a pair in `met`, and have as many arguments as their
      declarations have parameters. */
  ghost predicate Facing(t: Ty, u: Ty, a: Table, p: Table, met: iset<NamePair>) {
    match (t, u)
    case (Pair(v, b, c), Pair(w, d, e)) => v == w ==> Facing(b, d, a, p, met) && Facing(c, e, a, p, met)
    case (Wrap(v, b), Wrap(w, c)) => v == w && Crosses(v) ==> Facing(b, c, a, p, met)
    case (Named(m, _, ps), Named(n, _, qs)) =>
      |ps| == |qs| ==>
        (m, n) in met && (m in a ==> Fits(a[m], ps)) && (n in p ==> Fits(p[n], qs)) &&
        forall i | 0 <= i < |ps| :: Facing(ps[i], qs[i], a, p, met)
    case _ => true
  }

  /** A member's type as the declaration writes it, its parameters standing for themselves. */
  function Resolved(decl: TypeDecl, ref: TypeRef, table: Table): Option<Ty> {
    Resolve(ref, table, set q | q in decl.typeParams)
  }

  /** The walk over the two bodies gets as far as their members' types. */
  predicate NamesMatch(b: Body, c: Body) {
    match (b, c)
    case (Record(fs), Record(gs)) => |fs| == |gs| && forall i | 0 <= i < |fs| :: FindField(gs, fs[i].name).Some?
    case (Sum(vs), Sum(ws)) =>
      |vs| == |ws| && forall i | 0 <= i < |vs| ::
        var w := FindVariant(ws, vs[i].name);
        w.Some? && PayloadNames(vs[i].payload) == PayloadNames(w.value.payload)
    case _ => false
  }

  /** The two bodies have members of these types under one name. */
  ghost predicate Compared(f: TypeRef, g: TypeRef, b: Body, c: Body) {
    NamesMatch(b, c) &&
    match (b, c)
    case (Record(fs), Record(gs)) =>
      exists i | 0 <= i < |fs| :: fs[i].typ == f && FindField(gs, fs[i].name).value.typ == g
    case (Sum(vs), Sum(ws)) =>
      exists i | 0 <= i < |vs| :: ComparedPayloads(f, g, vs[i].payload, FindVariant(ws, vs[i].name).value.payload)
    case _ => false
  }

  ghost predicate ComparedPayloads(f: TypeRef, g: TypeRef, fs: seq<PayloadField>, gs: seq<PayloadField>) {
    exists k | 0 <= k < |fs| && k < |gs| :: fs[k].typ == f && gs[k].typ == g
  }

  /** Members that are compared lead to no pairs but those in `met`. */
  ghost predicate MembersFacing(m: TypeDecl, f: TypeRef, a: Table, n: TypeDecl, g: TypeRef, p: Table, met: iset<NamePair>) {
    var t, u := Resolved(m, f, a), Resolved(n, g, p);
    t.Some? && u.Some? ==> Facing(t.value, u.value, a, p, met)
  }

  ghost predicate BodiesFacing(m: TypeDecl, a: Table, n: TypeDecl, p: Table, met: iset<NamePair>) {
    forall f, g | Compared(f, g, m.body, n.body) :: MembersFacing(m, f, a, n, g, p, met)
  }

  // ----- parallel parameters -----

  /** `x` and `y` are parameters at one position. Of two parameters with one name the later one counts. */
  ghost predicate SamePosition(x: string, y: string, xs: seq<string>, ys: seq<string>) {
    exists i | 0 <= i < |xs| && i < |ys| :: xs[i] == x && ys[i] == y && x !in xs[i + 1..] && y !in ys[i + 1..]
  }

  /** Wherever the walk over the two types meets a parameter on one side, it meets the parameter at the same
      position on the other. */
  ghost predicate Parallel(t: Ty, u: Ty, xs: seq<string>, ys: seq<string>) {
    match (t, u)
    case (Var(x), Var(y)) => SamePosition(x, y, xs, ys)
    case (Var(_), _) => false
    case (_, Var(_)) => false
    case (Pair(p, a, b), Pair(q, c, d)) => p == q ==> Parallel(a, c, xs, ys) && Parallel(b, d, xs, ys)
    case (Wrap(v, a), Wrap(w, b)) => v == w && Crosses(v) ==> Parallel(a, b, xs, ys)
    case (Named(_, _, ps), Named(_, _, qs)) =>
      |ps| == |qs| ==> forall i | 0 <= i < |ps| :: Parallel(ps[i], qs[i], xs, ys)
    case _ => true
  }

  ghost predicate ParallelMembers(m: TypeDecl, f: TypeRef, a: Table, n: TypeDecl, g: TypeRef, p: Table) {
    var t, u := Resolved(m, f, a), Resolved(n, g, p);
    t.Some? && u.Some? ==> Parallel(t.value, u.value, m.typeParams, n.typeParams)
  }

  /** Members that are compared use the parameters in parallel; bodies that differ by their names are not compared. */
  ghost predicate ParallelBodies(m: TypeDecl, a: Table, n: TypeDecl, p: Table) {
    forall f, g | Compared(f, g, m.body, n.body) :: ParallelMembers(m, f, a, n, g, p)
  }

  /** All named types with names in `names`. */
  ghost function OfNames(names: set<NamePair>): Relation {
    iset q: (Ty, Ty) | q.0.Named? && q.1.Named? && (q.0.name, q.1.name) in names
  }

  /** The arguments at one position walk. */
  ghost predicate Linked(s: Subst, z: Subst, xs: seq<string>, ys: seq<string>, r: Relation) {
    forall x, y | SamePosition(x, y, xs, ys) :: x in s && y in z && Walk(s[x], z[y], r)
  }

  /** Parallel types walk at all arguments or at none. */
  lemma {:induction false} ParallelTransfer(t: Ty, u: Ty, xs: seq<string>, ys: seq<string>, s: Subst, z: Subst,
                                            s': Subst, z': Subst, names: set<NamePair>)
    requires Parallel(t, u, xs, ys)
    requires Linked(s, z, xs, ys, OfNames(names)) && Linked(s', z', xs, ys, OfNames(names))
    requires Walk(Substitute(t, s), Substitute(u, z), OfNames(names))
    ensures Walk(Substitute(t, s'), Substitute(u, z'), OfNames(names))
    decreases t, 1
  {
    hide Linked, SamePosition, OfNames;
    if t.Var? {
      VariableTransfer(t.variable, u.variable, xs, ys, s', z', names);
    } else if t.Named? && u.Named? {
      NamedTransfer(t, u, xs, ys, s, z, s', z', names);
    } else if t.Wrap? && u.Wrap? {
      ParallelTransfer(t.inner, u.inner, xs, ys, s, z, s', z', names);
    } else if t.Pair? && u.Pair? {
      ParallelTransfer(t.first, u.first, xs, ys, s, z, s', z', names);
      ParallelTransfer(t.second, u.second, xs, ys, s, z, s', z', names);
    } else {
      LeafTransfer(t, u, xs, ys, s, z, s', z', OfNames(names));
    }
  }

  lemma LeafTransfer(t: Ty, u: Ty, xs: seq<string>, ys: seq<string>, s: Subst, z: Subst, s': Subst, z': Subst, r: Relation)
    requires Parallel(t, u, xs, ys) && !t.Var?
    requires !(t.Named? && u.Named?) && !(t.Wrap? && u.Wrap?) && !(t.Pair? && u.Pair?)
    requires Walk(Substitute(t, s), Substitute(u, z), r)
    ensures Walk(Substitute(t, s'), Substitute(u, z'), r)
  {
    hide SamePosition, SubstituteAll;
  }

  lemma {:induction false} NamedTransfer(t: Ty, u: Ty, xs: seq<string>, ys: seq<string>, s: Subst, z: Subst,
                                         s': Subst, z': Subst, names: set<NamePair>)
    requires Parallel(t, u, xs, ys) && t.Named? && u.Named?
    requires Linked(s, z, xs, ys, OfNames(names)) && Linked(s', z', xs, ys, OfNames(names))
    requires Walk(Substitute(t, s), Substitute(u, z), OfNames(names))
    ensures Walk(Substitute(t, s'), Substitute(u, z'), OfNames(names))
    decreases t, 0
  {
    hide Linked, SamePosition;
    forall i | 0 <= i < |t.args| ensures Walk(Substitute(t.args[i], s'), Substitute(u.args[i], z'), OfNames(names)) {
      assert Walk(SubstituteAll(t.args, s)[i], SubstituteAll(u.args, z)[i], OfNames(names));
      ParallelTransfer(t.args[i], u.args[i], xs, ys, s, z, s', z', names);
    }
  }

  lemma VariableTransfer(x: string, y: string, xs: seq<string>, ys: seq<string>, s: Subst, z: Subst, names: set<NamePair>)
    requires SamePosition(x, y, xs, ys) && Linked(s, z, xs, ys, OfNames(names))
    ensures Walk(Substitute(Var(x), s), Substitute(Var(y), z), OfNames(names))
  {
  }

  ghost predicate ArgsWalk(ps: seq<Ty>, qs: seq<Ty>, r: Relation) {
    forall i | 0 <= i < |ps| && i < |qs| :: Walk(ps[i], qs[i], r)
  }

  /** The substitution an occurrence's arguments give. */
  function ArgSubst(decl: TypeDecl, args: seq<Ty>): Subst
    requires Fits(decl, args)
  {
    if decl.typeParams == [] then map[] else ParamSubst(decl.typeParams, args)
  }

  lemma InstantiateIs(decl: TypeDecl, args: seq<Ty>, ref: TypeRef, table: Table)
    requires Fits(decl, args)
    ensures InstantiateField(decl, args, ref, table) ==
            match Resolved(decl, ref, table) case None => None case Some(t) => Some(Substitute(t, ArgSubst(decl, args)))
  {
    if decl.typeParams == [] {
      assert (set q | q in decl.typeParams) == {};
      if Resolved(decl, ref, table).Some? { SubstituteNothing(Resolved(decl, ref, table).value); }
    }
  }

  lemma ArgsLinked(m: TypeDecl, ps: seq<Ty>, n: TypeDecl, qs: seq<Ty>, r: Relation)
    requires Fits(m, ps) && Fits(n, qs) && ArgsWalk(ps, qs, r)
    ensures Linked(ArgSubst(m, ps), ArgSubst(n, qs), m.typeParams, n.typeParams, r)
  {
    forall x, y | SamePosition(x, y, m.typeParams, n.typeParams)
      ensures x in ArgSubst(m, ps) && y in ArgSubst(n, qs) && Walk(ArgSubst(m, ps)[x], ArgSubst(n, qs)[y], r)
    {
      var i :| 0 <= i < |m.typeParams| && i < |n.typeParams| && m.typeParams[i] == x && n.typeParams[i] == y &&
               x !in m.typeParams[i + 1..] && y !in n.typeParams[i + 1..];
      ParamSubstAt(m.typeParams, ps, i);
      ParamSubstAt(n.typeParams, qs, i);
    }
  }

  /** Two occurrences of one pair of declarations, each with arguments that walk. */
  ghost predicate TwoUses(x: Side, y: Side, x': Side, y': Side, r: Relation) {
    x.decl == x'.decl && x.table == x'.table && y.decl == y'.decl && y.table == y'.table &&
    Fits(x.decl, x.args) && Fits(x.decl, x'.args) && Fits(y.decl, y.args) && Fits(y.decl, y'.args) &&
    ArgsWalk(x.args, y.args, r) && ArgsWalk(x'.args, y'.args, r)
  }

  lemma MembersTransfer(x: Side, f: TypeRef, y: Side, g: TypeRef, x': Side, y': Side, names: set<NamePair>)
    requires TwoUses(x, y, x', y', OfNames(names)) && ParallelMembers(x.decl, f, x.table, y.decl, g, y.table)
    requires MembersWalk(x, f, y, g, OfNames(names))
    ensures MembersWalk(x', f, y', g, OfNames(names))
  {
    hide Walk, Parallel, Resolve, InstantiateField, ArgsWalk, Linked, ArgSubst;
    InstantiateIs(x.decl, x.args, f, x.table);
    InstantiateIs(x.decl, x'.args, f, x.table);
    InstantiateIs(y.decl, y.args, g, y.table);
    InstantiateIs(y.decl, y'.args, g, y.table);
    ArgsLinked(x.decl, x.args, y.decl, y.args, OfNames(names));
    ArgsLinked(x.decl, x'.args, y.decl, y'.args, OfNames(names));
    ParallelTransfer(Resolved(x.decl, f, x.table).value, Resolved(y.decl, g, y.table).value, x.decl.typeParams,
                     y.decl.typeParams, ArgSubst(x.decl, x.args), ArgSubst(y.decl, y.args),
                     ArgSubst(x.decl, x'.args), ArgSubst(y.decl, y'.args), names);
  }

  /** Members that walk are compared. */
  lemma FieldCompared(x: Side, y: Side, sameName: bool, r: Relation, i: nat)
    requires BodiesWalk(x, y, sameName, r) && x.decl.body.Record? && y.decl.body.Record? && i < |x.decl.body.fields|
    ensures var f := x.decl.body.fields[i]; var g := FindField(y.decl.body.fields, f.name);
            g.Some? && Compared(f.typ, g.value.typ, x.decl.body, y.decl.body) && MembersWalk(x, f.typ, y, g.value.typ, r)
  {
    hide MembersWalk;
    var fs, gs := x.decl.body.fields, y.decl.body.fields;
    assert forall k | 0 <= k < |fs| :: FieldWalks(x, fs[k], y, gs, r);
  }

  lemma PayloadCompared(x: Side, y: Side, sameName: bool, r: Relation, i: nat, k: nat)
    requires BodiesWalk(x, y, sameName, r) && x.decl.body.Sum? && y.decl.body.Sum? && i < |x.decl.body.variants|
    requires k < |x.decl.body.variants[i].payload|
    ensures var v := x.decl.body.variants[i]; var w := FindVariant(y.decl.body.variants, v.name);
            w.Some? && k < |w.value.payload| &&
            Compared(v.payload[k].typ, w.value.payload[k].typ, x.decl.body, y.decl.body) &&
            MembersWalk(x, v.payload[k].typ, y, w.value.payload[k].typ, r)
  {
    hide MembersWalk;
    var vs, ws := x.decl.body.variants, y.decl.body.variants;
    forall j | 0 <= j < |vs|
      ensures FindVariant(ws, vs[j].name).Some? &&
              PayloadNames(vs[j].payload) == PayloadNames(FindVariant(ws, vs[j].name).value.payload)
    {
      assert VariantWalks(x, vs[j], y, ws, r);
    }
    assert VariantWalks(x, vs[i], y, ws, r);
    var w := FindVariant(ws, vs[i].name).value;
    assert ComparedPayloads(vs[i].payload[k].typ, w.payload[k].typ, vs[i].payload, w.payload);
  }

  /** The walk over two bodies reads the types of the members that are compared, and nothing else of them. */
  lemma BodiesWalkBy(x: Side, y: Side, x': Side, y': Side, sameName: bool, r: Relation, s: Relation)
    requires BodiesWalk(x, y, sameName, r) && x.decl == x'.decl && y.decl == y'.decl
    requires forall f, g | Compared(f, g, x.decl.body, y.decl.body) && MembersWalk(x, f, y, g, r) :: MembersWalk(x', f, y', g, s)
    ensures BodiesWalk(x', y', sameName, s)
  {
    hide MembersWalk, Compared;
    match (x.decl.body, y.decl.body)
    case (Record(fs), Record(gs)) =>
      forall i | 0 <= i < |fs| ensures FieldWalks(x', fs[i], y', gs, s) { FieldCompared(x, y, sameName, r, i); }
    case (Sum(vs), Sum(ws)) =>
      forall i | 0 <= i < |vs| ensures VariantWalks(x', vs[i], y', ws, s) {
        assert VariantWalks(x, vs[i], y, ws, r);
        forall k | 0 <= k < |vs[i].payload|
          ensures MembersWalk(x', vs[i].payload[k].typ, y', FindVariant(ws, vs[i].name).value.payload[k].typ, s)
        {
          PayloadCompared(x, y, sameName, r, i, k);
        }
      }
    case _ =>
  }

  /** What two parallel declarations ask of each other does not depend on the arguments. */
  lemma BodiesTransfer(x: Side, y: Side, x': Side, y': Side, sameName: bool, names: set<NamePair>)
    requires TwoUses(x, y, x', y', OfNames(names)) && ParallelBodies(x.decl, x.table, y.decl, y.table)
    requires BodiesWalk(x, y, sameName, OfNames(names))
    ensures BodiesWalk(x', y', sameName, OfNames(names))
  {
    hide TwoUses, ParallelMembers, MembersWalk, OfNames, Compared, BodiesWalk;
    assert x.decl == x'.decl && y.decl == y'.decl by { SidesAlike(x, y, x', y', OfNames(names)); }
    forall f, g | Compared(f, g, x.decl.body, y.decl.body) && MembersWalk(x, f, y, g, OfNames(names))
      ensures MembersWalk(x', f, y', g, OfNames(names))
    {
      MembersTransfer(x, f, y, g, x', y', names);
    }
    BodiesWalkBy(x, y, x', y', sameName, OfNames(names), OfNames(names));
  }

  lemma SidesAlike(x: Side, y: Side, x': Side, y': Side, r: Relation)
    requires TwoUses(x, y, x', y', r)
    ensures x.decl == x'.decl && y.decl == y'.decl
  {
  }

  // ----- the pairs of instantiated members -----

  ghost predicate ArgsFacing(ps: seq<Ty>, qs: seq<Ty>, a: Table, p: Table, met: iset<NamePair>) {
    |ps| == |qs| && forall i | 0 <= i < |ps| :: Facing(ps[i], qs[i], a, p, met)
  }

  /** Parameters at one position stand for types that face each other. */
  ghost predicate SubstFacing(s: Subst, z: Subst, xs: seq<string>, ys: seq<string>, a: Table, p: Table, met: iset<NamePair>) {
    forall x, y | SamePosition(x, y, xs, ys) :: x in s && y in z && Facing(s[x], z[y], a, p, met)
  }

  lemma {:induction false} SubstituteFacing(t: Ty, u: Ty, xs: seq<string>, ys: seq<string>, s: Subst, z: Subst,
                                            a: Table, p: Table, met: iset<NamePair>)
    requires Parallel(t, u, xs, ys) && Facing(t, u, a, p, met) && SubstFacing(s, z, xs, ys, a, p, met)
    ensures Facing(Substitute(t, s), Substitute(u, z), a, p, met)
    decreases t
  {
    hide SamePosition;
    if t.Pair? && u.Pair? && t.pairing == u.pairing {
      SubstituteFacing(t.first, u.first, xs, ys, s, z, a, p, met);
      SubstituteFacing(t.second, u.second, xs, ys, s, z, a, p, met);
    } else if t.Wrap? && u.Wrap? && t.wrapper == u.wrapper && Crosses(t.wrapper) {
      SubstituteFacing(t.inner, u.inner, xs, ys, s, z, a, p, met);
    } else if t.Named? && u.Named? && |t.args| == |u.args| {
      forall i | 0 <= i < |t.args| ensures Facing(Substitute(t.args[i], s), Substitute(u.args[i], z), a, p, met) {
        SubstituteFacing(t.args[i], u.args[i], xs, ys, s, z, a, p, met);
      }
    }
  }

  lemma ArgsSubstFacing(m: TypeDecl, ps: seq<Ty>, n: TypeDecl, qs: seq<Ty>, a: Table, p: Table, met: iset<NamePair>)
    requires Fits(m, ps) && Fits(n, qs) && ArgsFacing(ps, qs, a, p, met)
    ensures SubstFacing(ArgSubst(m, ps), ArgSubst(n, qs), m.typeParams, n.typeParams, a, p, met)
  {
    hide Facing;
    forall x, y | SamePosition(x, y, m.typeParams, n.typeParams)
      ensures x in ArgSubst(m, ps) && y in ArgSubst(n, qs) && Facing(ArgSubst(m, ps)[x], ArgSubst(n, qs)[y], a, p, met)
    {
      var i :| 0 <= i < |m.typeParams| && i < |n.typeParams| && m.typeParams[i] == x && n.typeParams[i] == y &&
               x !in m.typeParams[i + 1..] && y !in n.typeParams[i + 1..];
      ParamSubstAt(m.typeParams, ps, i);
      ParamSubstAt(n.typeParams, qs, i);
    }
  }

  /** The arguments fit and meet nothing but pairs in `met`. */
  ghost predicate SidesFacing(x: Side, y: Side, met: iset<NamePair>) {
    Fits(x.decl, x.args) && Fits(y.decl, y.args) && ArgsFacing(x.args, y.args, x.table, y.table, met)
  }

  lemma InstantiateFacing(x: Side, f: TypeRef, y: Side, g: TypeRef, met: iset<NamePair>)
    requires SidesFacing(x, y, met) && ParallelMembers(x.decl, f, x.table, y.decl, g, y.table)
    requires MembersFacing(x.decl, f, x.table, y.decl, g, y.table, met)
    ensures var t, u := InstantiateField(x.decl, x.args, f, x.table), InstantiateField(y.decl, y.args, g, y.table);
            t.Some? && u.Some? ==> Facing(t.value, u.value, x.table, y.table, met)
  {
    hide Facing, Parallel, Resolve, InstantiateField, ArgsFacing, SubstFacing, ArgSubst;
    InstantiateIs(x.decl, x.args, f, x.table);
    InstantiateIs(y.decl, y.args, g, y.table);
    var t, u := Resolved(x.decl, f, x.table), Resolved(y.decl, g, y.table);
    if t.Some? && u.Some? {
      ArgsSubstFacing(x.decl, x.args, y.decl, y.args, x.table, y.table, met);
      SubstituteFacing(t.value, u.value, x.decl.typeParams, y.decl.typeParams, ArgSubst(x.decl, x.args),
                       ArgSubst(y.decl, y.args), x.table, y.table, met);
    }
  }

  /** The members that are compared use the parameters in parallel and lead to pairs in `met`. */
  ghost predicate Regular(m: TypeDecl, a: Table, n: TypeDecl, p: Table, met: iset<NamePair>) {
    ParallelBodies(m, a, n, p) && BodiesFacing(m, a, n, p, met)
  }

  /** What holds of all types that meet pairs in `met` holds of the members the walk meets. */
  lemma BodiesWalkLift(x: Side, y: Side, sameName: bool, r: Relation, s: Relation, met: iset<NamePair>)
    requires SidesFacing(x, y, met) && Regular(x.decl, x.table, y.decl, y.table, met) && BodiesWalk(x, y, sameName, r)
    requires forall t, u | Facing(t, u, x.table, y.table, met) && Walk(t, u, r) :: Walk(t, u, s)
    ensures BodiesWalk(x, y, sameName, s)
  {
    hide Walk, Facing, SidesFacing, InstantiateField, Compared, ParallelMembers, MembersFacing, BodiesWalk;
    forall f, g | Compared(f, g, x.decl.body, y.decl.body) && MembersWalk(x, f, y, g, r) ensures MembersWalk(x, f, y, g, s) {
      InstantiateFacing(x, f, y, g, met);
    }
    BodiesWalkBy(x, y, x, y, sameName, r, s);
  }

  // ----- tables -----

  /** Only declarations with as many parameters are ever compared. */
  predicate SameCount(m: TypeDecl, n: TypeDecl) {
    |m.typeParams| == |n.typeParams|
  }

  /** A pair in `met` that can be compared. */
  predicate Meeting(m: string, n: string, a: Table, p: Table) {
    m in a && n in p && SameCount(a[m], p[n])
  }

  /** Whatever is compared uses its parameters in parallel, and leads to pairs in `met` only. */
  ghost predicate Uniform(a: Table, p: Table, met: iset<NamePair>) {
    forall m, n | (m, n) in met && Meeting(m, n, a, p) :: Regular(a[m], a, p[n], p, met)
  }

  /** As `Uniform`, except that declarations the two tables share may be anything: they are never walked. */
  ghost predicate UniformUpToShared(a: Table, p: Table, met: iset<NamePair>) {
    forall m, n | (m, n) in met && Meeting(m, n, a, p) :: OneDeclaration(m, n, a, p) || Regular(a[m], a, p[n], p, met)
  }

  // ----- all pairs -----

  ghost predicate AnyPair(key: NamePair) { true }

  ghost const EVERY: iset<NamePair> := iset key: NamePair | AnyPair(key)

  /** Every declaration the type names has as many arguments as parameters. */
  predicate Applied(t: Ty, table: Table) {
    match t
    case Named(n, _, args) =>
      (n in table ==> Fits(table[n], args)) && forall i | 0 <= i < |args| :: Applied(args[i], table)
    case Wrap(_, a) => Applied(a, table)
    case Pair(_, a, b) => Applied(a, table) && Applied(b, table)
    case _ => true
  }

  ghost predicate IsMember(ref: TypeRef, body: Body) {
    match body
    case Record(fs) => exists i | 0 <= i < |fs| :: fs[i].typ == ref
    case Sum(vs) => exists i | 0 <= i < |vs| :: exists k | 0 <= k < |vs[i].payload| :: vs[i].payload[k].typ == ref
    case _ => false
  }

  ghost predicate WellApplied(table: Table) {
    forall n | n in table :: forall ref | IsMember(ref, table[n].body) ::
      Resolved(table[n], ref, table).Some? ==> Applied(Resolved(table[n], ref, table).value, table)
  }

  lemma {:induction false} AppliedFacing(t: Ty, u: Ty, a: Table, p: Table)
    requires Applied(t, a) && Applied(u, p)
    ensures Facing(t, u, a, p, EVERY)
  {
    if t.Pair? && u.Pair? {
      AppliedFacing(t.first, u.first, a, p);
      AppliedFacing(t.second, u.second, a, p);
    } else if t.Wrap? && u.Wrap? {
      AppliedFacing(t.inner, u.inner, a, p);
    } else if t.Named? && u.Named? && |t.args| == |u.args| {
      assert AnyPair((t.name, u.name));
      forall i | 0 <= i < |t.args| ensures Facing(t.args[i], u.args[i], a, p, EVERY) {
        AppliedFacing(t.args[i], u.args[i], a, p);
      }
    }
  }

  lemma ComparedMembers(f: TypeRef, g: TypeRef, b: Body, c: Body)
    requires Compared(f, g, b, c)
    ensures IsMember(f, b) && IsMember(g, c)
  {
  }

  /** Where every reference has as many arguments as parameters, the set of all pairs will do. */
  lemma AppliedBodiesFacing(m: string, n: string, a: Table, p: Table)
    requires WellApplied(a) && WellApplied(p) && m in a && n in p
    ensures BodiesFacing(a[m], a, p[n], p, EVERY)
  {
    hide Facing, Resolve, Compared, IsMember, Applied;
    forall f, g | Compared(f, g, a[m].body, p[n].body) ensures MembersFacing(a[m], f, a, p[n], g, p, EVERY) {
      ComparedMembers(f, g, a[m].body, p[n].body);
      var t, u := Resolved(a[m], f, a), Resolved(p[n], g, p);
      if t.Some? && u.Some? { AppliedFacing(t.value, u.value, a, p); }
    }
  }

  lemma {:induction false} ClosedParallel(t: Ty, u: Ty, xs: seq<string>, ys: seq<string>)
    requires Vars(t) == Vars(u) == {}
    ensures Parallel(t, u, xs, ys)
  {
    if t.Pair? && u.Pair? {
      ClosedParallel(t.first, u.first, xs, ys);
      ClosedParallel(t.second, u.second, xs, ys);
    } else if t.Wrap? && u.Wrap? {
      ClosedParallel(t.inner, u.inner, xs, ys);
    } else if t.Named? && u.Named? && |t.args| == |u.args| {
      forall i | 0 <= i < |t.args| ensures Parallel(t.args[i], u.args[i], xs, ys) {
        assert Vars(t.args[i]) <= Vars(t) && Vars(u.args[i]) <= Vars(u);
        ClosedParallel(t.args[i], u.args[i], xs, ys);
      }
    }
  }

  /** Tables without type parameters are uniform. */
  lemma ParameterFreeUniform(a: Table, p: Table)
    requires ParameterFree(a) && ParameterFree(p) && WellApplied(a) && WellApplied(p)
    ensures Uniform(a, p, EVERY)
  {
    hide Applied, Parallel, Resolve, Compared, WellApplied, BodiesFacing;
    forall m, n | m in a && n in p ensures BodiesFacing(a[m], a, p[n], p, EVERY) { AppliedBodiesFacing(m, n, a, p); }
    forall m, n, f, g | m in a && n in p ensures ParallelMembers(a[m], f, a, p[n], g, p) {
      assert (set q | q in a[m].typeParams) == {} && (set q | q in p[n].typeParams) == {};
      ResolveVars(f, a, {});
      ResolveVars(g, p, {});
      if Resolved(a[m], f, a).Some? && Resolved(p[n], g, p).Some? {
        ClosedParallel(Resolved(a[m], f, a).value, Resolved(p[n], g, p).value, [], []);
      }
    }
  }

  predicate NoRepeats(names: seq<string>) {
    forall i, j | 0 <= i < j < |names| :: names[i] != names[j]
  }

  /** Two declarations that write a member in the same words use their parameters in parallel there. */
  lemma {:induction false} SameWordsParallel(r: TypeRef, a: Table, p: Table, params: seq<string>)
    requires NoRepeats(params)
    ensures var vars := set q | q in params; var t, u := Resolve(r, a, vars), Resolve(r, p, vars);
            t.Some? && u.Some? ==> Parallel(t.value, u.value, params, params)
    decreases r, 1
  {
    match r
    case NamedRef(n) =>
      if n in params {
        var i :| 0 <= i < |params| && params[i] == n;
        assert SamePosition(n, n, params, params);
      }
    case WrapRef(_, b) => SameWordsParallel(b, a, p, params);
    case PairRef(_, b, c) => SameWordsParallel(b, a, p, params); SameWordsParallel(c, a, p, params);
    case AppRef(_, args) => SameWordsParallelAll(args, a, p, params);
    case _ =>
  }

  lemma {:induction false} SameWordsParallelAll(rs: seq<TypeRef>, a: Table, p: Table, params: seq<string>)
    requires NoRepeats(params)
    ensures var vars := set q | q in params; var ts, us := ResolveAll(rs, a, vars), ResolveAll(rs, p, vars);
            ts.Some? && us.Some? ==>
            |ts.value| == |us.value| && forall i | 0 <= i < |ts.value| :: Parallel(ts.value[i], us.value[i], params, params)
    decreases rs, 0
  {
    if rs != [] {
      SameWordsParallel(rs[0], a, p, params);
      SameWordsParallelAll(rs[1..], a, p, params);
    }
  }

  /** Every member is found under its own name. */
  ghost predicate FoundByName(body: Body) {
    match body
    case Record(fs) => forall i | 0 <= i < |fs| :: FindField(fs, fs[i].name) == Some(fs[i])
    case Sum(vs) => forall i | 0 <= i < |vs| :: FindVariant(vs, vs[i].name) == Some(vs[i])
    case _ => true
  }

  lemma SameWordsCompared(f: TypeRef, g: TypeRef, body: Body)
    requires Compared(f, g, body, body) && FoundByName(body)
    ensures f == g
  {
    if body.Sum? {
      var vs := body.variants;
      var i :| 0 <= i < |vs| && ComparedPayloads(f, g, vs[i].payload, FindVariant(vs, vs[i].name).value.payload);
    }
  }

  /** Declarations with the same parameters and the same members, in the same words, are parallel. */
  lemma SameWordsUniform(m: TypeDecl, a: Table, n: TypeDecl, p: Table)
    requires m.typeParams == n.typeParams && NoRepeats(m.typeParams) && m.body == n.body
    requires FoundByName(m.body)
    ensures ParallelBodies(m, a, n, p)
  {
    hide Resolve, Parallel, Compared;
    forall f, g | Compared(f, g, m.body, n.body) ensures ParallelMembers(m, f, a, n, g, p) {
      SameWordsCompared(f, g, m.body);
      SameWordsParallel(f, a, p, m.typeParams);
    }
  }
}
