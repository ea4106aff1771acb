/** A declaration both tables hold under one name is taken for granted. What that is worth. */
module BoundaryCoherence {
  import opened Types
  import opened TypeCore
  import opened Resolution
  import opened Boundary
  import opened BoundaryUniform
  import opened BoundaryExact

  /** A simulation that takes no shared declaration for granted. */
  ghost predicate PlainSimulation(r: Relation, a: Table, p: Table) {
    forall q | q in r :: Unfolds(q.0, q.1, a, p, r)
  }

  ghost predicate PlainSimilar(t: Ty, u: Ty, a: Table, p: Table) {
    exists r: Relation :: PlainSimulation(r, a, p) && Walk(t, u, r)
  }

  ghost function SharedNames(a: Table, p: Table): set<NamePair> {
    set n | n in a.Keys && n in p.Keys && OneDeclaration(n, n, a, p) :: (n, n)
  }

  /** The declarations of every pair in `names` match member by member, over `names`. */
  ghost predicate PlainUpTo(names: set<NamePair>, a: Table, p: Table) {
    forall key | key in names ::
      key.0 in a && key.1 in p && Unfolds(Sample(key.0, a), Sample(key.1, p), a, p, OfNames(names))
  }

  /** The shared declarations a comparison can meet. */
  ghost function SharedMet(a: Table, p: Table, met: iset<NamePair>): set<NamePair> {
    set key | key in SharedNames(a, p) && key in met
  }

  /** A declaration both tables hold under one name means the same thing in both, if a comparison can meet it. */
  ghost predicate Coherent(a: Table, p: Table, met: iset<NamePair>) {
    exists names: set<NamePair> :: SharedMet(a, p, met) <= names && PlainUpTo(names, a, p)
  }

  lemma UnfoldsMonotone(t: Ty, u: Ty, a: Table, p: Table, r: Relation, s: Relation)
    requires Unfolds(t, u, a, p, r) && r <= s
    ensures Unfolds(t, u, a, p, s)
  {
    hide Walk, BodiesWalk;
    BodiesWalkMonotone(Side(a[t.name], t.args, a), Side(p[u.name], u.args, p), t.name == u.name, r, s);
  }

  lemma UnfoldsLift(t: Ty, u: Ty, a: Table, p: Table, r: Relation, s: Relation, met: iset<NamePair>)
    requires Uniform(a, p, met) && FacingNames(t, u, a, p, met) && Unfolds(t, u, a, p, r)
    requires forall x, y | Facing(x, y, a, p, met) && Walk(x, y, r) :: Walk(x, y, s)
    ensures Unfolds(t, u, a, p, s)
  {
    hide Walk, BodiesWalk, Regular, SidesFacing, FacingNames;
    FacingSides(t, u, a, p, met);
    BodiesWalkLift(Side(a[t.name], t.args, a), Side(p[u.name], u.args, p), t.name == u.name, r, s, met);
  }

  lemma UnfoldsTransfer(t: Ty, u: Ty, t': Ty, u': Ty, a: Table, p: Table, names: set<NamePair>, met: iset<NamePair>)
    requires Uniform(a, p, met) && FacingNames(t, u, a, p, met) && FacingNames(t', u', a, p, met)
    requires Unfolds(t, u, a, p, OfNames(names)) && t'.name == t.name && u'.name == u.name
    requires ArgsWalk(t.args, u.args, OfNames(names)) && ArgsWalk(t'.args, u'.args, OfNames(names))
    ensures Unfolds(t', u', a, p, OfNames(names))
  {
    hide Walk, BodiesWalk, ParallelBodies, BodiesFacing, ArgsWalk, Facing, ArgsFacing;
    FacingSides(t, u, a, p, met);
    FacingSides(t', u', a, p, met);
    BodiesTransfer(Side(a[t.name], t.args, a), Side(p[u.name], u.args, p), Side(a[t.name], t'.args, a),
                   Side(p[u.name], u'.args, p), t.name == u.name, names);
  }

  lemma UsesPlain(names: set<NamePair>, a: Table, p: Table, met: iset<NamePair>)
    requires Uniform(a, p, met) && PlainUpTo(names, a, p)
    ensures PlainSimulation(Uses(names, a, p, met), a, p)
  {
    hide Walk, Unfolds, Facing, Uniform;
    forall x, y | Facing(x, y, a, p, met) && Walk(x, y, OfNames(names)) ensures Walk(x, y, Uses(names, a, p, met)) {
      WalkUses(x, y, names, a, p, met);
    }
    forall q | q in Uses(names, a, p, met) ensures Unfolds(q.0, q.1, a, p, Uses(names, a, p, met)) {
      NamedArgsWalk(q.0, q.1, OfNames(names));
      FacingSides(q.0, q.1, a, p, met);
      SampleWalks(q.0.name, q.1.name, a, p, OfNames(names), met);
      UnfoldsTransfer(Sample(q.0.name, a), Sample(q.1.name, p), q.0, q.1, a, p, names, met);
      UnfoldsLift(q.0, q.1, a, p, OfNames(names), Uses(names, a, p, met), met);
    }
  }

  lemma NamesPlainSimilar(t: Ty, u: Ty, names: set<NamePair>, a: Table, p: Table, met: iset<NamePair>)
    requires Uniform(a, p, met) && PlainUpTo(names, a, p) && Facing(t, u, a, p, met) && Walk(t, u, OfNames(names))
    ensures PlainSimilar(t, u, a, p)
  {
    hide Walk, Facing, Uniform, PlainUpTo;
    UsesPlain(names, a, p, met);
    WalkUses(t, u, names, a, p, met);
  }

  /** The pairs among `names` that a comparison can meet. */
  ghost function Met(names: set<NamePair>, a: Table, p: Table, met: iset<NamePair>): set<NamePair> {
    set key | key in names && key in met && Meeting(key.0, key.1, a, p)
  }

  /** No other pairs are needed. */
  lemma {:induction false} WalkMet(t: Ty, u: Ty, names: set<NamePair>, a: Table, p: Table, met: iset<NamePair>)
    requires (forall key | key in names :: key.0 in a && key.1 in p) && Facing(t, u, a, p, met) && Walk(t, u, OfNames(names))
    ensures Walk(t, u, OfNames(Met(names, a, p, met)))
  {
    if t.Named? && u.Named? {
      forall i | 0 <= i < |t.args| ensures Walk(t.args[i], u.args[i], OfNames(Met(names, a, p, met))) {
        WalkMet(t.args[i], u.args[i], names, a, p, met);
      }
    } else if t.Wrap? && u.Wrap? {
      WalkMet(t.inner, u.inner, names, a, p, met);
    } else if t.Pair? && u.Pair? {
      WalkMet(t.first, u.first, names, a, p, met);
      WalkMet(t.second, u.second, names, a, p, met);
    }
  }

  lemma UpToPlain(names: set<NamePair>, plain: set<NamePair>, a: Table, p: Table, met: iset<NamePair>)
    requires UpTo(names, a, p, {}) && PlainUpTo(plain, a, p) && SharedMet(a, p, met) <= plain && Uniform(a, p, met)
    ensures PlainUpTo(Met(names, a, p, met) + plain, a, p)
  {
    hide Walk, BodiesWalk, OneDeclaration, Uniform, Facing, FacingNames, Unfolds, Met;
    var all := Met(names, a, p, met) + plain;
    forall key | key in all
      ensures key.0 in a && key.1 in p && Unfolds(Sample(key.0, a), Sample(key.1, p), a, p, OfNames(all))
    {
      if key in plain {
        UnfoldsMonotone(Sample(key.0, a), Sample(key.1, p), a, p, OfNames(plain), OfNames(all));
      } else {
        MetPlain(key, names, plain, a, p, met);
        UnfoldsMonotone(Sample(key.0, a), Sample(key.1, p), a, p, OfNames(Met(names, a, p, met)), OfNames(all));
      }
    }
  }

  lemma MetPlain(key: NamePair, names: set<NamePair>, plain: set<NamePair>, a: Table, p: Table, met: iset<NamePair>)
    requires UpTo(names, a, p, {}) && SharedMet(a, p, met) <= plain && Uniform(a, p, met)
    requires key in Met(names, a, p, met) && key !in plain
    ensures key.0 in a && key.1 in p && Unfolds(Sample(key.0, a), Sample(key.1, p), a, p, OfNames(Met(names, a, p, met)))
  {
    hide Walk, BodiesWalk, OneDeclaration, Uniform, Facing, FacingNames, Unfolds;
    var t, u := Sample(key.0, a), Sample(key.1, p);
    assert names + {} == names && NamedStep(t, u, a, p, OfNames(names));
    OneDeclarationName(key.0, key.1, a, p);
    SampleWalks(key.0, key.1, a, p, OfNames(names), met);
    forall x, y | Facing(x, y, a, p, met) && Walk(x, y, OfNames(names)) ensures Walk(x, y, OfNames(Met(names, a, p, met))) {
      WalkMet(x, y, names, a, p, met);
    }
    UnfoldsLift(t, u, a, p, OfNames(names), OfNames(Met(names, a, p, met)), met);
  }

  lemma OneDeclarationName(m: string, n: string, a: Table, p: Table)
    requires m in a && n in p
    ensures OneDeclaration(m, n, a, p) ==> (m, n) in SharedNames(a, p)
  {
  }

  lemma PlainIsSimilar(t: Ty, u: Ty, a: Table, p: Table)
    requires PlainSimilar(t, u, a, p)
    ensures Similar(t, u, a, p)
  {
    hide Walk, BodiesWalk, OneDeclaration;
    var r: Relation :| PlainSimulation(r, a, p) && Walk(t, u, r);
    assert Simulation(r, a, p);
  }

  lemma UniformIsUniformUpToShared(a: Table, p: Table, met: iset<NamePair>)
    requires Uniform(a, p, met)
    ensures UniformUpToShared(a, p, met)
  {
    hide Regular;
  }

  /** Where what is met is uniform and coherent, taking shared declarations for granted changes nothing: the comparison
      accepts exactly the pairs whose declarations match member by member, all the way down. */
  lemma CompatIffPlainSimilar(t: Ty, u: Ty, a: Table, p: Table, met: iset<NamePair>)
    requires Uniform(a, p, met) && Coherent(a, p, met) && Facing(t, u, a, p, met)
    ensures Compat(t, u, a, p, {}) <==> PlainSimilar(t, u, a, p)
  {
    hide Walk, Passing, Uniform, Coherent, Facing, PlainSimilar, Similar;
    if Compat(t, u, a, p, {}) { CompatPlainSimilar(t, u, a, p, met); }
    if PlainSimilar(t, u, a, p) {
      PlainIsSimilar(t, u, a, p);
      SimilarCompat(t, u, a, p, {});
    }
  }

  lemma CompatPlainSimilar(t: Ty, u: Ty, a: Table, p: Table, met: iset<NamePair>)
    requires Uniform(a, p, met) && Coherent(a, p, met) && Facing(t, u, a, p, met) && Compat(t, u, a, p, {})
    ensures PlainSimilar(t, u, a, p)
  {
    hide Walk, Passing, Uniform, UniformUpToShared, Facing, PlainUpTo, PlainSimilar, UpTo, SharedMet, Met, Largest;
    UniformIsUniformUpToShared(a, p, met);
    PassingSupported(t, u, a, p, {}, met);
    LargestUpTo(a, p, {});
    var names := Largest(a, p, {});
    assert names + {} == names;
    UpToNames(names, a, p);
    WalkMet(t, u, names, a, p, met);
    var plain: set<NamePair> :| SharedMet(a, p, met) <= plain && PlainUpTo(plain, a, p);
    UpToPlain(names, plain, a, p, met);
    WalkMonotone(t, u, OfNames(Met(names, a, p, met)), OfNames(Met(names, a, p, met) + plain));
    NamesPlainSimilar(t, u, Met(names, a, p, met) + plain, a, p, met);
  }

  lemma UpToNames(names: set<NamePair>, a: Table, p: Table)
    requires UpTo(names, a, p, {})
    ensures forall key | key in names :: key.0 in a && key.1 in p
  {
  }

  // ----- the pairs that match -----

  ghost predicate KeySimilar(key: NamePair, a: Table, p: Table, met: iset<NamePair>) {
    exists t: Ty, u: Ty :: FacingNames(t, u, a, p, met) && (t.name, u.name) == key && PlainSimilar(t, u, a, p)
  }

  ghost function SimilarNames(a: Table, p: Table, met: iset<NamePair>): set<NamePair> {
    set key | key in NamePairs(a, p) && KeySimilar(key, a, p, met)
  }

  /** Similar types walk over the similar names. */
  lemma {:induction false} SimilarWalks(t: Ty, u: Ty, a: Table, p: Table, r: Relation, met: iset<NamePair>)
    requires PlainSimulation(r, a, p) && Facing(t, u, a, p, met) && Walk(t, u, r)
    ensures Walk(t, u, OfNames(SimilarNames(a, p, met)))
  {
    if t.Named? && u.Named? {
      forall i | 0 <= i < |t.args| ensures Walk(t.args[i], u.args[i], OfNames(SimilarNames(a, p, met))) {
        SimilarWalks(t.args[i], u.args[i], a, p, r, met);
      }
      assert PlainSimilar(t, u, a, p);
      assert KeySimilar((t.name, u.name), a, p, met);
      assert Unfolds(t, u, a, p, r);
    } else if t.Wrap? && u.Wrap? {
      SimilarWalks(t.inner, u.inner, a, p, r, met);
    } else if t.Pair? && u.Pair? {
      SimilarWalks(t.first, u.first, a, p, r, met);
      SimilarWalks(t.second, u.second, a, p, r, met);
    }
  }

  lemma SimilarNamesPlain(a: Table, p: Table, met: iset<NamePair>)
    requires Uniform(a, p, met)
    ensures PlainUpTo(SimilarNames(a, p, met), a, p)
  {
    hide Walk, Unfolds, Facing, Uniform, PlainSimilar;
    var names := SimilarNames(a, p, met);
    forall key | key in names
      ensures key.0 in a && key.1 in p && Unfolds(Sample(key.0, a), Sample(key.1, p), a, p, OfNames(names))
    {
      var t: Ty, u: Ty :| FacingNames(t, u, a, p, met) && (t.name, u.name) == key && PlainSimilar(t, u, a, p);
      SampleUnfolds(t, u, a, p, met);
    }
  }

  lemma SampleUnfolds(t: Ty, u: Ty, a: Table, p: Table, met: iset<NamePair>)
    requires Uniform(a, p, met) && FacingNames(t, u, a, p, met) && t.name in a && u.name in p && PlainSimilar(t, u, a, p)
    ensures Unfolds(Sample(t.name, a), Sample(u.name, p), a, p, OfNames(SimilarNames(a, p, met)))
  {
    hide Walk, Unfolds, Facing, SimilarNames, Uniform;
    var names := SimilarNames(a, p, met);
    var r: Relation :| PlainSimulation(r, a, p) && Walk(t, u, r);
    NamedArgsWalk(t, u, r);
    forall x, y | Facing(x, y, a, p, met) && Walk(x, y, r) ensures Walk(x, y, OfNames(names)) {
      SimilarWalks(x, y, a, p, r, met);
    }
    UnfoldsLift(t, u, a, p, r, OfNames(names), met);
    NamedArgsWalk(t, u, OfNames(names));
    FacingSides(t, u, a, p, met);
    SampleWalks(t.name, u.name, a, p, OfNames(names), met);
    UnfoldsTransfer(t, u, Sample(t.name, a), Sample(u.name, p), a, p, names, met);
  }

  // ----- coherence is what it takes -----

  /** One declaration has one list of parameters. */
  ghost predicate SharedArity(a: Table, p: Table, met: iset<NamePair>) {
    forall n | (n, n) in SharedMet(a, p, met) :: |a[n].typeParams| == |p[n].typeParams|
  }

  /** Taking shared declarations for granted is sound exactly where those that can be met are coherent. */
  lemma CoherentExactly(a: Table, p: Table, met: iset<NamePair>)
    requires Uniform(a, p, met) && SharedArity(a, p, met)
    ensures Coherent(a, p, met) <==>
            forall t, u | Facing(t, u, a, p, met) && Compat(t, u, a, p, {}) :: PlainSimilar(t, u, a, p)
  {
    hide Walk, Unfolds, Facing, Compat, PlainSimilar, Uniform;
    if Coherent(a, p, met) {
      forall t, u | Facing(t, u, a, p, met) && Compat(t, u, a, p, {}) ensures PlainSimilar(t, u, a, p) {
        CompatIffPlainSimilar(t, u, a, p, met);
      }
    }
    if forall t, u | Facing(t, u, a, p, met) && Compat(t, u, a, p, {}) :: PlainSimilar(t, u, a, p) {
      SimilarNamesPlain(a, p, met);
      forall key | key in SharedMet(a, p, met) ensures key in SimilarNames(a, p, met) {
        SharedCompat(key.0, a, p, met);
        SampleWalks(key.0, key.0, a, p, iset{}, met);
        assert KeySimilar(key, a, p, met);
      }
    }
  }

  lemma SharedCompat(n: string, a: Table, p: Table, met: iset<NamePair>)
    requires (n, n) in SharedMet(a, p, met) && SharedArity(a, p, met)
    ensures Compat(Sample(n, a), Sample(n, p), a, p, {})
  {
    hide BodiesWalk;
    var t, u := Sample(n, a), Sample(n, p);
    assert NamedStep(t, u, a, p, Passing(a, p, {} + {(n, n)}));
    assert (t, u) in Passing(a, p, {});
    SampleWalks(n, n, a, p, Passing(a, p, {}), met);
    assert Walk(t, u, Passing(a, p, {}));
  }

  // ----- a condition on the declarations' words -----

  /** A member type that crosses the boundary and names parameters and shared declarations only. */
  predicate SharedRef(r: TypeRef, params: seq<string>, shared: set<NamePair>, table: Table) {
    match r
    case BaseRef(_) => true
    case AtomRef(_) => true
    case NamedRef(n) => n in params || (n in table && (n, n) in shared)
    case WrapRef(w, a) => Crosses(w) && SharedRef(a, params, shared, table)
    case PairRef(_, a, b) => SharedRef(a, params, shared, table) && SharedRef(b, params, shared, table)
    case AppRef(n, args) =>
      n in table && (n, n) in shared && forall i | 0 <= i < |args| :: SharedRef(args[i], params, shared, table)
    case FnRef(_, _) => false
    case HistoryRef(_) => false
  }

  ghost predicate SharedBody(body: Body, params: seq<string>, shared: set<NamePair>, table: Table) {
    (forall ref | IsMember(ref, body) :: SharedRef(ref, params, shared, table)) && FoundByName(body)
  }

  /** Shared declarations are written alike in both tables, and their members name shared declarations only. */
  ghost predicate SharedClosed(a: Table, p: Table) {
    forall n | (n, n) in SharedNames(a, p) ::
      a[n].body == p[n].body && a[n].typeParams == p[n].typeParams &&
      SharedBody(a[n].body, a[n].typeParams, SharedNames(a, p), a)
  }

  lemma {:induction false} SharedRefWalks(r: TypeRef, params: seq<string>, a: Table, p: Table, s: Subst, z: Subst)
    requires SharedRef(r, params, SharedNames(a, p), a) && WellKeyed(a) && WellKeyed(p)
    requires (set q | q in params) <= s.Keys && (set q | q in params) <= z.Keys
    requires forall n | n in params :: Walk(s[n], z[n], OfNames(SharedNames(a, p)))
    ensures var vars := set q | q in params; var t, u := Resolve(r, a, vars), Resolve(r, p, vars);
            t.Some? && u.Some? && Walk(Substitute(t.value, s), Substitute(u.value, z), OfNames(SharedNames(a, p)))
    decreases r, 1
  {
    hide SharedNames, OfNames, Walk, Substitute;
    var vars := set q | q in params;
    match r
    case BaseRef(b) => BuiltInWalks(Base(b), s, z, OfNames(SharedNames(a, p)));
    case AtomRef(c) => BuiltInWalks(Ty.Atom(c), s, z, OfNames(SharedNames(a, p)));
    case NamedRef(n) =>
      if n in params {
        assert n in vars;
        VarSubstituted(n, s);
        VarSubstituted(n, z);
      } else {
        SharedUse(n, [], [], s, z, a, p);
      }
    case WrapRef(w, b) =>
      SharedRefWalks(b, params, a, p, s, z);
      WrapWalks(w, Resolve(b, a, vars).value, Resolve(b, p, vars).value, s, z, OfNames(SharedNames(a, p)));
    case PairRef(q, b, c) =>
      SharedRefWalks(b, params, a, p, s, z);
      SharedRefWalks(c, params, a, p, s, z);
      PairWalks(q, Resolve(b, a, vars).value, Resolve(b, p, vars).value, Resolve(c, a, vars).value,
                Resolve(c, p, vars).value, s, z, OfNames(SharedNames(a, p)));
    case AppRef(n, args) =>
      SharedRefsWalk(args, params, a, p, s, z);
      SharedUse(n, ResolveAll(args, a, vars).value, ResolveAll(args, p, vars).value, s, z, a, p);
  }

  lemma BuiltInWalks(t: Ty, s: Subst, z: Subst, r: Relation)
    requires t.Base? || t.Atom?
    ensures Walk(Substitute(t, s), Substitute(t, z), r)
  {
  }

  lemma VarSubstituted(n: string, s: Subst)
    requires n in s
    ensures Substitute(Var(n), s) == s[n]
  {
  }

  lemma WrapWalks(w: Wrapper, t: Ty, u: Ty, s: Subst, z: Subst, r: Relation)
    requires Crosses(w) && Walk(Substitute(t, s), Substitute(u, z), r)
    ensures Walk(Substitute(Wrap(w, t), s), Substitute(Wrap(w, u), z), r)
  {
  }

  lemma PairWalks(q: Pairing, t: Ty, u: Ty, t': Ty, u': Ty, s: Subst, z: Subst, r: Relation)
    requires Walk(Substitute(t, s), Substitute(u, z), r) && Walk(Substitute(t', s), Substitute(u', z), r)
    ensures Walk(Substitute(Pair(q, t, t'), s), Substitute(Pair(q, u, u'), z), r)
  {
  }

  lemma SharedUse(n: string, ps: seq<Ty>, qs: seq<Ty>, s: Subst, z: Subst, a: Table, p: Table)
    requires (n, n) in SharedNames(a, p) && WellKeyed(a) && WellKeyed(p) && |ps| == |qs|
    requires forall i | 0 <= i < |ps| :: Walk(Substitute(ps[i], s), Substitute(qs[i], z), OfNames(SharedNames(a, p)))
    ensures n in a && n in p
    ensures Walk(Substitute(NamedTy(a[n], ps), s), Substitute(NamedTy(p[n], qs), z), OfNames(SharedNames(a, p)))
  {
  }

  lemma {:induction false} SharedRefsWalk(rs: seq<TypeRef>, params: seq<string>, a: Table, p: Table, s: Subst, z: Subst)
    requires (forall i | 0 <= i < |rs| :: SharedRef(rs[i], params, SharedNames(a, p), a)) && WellKeyed(a) && WellKeyed(p)
    requires (set q | q in params) <= s.Keys && (set q | q in params) <= z.Keys
    requires forall n | n in params :: Walk(s[n], z[n], OfNames(SharedNames(a, p)))
    ensures var vars := set q | q in params; var ts, us := ResolveAll(rs, a, vars), ResolveAll(rs, p, vars);
            ts.Some? && us.Some? && |ts.value| == |us.value| == |rs| &&
            forall i | 0 <= i < |rs| :: Walk(Substitute(ts.value[i], s), Substitute(us.value[i], z), OfNames(SharedNames(a, p)))
    decreases rs, 0
  {
    hide SharedNames, Walk, Substitute;
    if rs != [] {
      SharedRefWalks(rs[0], params, a, p, s, z);
      SharedRefsWalk(rs[1..], params, a, p, s, z);
    }
  }

  lemma SampleLinked(decl: TypeDecl, other: TypeDecl, args: seq<Ty>)
    requires decl.typeParams == other.typeParams && |args| == |decl.typeParams|
    requires forall i | 0 <= i < |args| :: args[i] == Base(BaseType.Int)
    ensures Fits(decl, args) && Fits(other, args) && ArgSubst(decl, args) == ArgSubst(other, args)
    ensures forall n | n in decl.typeParams :: n in ArgSubst(decl, args) && ArgSubst(decl, args)[n] == Base(BaseType.Int)
  {
    if decl.typeParams != [] { AllInt(decl.typeParams, args); }
  }

  lemma {:induction false} AllInt(params: seq<string>, args: seq<Ty>)
    requires |args| == |params| && forall i | 0 <= i < |args| :: args[i] == Base(BaseType.Int)
    ensures forall n | n in ParamSubst(params, args) :: ParamSubst(params, args)[n] == Base(BaseType.Int)
  {
    if params != [] { AllInt(params[1..], args[1..]); }
  }

  /** Tables whose shared declarations are written alike and name shared declarations only are coherent. */
  lemma SharedClosedCoherent(a: Table, p: Table, met: iset<NamePair>)
    requires SharedClosed(a, p) && WellKeyed(a) && WellKeyed(p)
    ensures Coherent(a, p, met)
  {
    var names := SharedNames(a, p);
    forall key | key in names
      ensures key.0 in a && key.1 in p && Unfolds(Sample(key.0, a), Sample(key.1, p), a, p, OfNames(names))
    {
      SharedTwice(key, a, p);
      SharedIn(key.0, a, p);
      SharedUnfolds(key.0, a, p);
    }
    assert PlainUpTo(names, a, p);
  }

  lemma SharedUnfolds(n: string, a: Table, p: Table)
    requires SharedClosed(a, p) && WellKeyed(a) && WellKeyed(p) && (n, n) in SharedNames(a, p)
    ensures Unfolds(Sample(n, a), Sample(n, p), a, p, OfNames(SharedNames(a, p)))
  {
    hide SharedNames, OfNames, Resolve, Walk, SharedRef;
    assert n in a && n in p by { SharedIn(n, a, p); }
    var x, y := Side(a[n], Sample(n, a).args, a), Side(p[n], Sample(n, p).args, p);
    SampleLinked(a[n], p[n], x.args);
    forall ref | IsMember(ref, a[n].body) ensures MembersWalk(x, ref, y, ref, OfNames(SharedNames(a, p))) {
      var s := ArgSubst(a[n], x.args);
      InstantiateIs(a[n], x.args, ref, a);
      InstantiateIs(p[n], y.args, ref, p);
      assert Walk(Base(BaseType.Int), Base(BaseType.Int), OfNames(SharedNames(a, p))) by { IntWalks(OfNames(SharedNames(a, p))); }
      SharedRefWalks(ref, a[n].typeParams, a, p, s, s);
    }
    match a[n].body
    case Record(fs) =>
      forall i | 0 <= i < |fs| ensures FieldWalks(x, fs[i], y, fs, OfNames(SharedNames(a, p))) {
        assert IsMember(fs[i].typ, a[n].body);
      }
    case Sum(vs) =>
      forall i | 0 <= i < |vs| ensures VariantWalks(x, vs[i], y, vs, OfNames(SharedNames(a, p))) {
        forall k | 0 <= k < |vs[i].payload|
          ensures MembersWalk(x, vs[i].payload[k].typ, y, vs[i].payload[k].typ, OfNames(SharedNames(a, p)))
        {
          assert IsMember(vs[i].payload[k].typ, a[n].body);
        }
      }
    case _ =>
  }

  lemma SharedIn(n: string, a: Table, p: Table)
    requires (n, n) in SharedNames(a, p)
    ensures n in a && n in p
  {
  }

  lemma SharedTwice(key: NamePair, a: Table, p: Table)
    requires key in SharedNames(a, p)
    ensures key.0 == key.1
  {
  }

  lemma IntWalks(r: Relation)
    ensures Walk(Base(BaseType.Int), Base(BaseType.Int), r)
  {
  }
}
