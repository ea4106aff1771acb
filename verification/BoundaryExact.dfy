/** The comparison is exact. A simulation is a relation that the walk over itself confirms; the comparison with its
    set of visited pairs accepts just what some simulation relates. */
module BoundaryExact {
  import opened Types
  import opened Boundary
  import opened BoundaryUniform

  ghost predicate Simulation(r: Relation, a: Table, p: Table) {
    forall q | q in r :: NamedStep(q.0, q.1, a, p, r)
  }

  ghost predicate Similar(t: Ty, u: Ty, a: Table, p: Table) {
    exists r: Relation :: Simulation(r, a, p) && Walk(t, u, r)
  }

  /** The comparison accepts every similar pair, whatever it is already comparing. Any generic declarations
      included. */
  lemma {:induction false} SimulationPasses(r: Relation, a: Table, p: Table, visited: set<NamePair>)
    requires Simulation(r, a, p)
    ensures r <= Passing(a, p, visited)
    decreases NamePairs(a, p) - visited
  {
    forall q | q in r ensures q in Passing(a, p, visited) {
      var key := (q.0.name, q.1.name);
      if key !in visited {
        assert key in NamePairs(a, p);
        SimulationPasses(r, a, p, visited + {key});
        NamedStepMonotone(q.0, q.1, a, p, r, Passing(a, p, visited + {key}));
      }
    }
  }

  // ----- pairs of names -----

  /** A declaration applied to types that compare equal with themselves. */
  function Sample(name: string, table: Table): Ty
    requires name in table
  {
    Named(name, RecordKind, seq(|table[name].typeParams|, _ => Base(BaseType.Int)))
  }

  /** Every pair in `names` has members that walk over `names` and the pairs trusted from outside. */
  ghost predicate UpTo(names: set<NamePair>, a: Table, p: Table, trusted: set<NamePair>) {
    forall key | key in names ::
      key.0 in a && key.1 in p && NamedStep(Sample(key.0, a), Sample(key.1, p), a, p, OfNames(names + trusted))
  }

  ghost predicate Supported(key: NamePair, a: Table, p: Table, trusted: set<NamePair>) {
    exists names: set<NamePair> :: key in names && UpTo(names, a, p, trusted)
  }

  ghost function Largest(a: Table, p: Table, trusted: set<NamePair>): set<NamePair> {
    set key | key in NamePairs(a, p) && Supported(key, a, p, trusted)
  }

  lemma UpToDeclared(names: set<NamePair>, a: Table, p: Table, trusted: set<NamePair>)
    requires UpTo(names, a, p, trusted)
    ensures names <= Largest(a, p, trusted)
  {
    forall key | key in names ensures key in Largest(a, p, trusted) {
      assert Supported(key, a, p, trusted);
    }
  }

  lemma UpToMore(names: set<NamePair>, a: Table, p: Table, trusted: set<NamePair>, more: set<NamePair>)
    requires UpTo(names, a, p, trusted) && trusted <= more
    ensures UpTo(names, a, p, more)
  {
    forall key | key in names
      ensures NamedStep(Sample(key.0, a), Sample(key.1, p), a, p, OfNames(names + more))
    {
      NamedStepMonotone(Sample(key.0, a), Sample(key.1, p), a, p, OfNames(names + trusted), OfNames(names + more));
    }
  }

  lemma LargestUpTo(a: Table, p: Table, trusted: set<NamePair>)
    ensures UpTo(Largest(a, p, trusted), a, p, trusted)
  {
    hide NamedStep;
    var all := Largest(a, p, trusted);
    forall key | key in all
      ensures key.0 in a && key.1 in p && NamedStep(Sample(key.0, a), Sample(key.1, p), a, p, OfNames(all + trusted))
    {
      var names: set<NamePair> :| key in names && UpTo(names, a, p, trusted);
      UpToDeclared(names, a, p, trusted);
      NamedStepMonotone(Sample(key.0, a), Sample(key.1, p), a, p, OfNames(names + trusted), OfNames(all + trusted));
    }
  }

  // ----- any arguments -----

  /** Two named types that can be compared and meet nothing but pairs in `met`. */
  ghost predicate FacingNames(t: Ty, u: Ty, a: Table, p: Table, met: iset<NamePair>) {
    t.Named? && u.Named? && |t.args| == |u.args| && Facing(t, u, a, p, met)
  }

  lemma FacingSides(t: Ty, u: Ty, a: Table, p: Table, met: iset<NamePair>)
    requires FacingNames(t, u, a, p, met) && t.name in a && u.name in p
    ensures (t.name, u.name) in met && Meeting(t.name, u.name, a, p)
    ensures SidesFacing(Side(a[t.name], t.args, a), Side(p[u.name], u.args, p), met)
  {
  }

  /** What holds of all types that meet pairs in `met` holds of a step. */
  lemma StepLift(t: Ty, u: Ty, a: Table, p: Table, r: Relation, s: Relation, met: iset<NamePair>)
    requires UniformUpToShared(a, p, met) && FacingNames(t, u, a, p, met) && NamedStep(t, u, a, p, r)
    requires forall x, y | Facing(x, y, a, p, met) && Walk(x, y, r) :: Walk(x, y, s)
    ensures NamedStep(t, u, a, p, s)
  {
    hide Walk, BodiesWalk, Regular, SidesFacing, FacingNames;
    if !OneDeclaration(t.name, u.name, a, p) {
      FacingSides(t, u, a, p, met);
      BodiesWalkLift(Side(a[t.name], t.args, a), Side(p[u.name], u.args, p), t.name == u.name, r, s, met);
    }
  }

  /** A step of uniform declarations at some arguments that walk is one at all arguments that walk. */
  lemma StepTransfer(t: Ty, u: Ty, t': Ty, u': Ty, a: Table, p: Table, names: set<NamePair>, met: iset<NamePair>)
    requires UniformUpToShared(a, p, met) && FacingNames(t, u, a, p, met) && FacingNames(t', u', a, p, met)
    requires NamedStep(t, u, a, p, OfNames(names)) && t'.name == t.name && u'.name == u.name
    requires ArgsWalk(t.args, u.args, OfNames(names)) && ArgsWalk(t'.args, u'.args, OfNames(names))
    ensures NamedStep(t', u', a, p, OfNames(names))
  {
    hide Walk, BodiesWalk, ParallelBodies, BodiesFacing, ArgsWalk, Facing, ArgsFacing;
    if !OneDeclaration(t.name, u.name, a, p) {
      FacingSides(t, u, a, p, met);
      FacingSides(t', u', a, p, met);
      BodiesTransfer(Side(a[t.name], t.args, a), Side(p[u.name], u.args, p), Side(a[t.name], t'.args, a),
                     Side(p[u.name], u'.args, p), t.name == u.name, names);
    }
  }

  lemma SampleWalks(m: string, n: string, a: Table, p: Table, r: Relation, met: iset<NamePair>)
    requires (m, n) in met && Meeting(m, n, a, p)
    ensures FacingNames(Sample(m, a), Sample(n, p), a, p, met) && ArgsWalk(Sample(m, a).args, Sample(n, p).args, r)
  {
  }

  /** What passes while `visited` is being compared is similar, up to trusting `visited`. */
  lemma {:induction false} PassingSupported(t: Ty, u: Ty, a: Table, p: Table, visited: set<NamePair>, met: iset<NamePair>)
    requires UniformUpToShared(a, p, met) && Facing(t, u, a, p, met) && Walk(t, u, Passing(a, p, visited))
    ensures Walk(t, u, OfNames(Largest(a, p, visited) + visited))
    decreases NamePairs(a, p) - visited, t, 1
  {
    hide Passing, UniformUpToShared, Largest;
    if t.Named? && u.Named? {
      PassingNamed(t, u, a, p, visited, met);
    } else if t.Wrap? && u.Wrap? {
      PassingSupported(t.inner, u.inner, a, p, visited, met);
    } else if t.Pair? && u.Pair? {
      PassingSupported(t.first, u.first, a, p, visited, met);
      PassingSupported(t.second, u.second, a, p, visited, met);
    }
  }

  lemma {:induction false} PassingNamed(t: Ty, u: Ty, a: Table, p: Table, visited: set<NamePair>, met: iset<NamePair>)
    requires UniformUpToShared(a, p, met) && Facing(t, u, a, p, met) && Walk(t, u, Passing(a, p, visited))
    requires t.Named? && u.Named?
    ensures Walk(t, u, OfNames(Largest(a, p, visited) + visited))
    decreases NamePairs(a, p) - visited, t, 0
  {
    hide UniformUpToShared, Largest, NamedStep;
    var key := (t.name, u.name);
    var now := Largest(a, p, visited) + visited;
    forall i | 0 <= i < |t.args| ensures Walk(t.args[i], u.args[i], OfNames(now)) {
      PassingSupported(t.args[i], u.args[i], a, p, visited, met);
    }
    if key !in visited {
      var inside := visited + {key};
      assert key in NamePairs(a, p);
      forall x, y | Facing(x, y, a, p, met) && Walk(x, y, Passing(a, p, inside))
        ensures Walk(x, y, OfNames(Largest(a, p, inside) + inside))
      {
        PassingSupported(x, y, a, p, inside, met);
      }
      KeySupported(t, u, a, p, visited, met);
    }
  }

  lemma KeySupported(t: Ty, u: Ty, a: Table, p: Table, visited: set<NamePair>, met: iset<NamePair>)
    requires UniformUpToShared(a, p, met) && Facing(t, u, a, p, met) && FacingNames(t, u, a, p, met)
    requires (t.name, u.name) in NamePairs(a, p) - visited
    requires var inside := visited + {(t.name, u.name)};
      NamedStep(t, u, a, p, Passing(a, p, inside)) &&
      forall x, y | Facing(x, y, a, p, met) && Walk(x, y, Passing(a, p, inside)) ::
        Walk(x, y, OfNames(Largest(a, p, inside) + inside))
    requires ArgsWalk(t.args, u.args, OfNames(Largest(a, p, visited) + visited))
    ensures (t.name, u.name) in Largest(a, p, visited)
  {
    hide Passing, Walk, NamedStep, Facing, Largest;
    var key := (t.name, u.name);
    var inside := visited + {key};
    var names := Largest(a, p, inside) + {key};
    var all := Largest(a, p, inside) + inside;
    assert all == names + visited;
    StepLift(t, u, a, p, Passing(a, p, inside), OfNames(all), met);
    LargestUpTo(a, p, visited);
    UpToMore(Largest(a, p, visited), a, p, visited, inside);
    UpToDeclared(Largest(a, p, visited), a, p, inside);
    ArgsWalkMore(t.args, u.args, Largest(a, p, visited) + visited, all);
    FacingSides(t, u, a, p, met);
    SampleWalks(key.0, key.1, a, p, OfNames(all), met);
    StepTransfer(t, u, Sample(key.0, a), Sample(key.1, p), a, p, all, met);
    LargestUpTo(a, p, inside);
    assert UpTo(names, a, p, visited) by {
      assert Largest(a, p, inside) + inside == names + visited;
    }
    UpToDeclared(names, a, p, visited);
  }

  lemma ArgsWalkMore(ps: seq<Ty>, qs: seq<Ty>, names: set<NamePair>, more: set<NamePair>)
    requires ArgsWalk(ps, qs, OfNames(names)) && names <= more
    ensures ArgsWalk(ps, qs, OfNames(more))
  {
    forall i | 0 <= i < |ps| && i < |qs| ensures Walk(ps[i], qs[i], OfNames(more)) {
      WalkMonotone(ps[i], qs[i], OfNames(names), OfNames(more));
    }
  }

  // ----- simulations from names -----

  /** The types that meet pairs in `met` and walk over a set of names. */
  ghost function Uses(names: set<NamePair>, a: Table, p: Table, met: iset<NamePair>): Relation {
    iset q: (Ty, Ty) | q.0.Named? && q.1.Named? && Facing(q.0, q.1, a, p, met) && Walk(q.0, q.1, OfNames(names))
  }

  lemma {:induction false} WalkUses(t: Ty, u: Ty, names: set<NamePair>, a: Table, p: Table, met: iset<NamePair>)
    requires Facing(t, u, a, p, met) && Walk(t, u, OfNames(names))
    ensures Walk(t, u, Uses(names, a, p, met))
  {
    hide OfNames;
    if t.Named? && u.Named? {
      forall i | 0 <= i < |t.args| ensures Walk(t.args[i], u.args[i], Uses(names, a, p, met)) {
        WalkUses(t.args[i], u.args[i], names, a, p, met);
      }
    } else if t.Wrap? && u.Wrap? {
      WalkUses(t.inner, u.inner, names, a, p, met);
    } else if t.Pair? && u.Pair? {
      WalkUses(t.first, u.first, names, a, p, met);
      WalkUses(t.second, u.second, names, a, p, met);
    }
  }

  lemma NamedArgsWalk(t: Ty, u: Ty, r: Relation)
    requires t.Named? && u.Named? && Walk(t, u, r)
    ensures |t.args| == |u.args| && ArgsWalk(t.args, u.args, r) && (t, u) in r
  {
  }

  lemma UsesSimulation(names: set<NamePair>, a: Table, p: Table, met: iset<NamePair>)
    requires UniformUpToShared(a, p, met) && UpTo(names, a, p, {})
    ensures Simulation(Uses(names, a, p, met), a, p)
  {
    hide Walk, NamedStep, Facing, UniformUpToShared;
    assert names + {} == names;
    forall x, y | Facing(x, y, a, p, met) && Walk(x, y, OfNames(names)) ensures Walk(x, y, Uses(names, a, p, met)) {
      WalkUses(x, y, names, a, p, met);
    }
    forall q | q in Uses(names, a, p, met) ensures NamedStep(q.0, q.1, a, p, Uses(names, a, p, met)) {
      NamedArgsWalk(q.0, q.1, OfNames(names));
      FacingSides(q.0, q.1, a, p, met);
      SampleWalks(q.0.name, q.1.name, a, p, OfNames(names), met);
      StepTransfer(Sample(q.0.name, a), Sample(q.1.name, p), q.0, q.1, a, p, names, met);
      StepLift(q.0, q.1, a, p, OfNames(names), Uses(names, a, p, met), met);
    }
  }

  lemma CompatSimilar(t: Ty, u: Ty, a: Table, p: Table, met: iset<NamePair>)
    requires UniformUpToShared(a, p, met) && Facing(t, u, a, p, met) && Compat(t, u, a, p, {})
    ensures Similar(t, u, a, p)
  {
    hide Walk, Passing, UniformUpToShared, Facing, NamedStep, Largest, OfNames, Uses;
    PassingSupported(t, u, a, p, {}, met);
    LargestUpTo(a, p, {});
    var names := Largest(a, p, {});
    assert names + {} == names;
    UsesSimulation(names, a, p, met);
    WalkUses(t, u, names, a, p, met);
  }

  /** The comparison decides similarity: as long as what it meets is uniform, it accepts exactly the pairs that
      the greatest simulation between the two tables relates. */
  lemma CompatIffSimilar(t: Ty, u: Ty, a: Table, p: Table, met: iset<NamePair>)
    requires UniformUpToShared(a, p, met) && Facing(t, u, a, p, met)
    ensures Compat(t, u, a, p, {}) <==> Similar(t, u, a, p)
  {
    hide Walk, Passing, UniformUpToShared, Facing, Compat, Similar;
    if Compat(t, u, a, p, {}) { CompatSimilar(t, u, a, p, met); }
    if Similar(t, u, a, p) { SimilarCompat(t, u, a, p, {}); }
  }

  lemma SimilarCompat(t: Ty, u: Ty, a: Table, p: Table, visited: set<NamePair>)
    requires Similar(t, u, a, p)
    ensures Compat(t, u, a, p, visited)
  {
    var r: Relation :| Simulation(r, a, p) && Walk(t, u, r);
    SimulationPasses(r, a, p, visited);
    WalkMonotone(t, u, r, Passing(a, p, visited));
  }
}
