/** The caller's view of the types of the contexts it consumes (`projected_types`): a name it does not bind
    itself is resolved when every consumed context that declares it declares the same thing. */
module Projection {
  import opened Types
  import opened Resolution
  import opened Boundary
  import opened BoundaryUniform
  import opened BoundaryExact
  import opened BoundaryCoherence
  import opened BoundaryCompose
  import opened BoundaryWalk

  // ----- the projected table -----

  /** The consumed tables that declare a name, in the contexts' order. */
  function Declaring(name: string, tables: seq<Table>): (r: seq<Table>)
    ensures forall t :: t in r <==> t in tables && name in t
  {
    if tables == [] then []
    else (if name in tables[0] then [tables[0]] else []) + Declaring(name, tables[1..])
  }

  lemma DeclaringLast(name: string, tables: seq<Table>, last: Table)
    ensures Declaring(name, tables + [last]) == Declaring(name, tables) + if name in last then [last] else []
  {
    if tables != [] {
      assert (tables + [last])[1..] == tables[1..] + [last];
      DeclaringLast(name, tables[1..], last);
    }
  }

  function Occurrence(name: string, table: Table): Ty
    requires name in table
  {
    NamedTy(table[name], [])
  }

  /** What the projection asks of the first declaration of a name and another one. */
  ghost predicate Agrees(name: string, first: Table, other: Table) {
    name in first && name in other &&
    (first[name].identity == other[name].identity ||
     (first[name].typeParams == [] && other[name].typeParams == [] &&
      NamedStep(Named(name, RecordKind, []), Named(name, RecordKind, []), first, other, Passing(first, other, {})) &&
      NamedStep(Named(name, RecordKind, []), Named(name, RecordKind, []), other, first, Passing(other, first, {}))))
  }

  ghost predicate AllAgree(name: string, declaring: seq<Table>) {
    forall j | 1 <= j < |declaring| :: Agrees(name, declaring[0], declaring[j])
  }

  ghost predicate Projected(name: string, caller: Table, consumed: seq<Table>) {
    name !in caller && Declaring(name, consumed) != [] && AllAgree(name, Declaring(name, consumed))
  }

  ghost predicate Ambiguous(name: string, caller: Table, consumed: seq<Table>) {
    name !in caller && !AllAgree(name, Declaring(name, consumed))
  }

  /** The declaring tables of every name the caller does not bind. */
  ghost predicate IsCandidates(candidates: map<string, seq<Table>>, caller: Table, consumed: seq<Table>) {
    forall n :: (n in candidates <==> n !in caller && Declaring(n, consumed) != []) &&
                (n in candidates ==> candidates[n] == Declaring(n, consumed))
  }

  method Candidates(caller: Table, consumed: seq<Table>) returns (candidates: map<string, seq<Table>>)
    ensures IsCandidates(candidates, caller, consumed)
  {
    hide IsCandidates;
    candidates := map[];
    NoCandidates(caller);
    for i := 0 to |consumed|
      invariant IsCandidates(candidates, caller, consumed[..i])
    {
      ghost var before := candidates;
      candidates := AddTable(candidates, caller, consumed[i]);
      assert consumed[..i + 1] == consumed[..i] + [consumed[i]];
      MoreCandidates(before, candidates, caller, consumed[..i], consumed[i]);
    }
    assert consumed[..|consumed|] == consumed;
  }

  lemma NoCandidates(caller: Table)
    ensures IsCandidates(map[], caller, [])
  {
  }

  lemma MoreCandidates(before: map<string, seq<Table>>, after: map<string, seq<Table>>, caller: Table,
                       tables: seq<Table>, table: Table)
    requires IsCandidates(before, caller, tables)
    requires after.Keys == before.Keys + (table.Keys - caller.Keys)
    requires forall n | n in after :: after[n] == Found(before, n) + if n in table && n !in caller then [table] else []
    ensures IsCandidates(after, caller, tables + [table])
  {
    hide Declaring;
    forall n ensures Declaring(n, tables + [table]) == Declaring(n, tables) + if n in table then [table] else [] {
      DeclaringLast(n, tables, table);
    }
  }

  function Found(candidates: map<string, seq<Table>>, name: string): seq<Table> {
    if name in candidates then candidates[name] else []
  }

  method AddTable(before: map<string, seq<Table>>, caller: Table, table: Table)
    returns (candidates: map<string, seq<Table>>)
    ensures candidates.Keys == before.Keys + (table.Keys - caller.Keys)
    ensures forall n | n in candidates ::
      candidates[n] == Found(before, n) + if n in table && n !in caller then [table] else []
  {
    candidates := before;
    var rest := table.Keys;
    while rest != {}
      invariant rest <= table.Keys
      invariant candidates.Keys == before.Keys + (table.Keys - rest - caller.Keys)
      invariant forall n | n in candidates ::
        candidates[n] == Found(before, n) + if n in table.Keys - rest && n !in caller then [table] else []
      decreases |rest|
    {
      var name :| name in rest;
      rest := rest - {name};
      if name !in caller {
        candidates := candidates[name := Found(candidates, name) + [table]];
      }
    }
  }

  method CheckAgreement(name: string, declaring: seq<Table>) returns (agree: bool)
    requires declaring != [] && forall t | t in declaring :: name in t
    ensures agree == AllAgree(name, declaring)
  {
    var first := declaring[0];
    for j := 1 to |declaring|
      invariant forall k | 1 <= k < j :: Agrees(name, first, declaring[k])
    {
      var other := declaring[j];
      if first[name].identity != other[name].identity {
        if first[name].typeParams != [] || other[name].typeParams != [] { return false; }
        var comparison := new Comparison();
        agree := comparison.CompareNamed(name, [], name, [], first, other);
        if !agree { return; }
        agree := comparison.CompareNamed(name, [], name, [], other, first);
        if !agree { return; }
      }
    }
    return true;
  }

  /** `projected_types`: `consumed` holds the consumed contexts' tables in the order of the contexts' names;
      the candidate names are visited in any order. */
  method ProjectedTypes(caller: Table, consumed: seq<Table>) returns (projected: Table, ambiguous: set<string>)
    ensures forall n :: n in projected <==> n in caller || Projected(n, caller, consumed)
    ensures forall n :: n in ambiguous <==> Ambiguous(n, caller, consumed)
    ensures forall n | n in caller :: projected[n] == caller[n]
    ensures forall n | Projected(n, caller, consumed) :: n in projected && FirstHas(n, consumed, projected[n])
  {
    var candidates := Candidates(caller, consumed);
    projected, ambiguous := Settle(candidates, caller);
    forall n | Projected(n, caller, consumed) ensures FirstHas(n, consumed, projected[n]) { DeclaringFirst(n, consumed); }
  }

  /** The first table that declares the name declares it so. */
  ghost predicate FirstHas(name: string, tables: seq<Table>, decl: TypeDecl) {
    exists i :: 0 <= i < |tables| && name in tables[i] && tables[i][name] == decl && forall j | 0 <= j < i :: name !in tables[j]
  }

  lemma {:induction false} DeclaringFirst(name: string, tables: seq<Table>)
    requires Declaring(name, tables) != []
    ensures FirstHas(name, tables, Declaring(name, tables)[0][name])
  {
    if name !in tables[0] {
      DeclaringFirst(name, tables[1..]);
      var i :| 0 <= i < |tables[1..]| && name in tables[1..][i] &&
               tables[1..][i][name] == Declaring(name, tables)[0][name] && forall j | 0 <= j < i :: name !in tables[1..][j];
      assert forall j | 1 <= j < |tables| :: tables[j] == tables[1..][j - 1];
    }
  }

  method Settle(candidates: map<string, seq<Table>>, caller: Table) returns (projected: Table, ambiguous: set<string>)
    requires candidates.Keys !! caller.Keys
    requires forall n | n in candidates :: candidates[n] != [] && forall t | t in candidates[n] :: n in t
    ensures ambiguous <= candidates.Keys
    ensures forall n | n in candidates :: n in ambiguous <==> !AllAgree(n, candidates[n])
    ensures projected.Keys == caller.Keys + (candidates.Keys - ambiguous)
    ensures forall n | n in caller :: projected[n] == caller[n]
    ensures forall n | n in candidates.Keys - ambiguous :: projected[n] == candidates[n][0][n]
  {
    hide AllAgree;
    projected, ambiguous := caller, {};
    var done: set<string> := {};
    while candidates.Keys - done != {}
      invariant ambiguous <= done <= candidates.Keys
      invariant forall n | n in done :: n in ambiguous <==> !AllAgree(n, candidates[n])
      invariant projected.Keys == caller.Keys + (done - ambiguous)
      invariant forall n | n in caller :: projected[n] == caller[n]
      invariant forall n | n in done - ambiguous :: projected[n] == candidates[n][0][n]
      decreases candidates.Keys - done
    {
      var name :| name in candidates.Keys - done;
      var agree := CheckAgreement(name, candidates[name]);
      if agree {
        projected := projected[name := candidates[name][0][name]];
      } else {
        ambiguous := ambiguous + {name};
      }
      done := done + {name};
    }
  }

  // ----- what agreement means -----

  /** Two tables that may be compared with one another. */
  ghost predicate Matchable(a: Table, b: Table) {
    WellKeyed(a) && WellKeyed(b) && Uniform(a, b, EVERY) && Coherent(a, b, EVERY) && SharedArity(a, b, EVERY)
  }

  ghost predicate Sound(tables: seq<Table>) {
    forall t, u | t in tables && u in tables && t != u :: Matchable(t, u)
  }

  ghost predicate Mutual(name: string, a: Table, b: Table)
    requires name in a && name in b
  {
    PlainSimilar(Occurrence(name, a), Occurrence(name, b), a, b) &&
    PlainSimilar(Occurrence(name, b), Occurrence(name, a), b, a)
  }

  /** One declaration, or two without type parameters that match member by member both ways. */
  ghost predicate SameThing(name: string, a: Table, b: Table)
    requires name in a && name in b
  {
    a[name].identity == b[name].identity ||
    (a[name].typeParams == [] && b[name].typeParams == [] && Mutual(name, a, b))
  }

  lemma OccurrenceApplied(name: string, k: NamedKind, a: Table, b: Table)
    requires name in a && name in b && a[name].typeParams == [] && b[name].typeParams == []
    ensures FacingNames(Named(name, k, []), Named(name, k, []), a, b, EVERY)
  {
    assert AnyPair((name, name));
  }

  /** Comparing two declarations with nothing visited is comparing their names. */
  lemma NamedStepIffSimilar(t: Ty, u: Ty, a: Table, p: Table)
    requires FacingNames(t, u, a, p, EVERY) && t.args == [] && UniformUpToShared(a, p, EVERY)
    ensures NamedStep(t, u, a, p, Passing(a, p, {})) <==> Similar(t, u, a, p)
  {
    hide Walk, Passing, UniformUpToShared, BodiesWalk, Facing, OneDeclaration;
    if NamedStep(t, u, a, p, Passing(a, p, {})) {
      var names := Largest(a, p, {});
      assert names + {} == names;
      forall x, y | Facing(x, y, a, p, EVERY) && Walk(x, y, Passing(a, p, {})) ensures Walk(x, y, OfNames(names)) {
        PassingSupported(x, y, a, p, {}, EVERY);
      }
      StepLift(t, u, a, p, Passing(a, p, {}), OfNames(names), EVERY);
      StepSupported(t, u, a, p);
    }
    if Similar(t, u, a, p) {
      var r: Relation :| Simulation(r, a, p) && Walk(t, u, r);
      NamedArgsWalk(t, u, r);
      SimulationPasses(r, a, p, {});
      NamedStepMonotone(t, u, a, p, r, Passing(a, p, {}));
    }
  }

  lemma StepSupported(t: Ty, u: Ty, a: Table, p: Table)
    requires FacingNames(t, u, a, p, EVERY) && t.args == [] && UniformUpToShared(a, p, EVERY)
    requires NamedStep(t, u, a, p, OfNames(Largest(a, p, {})))
    ensures Similar(t, u, a, p)
  {
    hide UniformUpToShared, NamedStep, Facing;
    var names := Largest(a, p, {});
    var more := names + {(t.name, u.name)};
    assert names + {} == names && more + {} == more;
    assert t.name in a && u.name in p by { StepDeclared(t, u, a, p, OfNames(names)); }
    LargestUpTo(a, p, {});
    FacingSides(t, u, a, p, EVERY);
    SampleWalks(t.name, u.name, a, p, OfNames(names), EVERY);
    StepTransfer(t, u, Sample(t.name, a), Sample(u.name, p), a, p, names, EVERY);
    forall key | key in more
      ensures key.0 in a && key.1 in p && NamedStep(Sample(key.0, a), Sample(key.1, p), a, p, OfNames(more))
    {
      NamedStepMonotone(Sample(key.0, a), Sample(key.1, p), a, p, OfNames(names), OfNames(more));
    }
    UsesSimulation(more, a, p, EVERY);
    WalkUses(t, u, more, a, p, EVERY);
  }

  lemma StepDeclared(t: Ty, u: Ty, a: Table, p: Table, r: Relation)
    requires NamedStep(t, u, a, p, r)
    ensures t.name in a && u.name in p
  {
  }

  /** Similarity does not read the kinds. */
  lemma SimilarKinds(name: string, a: Table, b: Table)
    requires name in a && name in b && WellKeyed(a) && WellKeyed(b) && a[name].typeParams == [] && b[name].typeParams == []
    requires UniformUpToShared(a, b, EVERY)
    ensures Similar(Named(name, RecordKind, []), Named(name, RecordKind, []), a, b) <==>
            Similar(Occurrence(name, a), Occurrence(name, b), a, b)
  {
    hide UniformUpToShared, Similar, NamedStep;
    var t := Named(name, RecordKind, []);
    OccurrenceApplied(name, RecordKind, a, b);
    NamedStepIffSimilar(t, t, a, b);
    NamedStepIffSimilar(Occurrence(name, a), Occurrence(name, b), a, b);
    NamedStepKind(t, t, a, b, Passing(a, b, {}));
    NamedStepKind(Occurrence(name, a), Occurrence(name, b), a, b, Passing(a, b, {}));
  }

  lemma StepIffPlainSimilar(name: string, a: Table, b: Table)
    requires name in a && name in b && Matchable(a, b) && a[name].typeParams == [] && b[name].typeParams == []
    ensures NamedStep(Named(name, RecordKind, []), Named(name, RecordKind, []), a, b, Passing(a, b, {})) <==>
            PlainSimilar(Occurrence(name, a), Occurrence(name, b), a, b)
  {
    hide Uniform, UniformUpToShared, Similar, NamedStep, Compat, PlainSimilar, Coherent;
    var t := Named(name, RecordKind, []);
    UniformIsUniformUpToShared(a, b, EVERY);
    OccurrenceApplied(name, RecordKind, a, b);
    NamedStepIffSimilar(t, t, a, b);
    SimilarKinds(name, a, b);
    CompatIffSimilar(Occurrence(name, a), Occurrence(name, b), a, b, EVERY);
    CompatIffPlainSimilar(Occurrence(name, a), Occurrence(name, b), a, b, EVERY);
  }

  lemma AgreesIffSameThing(name: string, a: Table, b: Table)
    requires name in a && name in b && Matchable(a, b) && Matchable(b, a)
    ensures Agrees(name, a, b) <==> SameThing(name, a, b)
  {
    hide Matchable, NamedStep, PlainSimilar;
    if a[name].typeParams == [] && b[name].typeParams == [] {
      StepIffPlainSimilar(name, a, b);
      StepIffPlainSimilar(name, b, a);
    }
  }

  lemma MutualTransitive(name: string, a: Table, b: Table, c: Table)
    requires name in a && name in b && name in c && WellKeyed(a) && WellKeyed(b) && WellKeyed(c)
    requires Mutual(name, a, b) && Mutual(name, b, c)
    ensures Mutual(name, a, c)
  {
    hide PlainSimilar;
    var x, y, z := Occurrence(name, a), Occurrence(name, b), Occurrence(name, c);
    SimilarTransitive(x, y, z, a, b, c);
    SimilarTransitive(z, y, x, c, b, a);
  }

  /** A shared declaration without parameters matches itself. */
  lemma SharedMutual(name: string, a: Table, b: Table)
    requires name in a && name in b && a[name].identity == b[name].identity && a[name].typeParams == []
    requires Matchable(a, b) && Matchable(b, a)
    ensures b[name].typeParams == [] && Mutual(name, a, b)
  {
    hide Coherent, Uniform, PlainSimilar, Compat;
    assert (name, name) in SharedNames(a, b) && (name, name) in SharedNames(b, a) && AnyPair((name, name));
    OccurrenceShared(name, a, b);
    OccurrenceShared(name, b, a);
    CompatIffPlainSimilar(Occurrence(name, a), Occurrence(name, b), a, b, EVERY);
    CompatIffPlainSimilar(Occurrence(name, b), Occurrence(name, a), b, a, EVERY);
  }

  lemma OccurrenceShared(name: string, a: Table, b: Table)
    requires (name, name) in SharedNames(a, b) && WellKeyed(a) && WellKeyed(b)
    requires a[name].typeParams == [] && b[name].typeParams == []
    ensures Compat(Occurrence(name, a), Occurrence(name, b), a, b, {})
    ensures Facing(Occurrence(name, a), Occurrence(name, b), a, b, EVERY)
  {
    hide BodiesWalk;
    assert AnyPair((name, name));
    var t, u := Occurrence(name, a), Occurrence(name, b);
    assert NamedStep(t, u, a, b, Passing(a, b, {} + {(name, name)}));
    assert (t, u) in Passing(a, b, {});
  }

  lemma SameThingTransitive(name: string, a: Table, b: Table, c: Table)
    requires name in a && name in b && name in c && SameThing(name, a, b) && SameThing(name, b, c)
    requires Matchable(a, b) && Matchable(b, a) && Matchable(b, c) && Matchable(c, b)
    ensures SameThing(name, a, c)
  {
    hide Mutual, Uniform, Coherent;
    if a[name].identity != c[name].identity {
      if a[name].identity == b[name].identity { SharedMutual(name, b, a); MutualSwap(name, b, a); }
      if b[name].identity == c[name].identity { SharedMutual(name, b, c); }
      MutualTransitive(name, a, b, c);
    }
  }

  lemma MutualSwap(name: string, a: Table, b: Table)
    requires name in a && name in b && Mutual(name, a, b)
    ensures Mutual(name, b, a)
  {
  }

  /** Comparing every declaration with the first one settles all pairs: a name is agreed on exactly when any
      two different consumed tables that declare it declare the same thing. */
  lemma AllAgreeIffPairwise(name: string, declaring: seq<Table>)
    requires Sound(declaring) && forall t | t in declaring :: name in t
    ensures AllAgree(name, declaring) <==>
            forall t, u | t in declaring && u in declaring && t != u :: SameThing(name, t, u)
  {
    hide SameThing, Agrees, Matchable;
    forall j | 1 <= j < |declaring| && declaring[j] != declaring[0]
      ensures Agrees(name, declaring[0], declaring[j]) <==> SameThing(name, declaring[0], declaring[j])
    {
      AgreesIffSameThing(name, declaring[0], declaring[j]);
    }
    if declaring != [] { AgreesItself(name, declaring[0]); }
    if AllAgree(name, declaring) {
      forall t, u | t in declaring && u in declaring && t != u ensures SameThing(name, t, u) {
        if t != declaring[0] { SameThingSwap(name, declaring[0], t); }
        if t != declaring[0] && u != declaring[0] {
          SameThingTransitive(name, t, declaring[0], u);
        }
      }
    }
  }

  lemma AgreesItself(name: string, a: Table)
    requires name in a
    ensures Agrees(name, a, a)
  {
  }

  lemma SameThingSwap(name: string, a: Table, b: Table)
    requires name in a && name in b
    ensures SameThing(name, a, b) <==> SameThing(name, b, a)
  {
  }

  /** Which names are projected, and which are ambiguous, does not depend on the order of the contexts. */
  lemma ProjectionOrderFree(name: string, caller: Table, consumed: seq<Table>, reordered: seq<Table>)
    requires Sound(consumed) && forall t :: t in consumed <==> t in reordered
    ensures Projected(name, caller, consumed) <==> Projected(name, caller, reordered)
    ensures Ambiguous(name, caller, consumed) <==> Ambiguous(name, caller, reordered)
  {
    hide AllAgree, SameThing, Matchable;
    var one, other := Declaring(name, consumed), Declaring(name, reordered);
    assert forall t :: t in one <==> t in other;
    AllAgreeIffPairwise(name, one);
    AllAgreeIffPairwise(name, other);
    if one != [] { assert one[0] in other; }
    if other != [] { assert other[0] in one; }
  }

  ghost predicate AppliedPair(t: Ty, u: Ty, a: Table, b: Table) {
    Applied(t, a) && Applied(u, b)
  }

  /** Arguments that mean the same in both tables. */
  ghost predicate SameArguments(xs: seq<Ty>, a: Table, ys: seq<Ty>, b: Table) {
    |xs| == |ys| && forall i | 0 <= i < |xs| ::
      WellFormed(xs[i], a) && WellFormed(ys[i], b) && AppliedPair(xs[i], ys[i], a, b) &&
      PlainSimilar(xs[i], ys[i], a, b) && PlainSimilar(ys[i], xs[i], b, a)
  }

  /** A projected declaration at arguments that mean the same is the same type in the tables that declare it. */
  lemma SameUses(name: string, xs: seq<Ty>, ys: seq<Ty>, a: Table, b: Table)
    requires name in a && name in b && SameThing(name, a, b) && Matchable(a, b) && Matchable(b, a)
    requires SameArguments(xs, a, ys, b) && Fits(a[name], xs) && Fits(b[name], ys)
    ensures PlainSimilar(NamedTy(a[name], xs), NamedTy(b[name], ys), a, b)
  {
    hide Matchable, PlainSimilar, Walk, AppliedPair, Fits;
    var names := SimilarNames(a, b, EVERY);
    assert Uniform(a, b, EVERY) by { MatchableParts(a, b); }
    NameSimilar(name, a, b);
    forall i | 0 <= i < |xs| ensures Walk(xs[i], ys[i], OfNames(names)) {
      PlainWalks(xs[i], ys[i], a, b);
    }
    UseWalks(name, xs, ys, names, a, b);
    SimilarNamesPlain(a, b, EVERY);
    NamesPlainSimilar(NamedTy(a[name], xs), NamedTy(b[name], ys), names, a, b, EVERY);
  }

  lemma MatchableParts(a: Table, b: Table)
    requires Matchable(a, b)
    ensures WellKeyed(a) && WellKeyed(b) && Uniform(a, b, EVERY) && Coherent(a, b, EVERY) && SharedArity(a, b, EVERY)
  {
  }

  lemma PlainWalks(t: Ty, u: Ty, a: Table, b: Table)
    requires PlainSimilar(t, u, a, b) && AppliedPair(t, u, a, b)
    ensures Walk(t, u, OfNames(SimilarNames(a, b, EVERY)))
  {
    var r: Relation :| PlainSimulation(r, a, b) && Walk(t, u, r);
    AppliedFacing(t, u, a, b);
    SimilarWalks(t, u, a, b, r, EVERY);
  }

  lemma UseWalks(name: string, xs: seq<Ty>, ys: seq<Ty>, names: set<NamePair>, a: Table, b: Table)
    requires name in a && name in b && Matchable(a, b) && SameArguments(xs, a, ys, b) && Fits(a[name], xs) && Fits(b[name], ys)
    requires (name, name) in names && forall i | 0 <= i < |xs| :: Walk(xs[i], ys[i], OfNames(names))
    ensures Facing(NamedTy(a[name], xs), NamedTy(b[name], ys), a, b, EVERY)
    ensures Walk(NamedTy(a[name], xs), NamedTy(b[name], ys), OfNames(names))
  {
    hide Uniform, Coherent, PlainSimilar;
    AppliedFacing(NamedTy(a[name], xs), NamedTy(b[name], ys), a, b);
  }

  lemma NameSimilar(name: string, a: Table, b: Table)
    requires name in a && name in b && SameThing(name, a, b) && Matchable(a, b)
    ensures (name, name) in SimilarNames(a, b, EVERY)
  {
    hide Uniform, PlainSimilar, Compat;
    assert AnyPair((name, name));
    if a[name].identity == b[name].identity {
      assert (name, name) in SharedNames(a, b);
      SharedCompat(name, a, b, EVERY);
      SampleWalks(name, name, a, b, iset{}, EVERY);
      CompatIffPlainSimilar(Sample(name, a), Sample(name, b), a, b, EVERY);
      assert KeySimilar((name, name), a, b, EVERY);
    } else {
      assert FacingNames(Occurrence(name, a), Occurrence(name, b), a, b, EVERY);
      assert KeySimilar((name, name), a, b, EVERY);
    }
  }

  /** A projected name may be checked at a boundary against any of the contexts that declare it: the answer is
      the same whichever of them the value came from. */
  lemma ProjectedAnswersAlike(name: string, caller: Table, consumed: seq<Table>, a: Table, xs: seq<Ty>, b: Table,
                              ys: seq<Ty>, u: Ty, p: Table)
    requires Sound(consumed) && Projected(name, caller, consumed)
    requires a in consumed && b in consumed && name in a && name in b && (a == b ==> xs == ys)
    requires SameArguments(xs, a, ys, b) && Fits(a[name], xs) && Fits(b[name], ys)
    requires Matchable(a, p) && Matchable(b, p) && WellFormed(u, p) && Applied(u, p)
    ensures Compat(NamedTy(a[name], xs), u, a, p, {}) <==> Compat(NamedTy(b[name], ys), u, b, p, {})
  {
    hide Matchable, SameThing, AllAgree, Compat, PlainSimilar, SameArguments, WellFormed, Applied;
    if a == b { return; }
    var x, y := NamedTy(a[name], xs), NamedTy(b[name], ys);
    AllAgreeIffPairwise(name, Declaring(name, consumed));
    assert SameThing(name, a, b) && SameThing(name, b, a);
    SameArgumentsSwap(xs, a, ys, b);
    SameUses(name, xs, ys, a, b);
    SameUses(name, ys, xs, b, a);
    UseParts(name, xs, ys, a, b);
    MatchableParts(a, p);
    MatchableParts(b, p);
    AppliedFacing(x, u, a, p);
    AppliedFacing(y, u, b, p);
    CompatIffPlainSimilar(x, u, a, p, EVERY);
    CompatIffPlainSimilar(y, u, b, p, EVERY);
    if PlainSimilar(y, u, b, p) { SimilarTransitive(x, y, u, a, b, p); }
    if PlainSimilar(x, u, a, p) { SimilarTransitive(y, x, u, b, a, p); }
  }

  lemma SameArgumentsSwap(xs: seq<Ty>, a: Table, ys: seq<Ty>, b: Table)
    requires SameArguments(xs, a, ys, b)
    ensures SameArguments(ys, b, xs, a)
  {
    hide PlainSimilar;
  }

  lemma UseParts(name: string, xs: seq<Ty>, ys: seq<Ty>, a: Table, b: Table)
    requires name in a && name in b && Matchable(a, b) && SameArguments(xs, a, ys, b) && Fits(a[name], xs) && Fits(b[name], ys)
    ensures WellFormed(NamedTy(a[name], xs), a) && WellFormed(NamedTy(b[name], ys), b)
    ensures Applied(NamedTy(a[name], xs), a) && Applied(NamedTy(b[name], ys), b)
  {
    hide Uniform, Coherent, PlainSimilar;
  }
}
