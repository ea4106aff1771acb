/** What the boundary comparison is for: a value of the sender's type is a value of the receiver's type. */
module BoundaryValues {
  import opened Types
  import opened Resolution
  import opened Refinements
  import opened Boundary
  import opened BoundaryUniform
  import opened BoundaryExact
  import opened BoundaryCoherence

  // ----- values -----

  /** A finite wire value. `Token` stands for a value of a built-in type without inner types, `Wrapped` for
      the values of the one-inner built-ins (`status` tells the variants of an `HttpResult` apart, for example). A value of an opaque type
      carries the name of the type that minted it. */
  datatype Value =
    | Prim(base: BaseType, content: string)
    | Minted(brand: string, base: BaseType, content: string)
    | Token(atom: Atom, content: string)
    | Wrapped(wrapper: Wrapper, status: string, items: seq<Value>)
    | Outcome(ok: bool, inner: Value)
    | Entries(keys: seq<Value>, values: seq<Value>)
    | Object(names: seq<string>, members: seq<Value>)
    | Tagged(tag: string, names: seq<string>, members: seq<Value>)

  /** Which predicates hold of which values. Patterns and bounds are left open. */
  type Meaning = iset<(Pred, Value)>

  ghost predicate SugarAgrees(sat: Meaning) {
    forall v: Value :: (NonEmpty, v) in sat <==> (MinLength(1), v) in sat
  }

  ghost predicate Satisfies(v: Value, r: Refinement, sat: Meaning) {
    r.Some? ==> forall q | q in r.value :: (q, v) in sat
  }

  predicate Distinct(names: seq<string>) {
    forall i, j | 0 <= i < j < |names| :: names[i] != names[j]
  }

  function Arity(w: Wrapper, n: nat): bool {
    match w
    case OptionOf => n <= 1
    case EffectOf => n == 1
    case _ => true
  }

  /** `v` is a value of type `t`, whose names are declared in `table`. With `inline` the refinements written
      on record fields count too. */
  ghost predicate HasType(v: Value, t: Ty, table: Table, sat: Meaning, inline: bool)
    decreases v, 1
  {
    match t
    case Base(b) => v.Prim? && v.base == b
    case Atom(a) => v.Token? && v.atom == a
    case Wrap(w, a) =>
      v.Wrapped? && v.wrapper == w && Arity(w, |v.items|) &&
      forall i | 0 <= i < |v.items| :: HasType(v.items[i], a, table, sat, inline)
    case Pair(ResultOf, a, b) => v.Outcome? && HasType(v.inner, if v.ok then a else b, table, sat, inline)
    case Pair(MapOf, k, w) =>
      v.Entries? && |v.keys| == |v.values| &&
      (forall i | 0 <= i < |v.keys| :: HasType(v.keys[i], k, table, sat, inline)) &&
      (forall i | 0 <= i < |v.values| :: HasType(v.values[i], w, table, sat, inline))
    case Named(n, _, args) => n in table && HasBody(v, Side(table[n], args, table), sat, inline)
    case _ => false
  }

  ghost predicate HasBody(v: Value, s: Side, sat: Meaning, inline: bool)
    decreases v, 0
  {
    match s.decl.body
    case Refined(b, r) => v.Prim? && v.base == b && Satisfies(v, r, sat)
    case Opaque(b, r) => v.Minted? && v.brand == s.decl.name && v.base == b && Satisfies(v, r, sat)
    case Record(fs) =>
      v.Object? && |v.names| == |v.members| == |fs| && Distinct(v.names) &&
      forall i | 0 <= i < |v.members| ::
        var f := FindField(fs, v.names[i]);
        f.Some? && (inline ==> Satisfies(v.members[i], f.value.refinement, sat)) &&
        var t := InstantiateField(s.decl, s.args, f.value.typ, s.table);
        t.Some? && HasType(v.members[i], t.value, s.table, sat, inline)
    case Sum(vs) =>
      v.Tagged? &&
      var w := FindVariant(vs, v.tag);
      w.Some? && PayloadNames(w.value.payload) == v.names && |v.members| == |v.names| &&
      forall i | 0 <= i < |v.members| ::
        var t := InstantiateField(s.decl, s.args, w.value.payload[i].typ, s.table);
        t.Some? && HasType(v.members[i], t.value, s.table, sat, inline)
  }

  lemma RefinementsMatchValues(a: Refinement, b: Refinement, v: Value, sat: Meaning)
    requires RefinementsMatch(a, b) && SugarAgrees(sat) && Satisfies(v, a, sat)
    ensures Satisfies(v, b, sat)
  {
    if b.Some? {
      forall q | q in b.value ensures (q, v) in sat {
        assert CanonicalPred(q) in CanonicalRefinement(b).value;
      }
    }
  }

  /** The first half of the walk over members: the types both sides give a member are walked and sound. */
  lemma MembersWalkTypes(x: Side, f: TypeRef, y: Side, g: TypeRef, r: Relation)
    requires MembersWalk(x, f, y, g, r) && WellKeyed(x.table) && WellKeyed(y.table)
    requires forall i | 0 <= i < |x.args| :: WellFormed(x.args[i], x.table)
    requires forall i | 0 <= i < |y.args| :: WellFormed(y.args[i], y.table)
    ensures WellFormed(InstantiateField(x.decl, x.args, f, x.table).value, x.table)
    ensures WellFormed(InstantiateField(y.decl, y.args, g, y.table).value, y.table)
  {
    InstantiateWellFormed(x.decl, x.args, f, x.table);
    InstantiateWellFormed(y.decl, y.args, g, y.table);
  }

  // ----- what is known of a member -----

  /** The canonical predicates of a refinement. */
  function Preds(r: Refinement): set<Pred> {
    if r.None? then {} else set q | q in r.value :: CanonicalPred(q)
  }

  /** The predicates a value of the type is known to meet by its declaration. */
  function TypePreds(t: Ty, table: Table): set<Pred> {
    if t.Named? && t.name in table && table[t.name].body.Refined? then Preds(table[t.name].body.refinement) else {}
  }

  /** Whatever the receiver writes on a field, the sender writes there or in the declaration of the field's type. */
  ghost predicate FieldCovered(x: Side, f: Field, g: Field) {
    var t := InstantiateField(x.decl, x.args, f.typ, x.table);
    t.Some? ==> Preds(g.refinement) <= Preds(f.refinement) + TypePreds(t.value, x.table)
  }

  ghost predicate FieldsCovered(x: Side, body: Body) {
    x.decl.body.Record? && body.Record? ==>
      forall name | FindField(x.decl.body.fields, name).Some? && FindField(body.fields, name).Some? ::
        FieldCovered(x, FindField(x.decl.body.fields, name).value, FindField(body.fields, name).value)
  }

  /** All predicates hold of all values. */
  ghost const ALL: Meaning := iset q: (Pred, Value) | true

  ghost predicate Inhabited(t: Ty, table: Table) {
    exists v :: HasType(v, t, table, ALL, true)
  }

  /** The record pairs of a relation are covered, as far as the sender's type has values at all. */
  ghost predicate Covered(r: Relation, a: Table, p: Table) {
    forall t, u | Walk(t, u, r) && WellFormed(t, a) && WellFormed(u, p) && Inhabited(t, a) :: UseCovered(t, u, a, p)
  }

  ghost predicate UseCovered(t: Ty, u: Ty, a: Table, p: Table) {
    t.Named? && u.Named? && t.name in a && u.name in p ==> FieldsCovered(Side(a[t.name], t.args, a), p[u.name].body)
  }

  lemma SatisfiesPreds(v: Value, r: Refinement, sat: Meaning)
    requires SugarAgrees(sat)
    ensures Satisfies(v, r, sat) <==> forall q | q in Preds(r) :: (q, v) in sat
  {
    if r.Some? {
      forall q | q in r.value ensures (q, v) in sat <==> (CanonicalPred(q), v) in sat {}
      if Satisfies(v, r, sat) {
        forall c | c in Preds(r) ensures (c, v) in sat {
          var q :| q in r.value && c == CanonicalPred(q);
        }
      } else {
        var q :| q in r.value && (q, v) !in sat;
        assert CanonicalPred(q) in Preds(r);
      }
    }
  }

  lemma CoveredSatisfies(x: Side, f: Field, g: Field, v: Value, sat: Meaning)
    requires FieldCovered(x, f, g) && SugarAgrees(sat) && Satisfies(v, f.refinement, sat)
    requires var t := InstantiateField(x.decl, x.args, f.typ, x.table); t.Some? && HasType(v, t.value, x.table, sat, true)
    ensures Satisfies(v, g.refinement, sat)
  {
    SatisfiesPreds(v, f.refinement, sat);
    SatisfiesPreds(v, g.refinement, sat);
    var t := InstantiateField(x.decl, x.args, f.typ, x.table).value;
    if t.Named? && t.name in x.table && x.table[t.name].body.Refined? {
      SatisfiesPreds(v, x.table[t.name].body.refinement, sat);
    }
  }

  /** More predicates that hold, more values. */
  lemma {:induction false} HasTypeMore(v: Value, t: Ty, table: Table, sat: Meaning, more: Meaning, inline: bool)
    requires HasType(v, t, table, sat, inline) && sat <= more
    ensures HasType(v, t, table, more, inline)
    decreases v, 1
  {
    match t
    case Wrap(_, a) =>
      forall i | 0 <= i < |v.items| ensures HasType(v.items[i], a, table, more, inline) {
        HasTypeMore(v.items[i], a, table, sat, more, inline);
      }
    case Pair(ResultOf, a, b) => HasTypeMore(v.inner, if v.ok then a else b, table, sat, more, inline);
    case Pair(MapOf, k, w) =>
      forall i | 0 <= i < |v.keys| ensures HasType(v.keys[i], k, table, more, inline) {
        HasTypeMore(v.keys[i], k, table, sat, more, inline);
      }
      forall i | 0 <= i < |v.values| ensures HasType(v.values[i], w, table, more, inline) {
        HasTypeMore(v.values[i], w, table, sat, more, inline);
      }
    case Named(n, _, args) => HasBodyMore(v, Side(table[n], args, table), sat, more, inline);
    case _ =>
  }

  lemma {:induction false} HasBodyMore(v: Value, s: Side, sat: Meaning, more: Meaning, inline: bool)
    requires HasBody(v, s, sat, inline) && sat <= more
    ensures HasBody(v, s, more, inline)
    decreases v, 0
  {
    match s.decl.body
    case Record(fs) =>
      forall i | 0 <= i < |v.members|
        ensures HasType(v.members[i], InstantiateField(s.decl, s.args, FindField(fs, v.names[i]).value.typ, s.table).value,
                        s.table, more, inline)
      {
        HasTypeMore(v.members[i], InstantiateField(s.decl, s.args, FindField(fs, v.names[i]).value.typ, s.table).value,
                    s.table, sat, more, inline);
      }
    case Sum(vs) =>
      var w := FindVariant(vs, v.tag).value;
      assert |PayloadNames(w.payload)| == |w.payload|;
      forall i | 0 <= i < |v.members|
        ensures HasType(v.members[i], InstantiateField(s.decl, s.args, w.payload[i].typ, s.table).value, s.table, more, inline)
      {
        HasTypeMore(v.members[i], InstantiateField(s.decl, s.args, w.payload[i].typ, s.table).value, s.table, sat, more, inline);
      }
    case _ =>
  }

  // ----- values cross -----

  /** A simulation carries values across: generic declarations, recursive types and the one-sided refined-to-base
      rule included. Inline refinements are carried across where they are covered. */
  lemma {:induction false} SimulationValues(v: Value, t: Ty, u: Ty, a: Table, p: Table, r: Relation, sat: Meaning,
                                            inline: bool, covered: bool)
    requires PlainSimulation(r, a, p) && Walk(t, u, r) && SugarAgrees(sat)
    requires WellKeyed(a) && WellKeyed(p) && WellFormed(t, a) && WellFormed(u, p)
    requires HasType(v, t, a, sat, inline) && (covered ==> inline && Covered(r, a, p))
    ensures HasType(v, u, p, sat, covered)
    decreases v, 1, 1
  {
    hide Covered;
    match t
    case Wrap(_, b) =>
      forall i | 0 <= i < |v.items| ensures HasType(v.items[i], u.inner, p, sat, covered) {
        SimulationValues(v.items[i], b, u.inner, a, p, r, sat, inline, covered);
      }
    case Pair(ResultOf, b, c) =>
      SimulationValues(v.inner, if v.ok then b else c, if v.ok then u.first else u.second, a, p, r, sat, inline, covered);
    case Pair(MapOf, b, c) =>
      forall i | 0 <= i < |v.keys| ensures HasType(v.keys[i], u.first, p, sat, covered) {
        SimulationValues(v.keys[i], b, u.first, a, p, r, sat, inline, covered);
      }
      forall i | 0 <= i < |v.values| ensures HasType(v.values[i], u.second, p, sat, covered) {
        SimulationValues(v.values[i], c, u.second, a, p, r, sat, inline, covered);
      }
    case Named(_, _, _) => if u.Named? { SimulationNamed(v, t, u, a, p, r, sat, inline, covered); }
    case _ =>
  }

  lemma {:induction false} SimulationNamed(v: Value, t: Ty, u: Ty, a: Table, p: Table, r: Relation, sat: Meaning,
                                           inline: bool, covered: bool)
    requires t.Named? && u.Named? && PlainSimulation(r, a, p) && Walk(t, u, r) && SugarAgrees(sat)
    requires WellKeyed(a) && WellKeyed(p) && WellFormed(t, a) && WellFormed(u, p)
    requires HasType(v, t, a, sat, inline) && (covered ==> inline && Covered(r, a, p))
    ensures HasType(v, u, p, sat, covered)
    decreases v, 1, 0
  {
    hide Covered, HasBody, BodiesWalk, SugarAgrees;
    assert Unfolds(t, u, a, p, r);
    if covered { CoveredHere(v, t, u, a, p, r, sat); }
    SimulationBodies(v, Side(a[t.name], t.args, a), Side(p[u.name], u.args, p), t.name == u.name, r, sat, inline, covered);
  }

  lemma CoveredHere(v: Value, t: Ty, u: Ty, a: Table, p: Table, r: Relation, sat: Meaning)
    requires Covered(r, a, p) && Walk(t, u, r) && WellFormed(t, a) && WellFormed(u, p) && HasType(v, t, a, sat, true)
    ensures UseCovered(t, u, a, p)
  {
    hide FieldsCovered, Walk;
    HasTypeMore(v, t, a, sat, ALL, true);
  }

  lemma {:induction false} SimulationBodies(v: Value, x: Side, y: Side, sameName: bool, r: Relation, sat: Meaning,
                                            inline: bool, covered: bool)
    requires PlainSimulation(r, x.table, y.table) && BodiesWalk(x, y, sameName, r) && SugarAgrees(sat)
    requires WellKeyed(x.table) && WellKeyed(y.table)
    requires forall i | 0 <= i < |x.args| :: WellFormed(x.args[i], x.table)
    requires forall i | 0 <= i < |y.args| :: WellFormed(y.args[i], y.table)
    requires HasBody(v, x, sat, inline) && (sameName ==> x.decl.name == y.decl.name)
    requires covered ==> inline && Covered(r, x.table, y.table) && FieldsCovered(x, y.decl.body)
    ensures HasBody(v, y, sat, covered)
    decreases v, 0
  {
    hide Covered, FieldCovered, WellKeyed, PlainSimulation;
    match (x.decl.body, y.decl.body)
    case (Refined(_, b), Refined(_, c)) => RefinementsMatchValues(b, c, v, sat);
    case (Opaque(_, b), Opaque(_, c)) => RefinementsMatchValues(b, c, v, sat);
    case (Record(fs), Record(gs)) =>
      forall i | 0 <= i < |v.members|
        ensures FindField(gs, v.names[i]).Some?
        ensures covered ==> Satisfies(v.members[i], FindField(gs, v.names[i]).value.refinement, sat)
        ensures var u := InstantiateField(y.decl, y.args, FindField(gs, v.names[i]).value.typ, y.table);
                u.Some? && HasType(v.members[i], u.value, y.table, sat, covered)
      {
        var f := FindField(fs, v.names[i]).value;
        assert FieldWalks(x, f, y, gs, r);
        var g := FindField(gs, f.name).value;
        MembersWalkTypes(x, f.typ, y, g.typ, r);
        if covered { CoveredSatisfies(x, f, g, v.members[i], sat); }
        SimulationValues(v.members[i], InstantiateField(x.decl, x.args, f.typ, x.table).value,
                         InstantiateField(y.decl, y.args, g.typ, y.table).value, x.table, y.table, r, sat, inline, covered);
      }
    case (Sum(vs), Sum(ws)) =>
      var b := FindVariant(vs, v.tag).value;
      assert VariantWalks(x, b, y, ws, r);
      var c := FindVariant(ws, b.name).value;
      assert PayloadNames(c.payload) == PayloadNames(b.payload) by {
        assert |b.payload| == |c.payload|;
        assert forall i | 0 <= i < |b.payload| :: PayloadNames(b.payload)[i] == b.payload[i].name == c.payload[i].name;
      }
      forall i | 0 <= i < |v.members|
        ensures var u := InstantiateField(y.decl, y.args, c.payload[i].typ, y.table);
                u.Some? && HasType(v.members[i], u.value, y.table, sat, covered)
      {
        var f, g := b.payload[i].typ, c.payload[i].typ;
        assert MembersWalk(x, f, y, g, r);
        MembersWalkTypes(x, f, y, g, r);
        SimulationValues(v.members[i], InstantiateField(x.decl, x.args, f, x.table).value,
                         InstantiateField(y.decl, y.args, g, y.table).value, x.table, y.table, r, sat, inline, covered);
      }
    case _ =>
  }

  /** What every accepted use of two records asks for inline refinements to be carried across. */
  ghost predicate InlineCovered(a: Table, p: Table, met: iset<NamePair>) {
    forall t, u | AcceptedUse(t, u, a, p, met) && Inhabited(t, a) :: UseCovered(t, u, a, p)
  }

  ghost predicate AcceptedUse(t: Ty, u: Ty, a: Table, p: Table, met: iset<NamePair>) {
    Facing(t, u, a, p, met) && WellFormed(t, a) && WellFormed(u, p) && Compat(t, u, a, p, {})
  }

  ghost predicate NoInlineRefinements(table: Table) {
    forall n | n in table :: table[n].body.Record? ==>
      forall i | 0 <= i < |table[n].body.fields| :: table[n].body.fields[i].refinement == None
  }

  /** A receiver without inline refinements asks nothing. */
  lemma NoInlineCovered(a: Table, p: Table, met: iset<NamePair>)
    requires NoInlineRefinements(p)
    ensures InlineCovered(a, p, met)
  {
    hide Compat, Facing, WellFormed;
    forall n, name | n in p && p[n].body.Record? && FindField(p[n].body.fields, name).Some?
      ensures FindField(p[n].body.fields, name).value.refinement == None
    {
      var fs := p[n].body.fields;
      var i :| 0 <= i < |fs| && fs[i] == FindField(fs, name).value;
    }
  }

  lemma {:induction false} WalkInUses(t: Ty, u: Ty, names: set<NamePair>, a: Table, p: Table, met: iset<NamePair>)
    requires t.Named? && u.Named? && Walk(t, u, Uses(names, a, p, met))
    ensures Facing(t, u, a, p, met)
  {
  }

  /** Accepted types walk over the uses of the similar names, which simulate each other. */
  lemma AcceptedWalks(t: Ty, u: Ty, a: Table, p: Table, met: iset<NamePair>)
    requires Uniform(a, p, met) && Coherent(a, p, met) && Facing(t, u, a, p, met) && Compat(t, u, a, p, {})
    ensures var r := Uses(SimilarNames(a, p, met), a, p, met); PlainSimulation(r, a, p) && Walk(t, u, r)
  {
    hide Walk, Uniform, Coherent, PlainUpTo, Facing, Compat, SimilarNames, Uses;
    CompatIffPlainSimilar(t, u, a, p, met);
    SimilarNamesPlain(a, p, met);
    var names := SimilarNames(a, p, met);
    UsesPlain(names, a, p, met);
    var s: Relation :| PlainSimulation(s, a, p) && Walk(t, u, s);
    SimilarWalks(t, u, a, p, s, met);
    WalkUses(t, u, names, a, p, met);
  }

  /** An accepted comparison is safe: every finite wire value of the sender's type is a value of the
      receiver's, up to the receiver's inline field refinements, and altogether when these are covered. */
  lemma CompatValues(v: Value, t: Ty, u: Ty, a: Table, p: Table, sat: Meaning, met: iset<NamePair>)
    requires Uniform(a, p, met) && WellKeyed(a) && WellKeyed(p) && Coherent(a, p, met)
    requires AcceptedUse(t, u, a, p, met) && SugarAgrees(sat) && HasType(v, t, a, sat, true)
    ensures HasType(v, u, p, sat, false)
    ensures InlineCovered(a, p, met) ==> HasType(v, u, p, sat, true)
  {
    hide Walk, Uniform, Coherent, HasType, WellKeyed, Inhabited, UseCovered, WellFormed, Facing, Compat, PlainSimulation,
      SimilarNames, Uses;
    AcceptedWalks(t, u, a, p, met);
    var names := SimilarNames(a, p, met);
    var r := Uses(names, a, p, met);
    SimulationValues(v, t, u, a, p, r, sat, true, false);
    if InlineCovered(a, p, met) {
      forall x, y | Walk(x, y, r) && WellFormed(x, a) && WellFormed(y, p) && Inhabited(x, a) ensures UseCovered(x, y, a, p) {
        UsesCovered(x, y, names, a, p, met);
      }
      SimulationValues(v, t, u, a, p, r, sat, true, true);
    }
  }

  /** A receiver without inline refinements gets values of its own type, whatever the sender writes. */
  lemma PlainReceiverValues(v: Value, t: Ty, u: Ty, a: Table, p: Table, sat: Meaning, met: iset<NamePair>)
    requires Uniform(a, p, met) && WellKeyed(a) && WellKeyed(p) && Coherent(a, p, met) && NoInlineRefinements(p)
    requires AcceptedUse(t, u, a, p, met) && SugarAgrees(sat) && HasType(v, t, a, sat, true)
    ensures HasType(v, u, p, sat, true)
  {
    hide Uniform, Coherent, HasType, WellKeyed, InlineCovered, NoInlineRefinements, AcceptedUse;
    NoInlineCovered(a, p, met);
    CompatValues(v, t, u, a, p, sat, met);
  }

  lemma UsesCovered(x: Ty, y: Ty, names: set<NamePair>, a: Table, p: Table, met: iset<NamePair>)
    requires Uniform(a, p, met) && Coherent(a, p, met) && InlineCovered(a, p, met) && PlainSimulation(Uses(names, a, p, met), a, p)
    requires Walk(x, y, Uses(names, a, p, met)) && WellFormed(x, a) && WellFormed(y, p) && Inhabited(x, a)
    ensures UseCovered(x, y, a, p)
  {
    hide Walk, Uniform, Coherent, Inhabited, FieldsCovered, WellFormed, Uses, Facing, Compat;
    if x.Named? && y.Named? {
      WalkInUses(x, y, names, a, p, met);
      assert PlainSimilar(x, y, a, p);
      CompatIffPlainSimilar(x, y, a, p, met);
    }
  }
}
