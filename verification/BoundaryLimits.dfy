/** Inputs outside the conditions of `BoundaryExact` and `BoundaryValues`: what each condition is needed for. */
module BoundaryLimits {
  import opened Types
  import opened Resolution
  import opened Boundary
  import opened BoundaryUniform
  import opened BoundaryExact
  import opened BoundaryCoherence
  import opened BoundaryValues

  const INT := BaseRef(BaseType.Int)

  function Plain(name: string, ref: TypeRef): Field {
    Field(name, ref, None)
  }

  // ----- parameters that cross -----

  function Both(id: nat, x: string, y: string): Table {
    map["Both" := TypeDecl(id, id, "Both", ["T", "U"], Record([Plain("x", NamedRef(x)), Plain("y", NamedRef(y))])),
        "Pos" := TypeDecl(id + 1, id + 1, "Pos", [], Refined(BaseType.Int, Some([Positive])))]
  }

  /** `type Both[T, U] = { x: T, y: U }` and `type Pos = Int where Positive` on one side. */
  const STRAIGHT := Both(0, "T", "U")
  /** `type Both[T, U] = { x: U, y: T }` and `type Pos = Int where Positive` on the other. */
  const CROSSED := Both(2, "U", "T")

  function Two(t: Ty, u: Ty): Ty { Named("Both", RecordKind, [t, u]) }

  const NUMBER := Base(BaseType.Int)
  const POS := Named("Pos", RefinedKind(BaseType.Int), [])

  lemma BothField(table: Table, t: Ty, u: Ty)
    requires table == STRAIGHT || table == CROSSED
    ensures InstantiateField(table["Both"], [t, u], NamedRef("T"), table) == Some(t)
    ensures InstantiateField(table["Both"], [t, u], NamedRef("U"), table) == Some(u)
  {
    var params := ["T", "U"];
    assert params[1..] == ["U"] && "T" != "U";
    assert table["Both"].typeParams == params && params[0] == "T" && params[1] == "U";
    InstantiateParameter(table["Both"], [t, u], table, 0);
    InstantiateParameter(table["Both"], [t, u], table, 1);
  }

  lemma BothStep(t: Ty, u: Ty, t': Ty, u': Ty, r: Relation)
    ensures NamedStep(Two(t, u), Two(t', u'), STRAIGHT, CROSSED, r) <==> Walk(t, u', r) && Walk(u, t', r)
  {
    hide Walk, InstantiateField;
    BothField(STRAIGHT, t, u);
    BothField(CROSSED, t', u');
    var fs, gs := STRAIGHT["Both"].body.fields, CROSSED["Both"].body.fields;
    assert FindField(gs, "x") == Some(gs[0]) && FindField(gs[1..], "y") == Some(gs[1]);
    assert FindField(gs, "y") == Some(gs[1]);
    var x, y := Side(STRAIGHT["Both"], [t, u], STRAIGHT), Side(CROSSED["Both"], [t', u'], CROSSED);
    assert FieldWalks(x, fs[0], y, gs, r) <==> Walk(t, u', r);
    assert FieldWalks(x, fs[1], y, gs, r) <==> Walk(u, t', r);
    assert BodiesWalk(x, y, true, r) <==> FieldWalks(x, fs[0], y, gs, r) && FieldWalks(x, fs[1], y, gs, r);
  }

  lemma PosStep(r: Relation)
    ensures NamedStep(POS, POS, STRAIGHT, CROSSED, r)
  {
  }

  /** `Both[Both[Int, Pos], Both[Pos, Pos]]`, to be received as `Both[Both[Int, Int], Both[Int, Pos]]`. */
  const SENT := Two(Two(NUMBER, POS), Two(POS, POS))
  const RECEIVED := Two(Two(NUMBER, NUMBER), Two(NUMBER, POS))

  lemma TwoWalks(t: Ty, u: Ty, t': Ty, u': Ty, r: Relation)
    ensures Walk(Two(t, u), Two(t', u'), r) <==>
            Walk(t, t', r) && Walk(u, u', r) && (Two(t, u), Two(t', u')) in r
  {
    var x, y := Two(t, u), Two(t', u');
    assert x.args[0] == t && x.args[1] == u && y.args[0] == t' && y.args[1] == u';
  }

  lemma LeavesWalk(visited: set<NamePair>)
    requires ("Pos", "Pos") !in visited
    ensures var r := Passing(STRAIGHT, CROSSED, visited); Walk(NUMBER, NUMBER, r) && Walk(POS, NUMBER, r) && Walk(POS, POS, r)
  {
    PosStep(Passing(STRAIGHT, CROSSED, visited + {("Pos", "Pos")}));
  }

  lemma CrossingAccepted()
    ensures Compat(SENT, RECEIVED, STRAIGHT, CROSSED, {})
  {
    hide Walk, NamedStep;
    var key := ("Both", "Both");
    var outer, inner := Passing(STRAIGHT, CROSSED, {}), Passing(STRAIGHT, CROSSED, {} + {key});
    assert key != ("Pos", "Pos") by { assert "Both" != "Pos"; }
    LeavesWalk({});
    LeavesWalk({} + {key});
    // the arguments, with nothing visited
    BothStep(NUMBER, POS, NUMBER, NUMBER, inner);
    TwoWalks(NUMBER, POS, NUMBER, NUMBER, outer);
    BothStep(POS, POS, NUMBER, POS, inner);
    TwoWalks(POS, POS, NUMBER, POS, outer);
    // the members: the pair of names is visited by now
    TwoWalks(NUMBER, POS, NUMBER, POS, inner);
    TwoWalks(POS, POS, NUMBER, NUMBER, inner);
    BothStep(Two(NUMBER, POS), Two(POS, POS), Two(NUMBER, NUMBER), Two(NUMBER, POS), inner);
    TwoWalks(Two(NUMBER, POS), Two(POS, POS), Two(NUMBER, NUMBER), Two(NUMBER, POS), outer);
  }

  lemma CrossingNotSimilar(r: Relation)
    requires Simulation(r, STRAIGHT, CROSSED)
    ensures !Walk(SENT, RECEIVED, r)
  {
    hide NamedStep;
    if Walk(SENT, RECEIVED, r) {
      TwoWalks(Two(NUMBER, POS), Two(POS, POS), Two(NUMBER, NUMBER), Two(NUMBER, POS), r);
      BothStep(Two(NUMBER, POS), Two(POS, POS), Two(NUMBER, NUMBER), Two(NUMBER, POS), r);
      TwoWalks(NUMBER, POS, NUMBER, POS, r);
      BothStep(NUMBER, POS, NUMBER, POS, r);
      assert false;
    }
  }

  function One(content: string): Value { Prim(BaseType.Int, content) }

  function Boxed(x: Value, y: Value): Value { Object(["x", "y"], [x, y]) }

  lemma BoxedParts(v: Value, x: Value, y: Value, side: Side, sat: Meaning, inline: bool)
    requires v == Boxed(x, y) && side.decl.body.Record? && |side.decl.body.fields| == 2
    requires var fs := side.decl.body.fields;
      fs[0].name == "x" && fs[1].name == "y" && fs[0].refinement == fs[1].refinement == None &&
      InstantiateField(side.decl, side.args, fs[0].typ, side.table).Some? &&
      InstantiateField(side.decl, side.args, fs[1].typ, side.table).Some?
    ensures var fs := side.decl.body.fields;
      HasBody(v, side, sat, inline) <==>
      HasType(x, InstantiateField(side.decl, side.args, fs[0].typ, side.table).value, side.table, sat, inline) &&
      HasType(y, InstantiateField(side.decl, side.args, fs[1].typ, side.table).value, side.table, sat, inline)
  {
    hide InstantiateField, HasType;
    var fs := side.decl.body.fields;
    assert "x" != "y" && FindField(fs, "x") == Some(fs[0]) && FindField(fs[1..], "y") == Some(fs[1]);
    assert FindField(fs, "y") == Some(fs[1]);
    assert v.names[0] == "x" && v.names[1] == "y" && v.members[0] == x && v.members[1] == y;
    if HasBody(v, side, sat, inline) {
      assert FindField(fs, v.names[0]).Some? && FindField(fs, v.names[1]).Some?;
    }
  }

  lemma BoxedHas(x: Value, y: Value, t: Ty, u: Ty, table: Table, sat: Meaning, inline: bool)
    requires table == STRAIGHT || table == CROSSED
    ensures HasType(Boxed(x, y), Two(t, u), table, sat, inline) <==>
            HasType(x, if table == STRAIGHT then t else u, table, sat, inline) &&
            HasType(y, if table == STRAIGHT then u else t, table, sat, inline)
  {
    hide InstantiateField, HasBody;
    BothField(table, t, u);
    assert STRAIGHT != CROSSED by { assert STRAIGHT["Both"].identity != CROSSED["Both"].identity; }
    BoxedParts(Boxed(x, y), x, y, Side(table["Both"], [t, u], table), sat, inline);
  }

  lemma PosHas(v: Value, table: Table, sat: Meaning, inline: bool)
    requires table == STRAIGHT || table == CROSSED
    ensures HasType(v, POS, table, sat, inline) <==> v.Prim? && v.base == BaseType.Int && (Positive, v) in sat
  {
    assert [Positive][0] == Positive;
  }

  /** The set of visited pairs holds names only. A generic declaration whose parameters the other side uses crosswise
      is trusted where it meets itself inside its own arguments: there the receiver takes an unchecked number for a
      positive one. Neither declaration is recursive. */
  lemma GenericRevisitTrusted(good: string, bad: string)
    requires good != bad
    ensures Compat(SENT, RECEIVED, STRAIGHT, CROSSED, {}) && !Similar(SENT, RECEIVED, STRAIGHT, CROSSED)
    ensures var sat := iset q: (Pred, Value) | q.0 != Positive || q.1 != One(bad);
            var v := Boxed(Boxed(One(bad), One(good)), Boxed(One(good), One(good)));
            SugarAgrees(sat) && HasType(v, SENT, STRAIGHT, sat, true) && !HasType(v, RECEIVED, CROSSED, sat, false)
    ensures Facing(SENT, RECEIVED, STRAIGHT, CROSSED, EVERY)
    ensures forall met | Facing(SENT, RECEIVED, STRAIGHT, CROSSED, met) :: !UniformUpToShared(STRAIGHT, CROSSED, met)
  {
    hide Walk, HasType, UniformUpToShared, Passing, Facing;
    CrossingAccepted();
    forall r: Relation | Simulation(r, STRAIGHT, CROSSED) ensures !Walk(SENT, RECEIVED, r) {
      CrossingNotSimilar(r);
    }
    var sat := iset q: (Pred, Value) | q.0 != Positive || q.1 != One(bad);
    var first, second := Boxed(One(bad), One(good)), Boxed(One(good), One(good));
    CrossingSent(good, bad, sat);
    CrossingReceived(first, second, bad, good, sat);
    CrossingApplied();
    forall met | Facing(SENT, RECEIVED, STRAIGHT, CROSSED, met) ensures !UniformUpToShared(STRAIGHT, CROSSED, met) {
      if UniformUpToShared(STRAIGHT, CROSSED, met) { CompatIffSimilar(SENT, RECEIVED, STRAIGHT, CROSSED, met); }
    }
  }

  lemma CrossingSent(good: string, bad: string, sat: Meaning)
    requires (Positive, One(good)) in sat
    ensures HasType(Boxed(Boxed(One(bad), One(good)), Boxed(One(good), One(good))), SENT, STRAIGHT, sat, true)
  {
    var first, second := Boxed(One(bad), One(good)), Boxed(One(good), One(good));
    PosHas(One(good), STRAIGHT, sat, true);
    BoxedHas(One(bad), One(good), NUMBER, POS, STRAIGHT, sat, true);
    BoxedHas(One(good), One(good), POS, POS, STRAIGHT, sat, true);
    BoxedHas(first, second, Two(NUMBER, POS), Two(POS, POS), STRAIGHT, sat, true);
  }

  lemma CrossingReceived(first: Value, second: Value, bad: string, good: string, sat: Meaning)
    requires first == Boxed(One(bad), One(good)) && (Positive, One(bad)) !in sat
    ensures !HasType(Boxed(first, second), RECEIVED, CROSSED, sat, false)
  {
    hide HasType;
    assert CROSSED != STRAIGHT by { assert STRAIGHT["Both"].identity != CROSSED["Both"].identity; }
    PosHas(One(bad), CROSSED, sat, false);
    BoxedHas(first, second, Two(NUMBER, NUMBER), Two(NUMBER, POS), CROSSED, sat, false);
    BoxedHas(One(bad), One(good), NUMBER, POS, CROSSED, sat, false);
  }

  lemma CrossingApplied()
    ensures Facing(SENT, RECEIVED, STRAIGHT, CROSSED, EVERY)
  {
    forall t, u, table | (table == STRAIGHT || table == CROSSED) && Applied(t, table) && Applied(u, table)
      ensures Applied(Two(t, u), table)
    {
      assert Two(t, u).args[0] == t && Two(t, u).args[1] == u;
    }
    assert Applied(NUMBER, STRAIGHT) && Applied(POS, STRAIGHT) && Applied(NUMBER, CROSSED) && Applied(POS, CROSSED);
    assert Applied(Two(NUMBER, POS), STRAIGHT) && Applied(Two(POS, POS), STRAIGHT);
    assert Applied(Two(NUMBER, NUMBER), CROSSED) && Applied(Two(NUMBER, POS), CROSSED);
    AppliedFacing(SENT, RECEIVED, STRAIGHT, CROSSED);
  }

  // ----- inline refinements and shared declarations -----

  function BoxTable(identity: nat, field: Field): Table {
    map["Box" := TypeDecl(identity, identity, "Box", [], Record([field]))]
  }

  const BOX := Named("Box", RecordKind, [])

  function BoxOf(v: Value): Value { Object(["x"], [v]) }

  lemma BoxWalks(a: Table, p: Table, f: Field, g: Field, r: Relation)
    requires "Box" in a && "Box" in p && a["Box"].body == Record([f]) && p["Box"].body == Record([g])
    requires f.name == g.name && a["Box"].typeParams == p["Box"].typeParams == []
    ensures Unfolds(BOX, BOX, a, p, r) <==>
            var t, u := Resolve(f.typ, a, {}), Resolve(g.typ, p, {});
            t.Some? && u.Some? && Walk(t.value, u.value, r)
  {
    assert FindField([g], f.name) == Some(g);
    var x, y := Side(a["Box"], [], a), Side(p["Box"], [], p);
    assert [f][0] == f;
    if FieldWalks(x, f, y, [g], r) {
      assert forall i | 0 <= i < |[f]| :: FieldWalks(x, [f][i], y, [g], r);
    } else {
      assert !FieldWalks(x, [f][0], y, [g], r);
    }
  }

  lemma BoxHasType(v: Value, table: Table, f: Field, sat: Meaning, inline: bool)
    requires "Box" in table && table["Box"].body == Record([f]) && table["Box"].typeParams == []
    requires f.name == "x" && Resolve(f.typ, table, {}).Some?
    ensures HasType(BoxOf(v), BOX, table, sat, inline) <==>
            (inline ==> Satisfies(v, f.refinement, sat)) && HasType(v, Resolve(f.typ, table, {}).value, table, sat, inline)
  {
    assert FindField([f], "x") == Some(f);
    assert BoxOf(v).names[0] == "x" && BoxOf(v).members[0] == v;
  }

  /** Inline refinements of record fields are not compared: a receiver that writes one gets values without. */
  lemma InlineRefinementIgnored(v: Value)
    requires v.Prim? && v.base == BaseType.Int
    ensures var a := BoxTable(0, Plain("x", INT));
            var p := BoxTable(1, Field("x", INT, Some([Positive])));
            Compat(BOX, BOX, a, p, {}) &&
            HasType(BoxOf(v), BOX, a, iset{}, true) && !HasType(BoxOf(v), BOX, p, iset{}, true)
  {
    var f, g := Plain("x", INT), Field("x", INT, Some([Positive]));
    var a, p := BoxTable(0, f), BoxTable(1, g);
    BoxWalks(a, p, f, g, Passing(a, p, {} + {("Box", "Box")}));
    assert NamedStep(BOX, BOX, a, p, Passing(a, p, {} + {("Box", "Box")}));
    BoxHasType(v, a, f, iset{}, true);
    BoxHasType(v, p, g, iset{}, true);
    assert Positive in g.refinement.value;
  }

  function SharedBox(id: nat, base: BaseType): Table {
    BoxTable(0, Plain("x", NamedRef("Id")))["Id" := TypeDecl(id, id, "Id", [], Refined(base, None))]
  }

  lemma SharedBoxNotCoherent(a: Table, p: Table)
    requires a == SharedBox(1, BaseType.Int) && p == SharedBox(2, BaseType.String)
    ensures !Coherent(a, p, EVERY)
  {
    hide Unfolds;
    assert OneDeclaration("Box", "Box", a, p) && ("Box", "Box") in SharedNames(a, p);
    assert AnyPair(("Box", "Box")) && ("Box", "Box") in SharedMet(a, p, EVERY);
    if Coherent(a, p, EVERY) {
      var names: set<NamePair> :| SharedMet(a, p, EVERY) <= names && PlainUpTo(names, a, p);
      assert ("Box", "Box") in names && Unfolds(BOX, BOX, a, p, OfNames(names)) by { BoxSample(a, p); }
      BoxWalks(a, p, Plain("x", NamedRef("Id")), Plain("x", NamedRef("Id")), OfNames(names));
      assert ("Id", "Id") in names;
      IdsDiffer(a, p, OfNames(names));
      assert false;
    }
  }

  lemma BoxSample(a: Table, p: Table)
    requires a == SharedBox(1, BaseType.Int) && p == SharedBox(2, BaseType.String)
    ensures Sample("Box", a) == BOX && Sample("Box", p) == BOX
  {
  }

  lemma IdsDiffer(a: Table, p: Table, r: Relation)
    requires a == SharedBox(1, BaseType.Int) && p == SharedBox(2, BaseType.String)
    ensures !Unfolds(Sample("Id", a), Sample("Id", p), a, p, r)
  {
  }

  /** A declaration both tables share is taken for granted even when its field names another type in each. */
  lemma SharedDeclarationTrusted(v: Value)
    requires v.Prim? && v.base == BaseType.Int
    ensures var a, p := SharedBox(1, BaseType.Int), SharedBox(2, BaseType.String);
            Compat(BOX, BOX, a, p, {}) && !Coherent(a, p, EVERY) &&
            HasType(BoxOf(v), BOX, a, iset{}, true) && !HasType(BoxOf(v), BOX, p, iset{}, true)
  {
    hide Coherent, BodiesWalk;
    var f := Plain("x", NamedRef("Id"));
    var a, p := SharedBox(1, BaseType.Int), SharedBox(2, BaseType.String);
    BoxHasType(v, a, f, iset{}, true);
    BoxHasType(v, p, f, iset{}, true);
    assert OneDeclaration("Box", "Box", a, p);
    assert (BOX, BOX) in Passing(a, p, {});
    SharedBoxNotCoherent(a, p);
  }
}
