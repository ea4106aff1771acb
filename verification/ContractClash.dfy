/** Names that make two contracts print alike. A refined type's name is printed next to its base type's, and a list of
    predicates next to the next item of the list it stands in; names without a declaration can fill either gap. */
module ContractClash {
  import opened Types
  import opened Refinements
  import opened Contract
  import opened ContractText
  import opened ContractHash
  import opened TextOrder

  /** Any sorted spelling of a type's form has the text that is hashed. */
  lemma SpellingText(s: Spelled, t: TypeRef, types: Table, floats: Floats)
    requires Sorted(s, floats) && Forget(s) == Canon(t, types, {}, map[])
    ensures Text(s, floats) == CanonText(t, types, floats)
  {
    var form := Canon(t, types, {}, map[]);
    SpellSorted(form, floats);
    ForgetSpell(form, floats);
    SortedTextUnique(s, Spell(form, floats), floats);
  }

  /** Nothing relates two types whose forms differ. */
  lemma FormsDiffer(t: TypeRef, a: Table, b: Table)
    requires ParameterFree(a) && ParameterFree(b) && Canon(t, a, {}, map[]) != Canon(t, b, {}, map[])
    ensures !EqualGraphs(t, t, a, b)
  {
    FreeCanonIffSameGraph(t, t, a, b);
  }

  function Declare(name: string, body: Body): TypeDecl {
    TypeDecl(0, 0, name, [], body)
  }

  // ----- a name that ends with a base type's -----

  /** `Box = { x: mB where ps }`, nothing declared under `mB`. */
  function InlineTable(m: string, b: BaseType, ps: seq<Pred>): Table {
    map["Box" := Declare("Box", Record([Field("x", NamedRef(m + BaseText(b)), Some(ps))]))]
  }

  /** `Box = { x: m }` and `m = B where ps`. */
  function NamedTable(m: string, b: BaseType, ps: seq<Pred>): Table {
    map["Box" := Declare("Box", Record([Field("x", NamedRef(m), None)])), m := Declare(m, Refined(b, Some(ps)))]
  }

  function BoxForm(field: FieldForm): Form {
    Declared("Box", RecordForm(multiset{field}))
  }

  function BoxSpelled(field: SpelledField): Spelled {
    DeclaredS("Box", RecordS([field]))
  }

  lemma BoxCanon(types: Table, f: Field)
    requires "Box" in types && types["Box"].body == Record([f])
    ensures Canon(NamedRef("Box"), types, {}, map[]) == BoxForm(CanonField(f, types, {"Box"}, map[]))
  {
    var fs := [f];
    assert {} + {"Box"} == {"Box"};
    assert Canon(NamedRef("Box"), types, {}, map[]) == CanonNamed("Box", types, {}, map[]) ==
           Declared("Box", CanonBody(Record(fs), types, {"Box"}, map[]));
    assert seq(|fs|, i requires 0 <= i < |fs| => CanonField(fs[i], types, {"Box"}, map[])) ==
           [CanonField(f, types, {"Box"}, map[])];
  }

  lemma BoxForget(field: SpelledField, floats: Floats)
    ensures Forget(BoxSpelled(field)) == BoxForm(ForgetField(field))
    ensures Sorted(field.typ, floats) && SortedPreds(field.preds, floats) ==> Sorted(BoxSpelled(field), floats)
  {
    ForgetRecord([field]);
    assert Images([field], ForgetField) == [ForgetField(field)];
    assert Ordered(Images([field], FieldKey(floats)));
    if Sorted(field.typ, floats) && SortedPreds(field.preds, floats) { assert SortedBody(RecordS([field]), floats); }
  }

  lemma BoxTexts(f: SpelledField, g: SpelledField, floats: Floats)
    requires FieldText(f, floats) == FieldText(g, floats)
    ensures Text(BoxSpelled(f), floats) == Text(BoxSpelled(g), floats)
  {
    hide FieldText;
    assert [f][1..] == [] && [g][1..] == [];
    assert MoreFields([], floats) == "";
    assert FieldsText([f], floats) == FieldText(f, floats) + "" && FieldsText([g], floats) == FieldText(g, floats) + "";
    assert Text(BoxSpelled(f), floats) == "Box" + ("{" + (FieldsText([f], floats) + "}"));
    assert Text(BoxSpelled(g), floats) == "Box" + ("{" + (FieldsText([g], floats) + "}"));
  }

  lemma FieldTexts(m: string, b: BaseType, preds: Option<seq<Pred>>, floats: Floats)
    requires preds.Some?
    ensures FieldText(SpelledField("x", UndeclaredS(m + BaseText(b)), preds), floats) ==
            FieldText(SpelledField("x", DeclaredS(m, RefinedS(b, preds)), None), floats)
  {
    var r := RefinementText(preds, floats);
    var x, y := UndeclaredS(m + BaseText(b)), DeclaredS(m, RefinedS(b, preds));
    assert Text(x, floats) == m + BaseText(b) && Text(y, floats) == m + (BaseText(b) + (" " + r));
    Regroup(m, BaseText(b), " " + r);
    assert Text(y, floats) + InlineText(None, floats) == Text(x, floats) + InlineText(preds, floats);
  }

  /** A field of a type without a declaration whose name ends with a base type's, refined inline, has the text of a
      field of a declared refined type: two tables, one text, and no way to match their declarations. */
  lemma SuffixClash(m: string, b: BaseType, ps: seq<Pred>, floats: Floats)
    requires m != "Box" && m + BaseText(b) != "Box"
    ensures var x, y := InlineTable(m, b, ps), NamedTable(m, b, ps);
            CanonText(NamedRef("Box"), x, floats) == CanonText(NamedRef("Box"), y, floats) &&
            !EqualGraphs(NamedRef("Box"), NamedRef("Box"), x, y)
  {
    hide SpellPreds, SortedPreds, FieldText, RefinementText, CanonicalRefinement, Canon, Text, Forget, ForgetField, Sorted;
    var x, y, t := InlineTable(m, b, ps), NamedTable(m, b, ps), NamedRef("Box");
    var preds := SpellPreds(CanonicalRefinement(Some(ps)), floats);
    InlineForms(m, b, ps);
    InlineSpelled(m, b, ps, floats);
    var f, g := SpelledField("x", UndeclaredS(m + BaseText(b)), preds), SpelledField("x", DeclaredS(m, RefinedS(b, preds)), None);
    SpellingText(BoxSpelled(f), t, x, floats);
    SpellingText(BoxSpelled(g), t, y, floats);
    FieldTexts(m, b, preds, floats);
    BoxTexts(f, g, floats);
    FormsDiffer(t, x, y);
  }

  lemma InlineSpelled(m: string, b: BaseType, ps: seq<Pred>, floats: Floats)
    ensures var set' := CanonicalRefinement(Some(ps)); var preds := SpellPreds(set', floats);
            var f, g := SpelledField("x", UndeclaredS(m + BaseText(b)), preds), SpelledField("x", DeclaredS(m, RefinedS(b, preds)), None);
            preds.Some? && Sorted(BoxSpelled(f), floats) && Sorted(BoxSpelled(g), floats) &&
            Forget(BoxSpelled(f)) == BoxForm(FieldForm("x", Undeclared(m + BaseText(b)), set')) &&
            Forget(BoxSpelled(g)) == BoxForm(FieldForm("x", Declared(m, RefinedForm(b, set')), None))
  {
    hide SpellPreds, SortedPreds, BaseText, BoxForm, BoxSpelled, ForgetPreds, CanonicalRefinement;
    var set' := CanonicalRefinement(Some(ps));
    var preds := SpellPreds(set', floats);
    SpellPredsSorted(set', floats);
    ForgetSpellPreds(set', floats);
    NoPreds(floats);
    SomePreds(ps, floats);
    var f, g := SpelledField("x", UndeclaredS(m + BaseText(b)), preds), SpelledField("x", DeclaredS(m, RefinedS(b, preds)), None);
    RefinedSpelled(m, b, preds, floats);
    assert ForgetField(f) == FieldForm("x", Undeclared(m + BaseText(b)), set');
    assert ForgetField(g) == FieldForm("x", Declared(m, RefinedForm(b, set')), None);
    BoxForget(f, floats);
    BoxForget(g, floats);
  }

  lemma RefinedSpelled(m: string, b: BaseType, preds: Option<seq<Pred>>, floats: Floats)
    ensures Forget(DeclaredS(m, RefinedS(b, preds))) == Declared(m, RefinedForm(b, ForgetPreds(preds)))
    ensures Sorted(DeclaredS(m, RefinedS(b, preds)), floats) <==> SortedPreds(preds, floats)
  {
    assert ForgetBody(RefinedS(b, preds)) == RefinedForm(b, ForgetPreds(preds));
    assert SortedBody(RefinedS(b, preds), floats) <==> SortedPreds(preds, floats);
  }

  lemma SomePreds(ps: seq<Pred>, floats: Floats)
    ensures SpellPreds(CanonicalRefinement(Some(ps)), floats).Some?
  {
    hide SortBy, ListedSet;
  }

  lemma NoPreds(floats: Floats)
    ensures SortedPreds(None, floats) && ForgetPreds(None) == None
  {
  }

  lemma InlineForms(m: string, b: BaseType, ps: seq<Pred>)
    requires m != "Box" && m + BaseText(b) != "Box"
    ensures var x, y, set' := InlineTable(m, b, ps), NamedTable(m, b, ps), CanonicalRefinement(Some(ps));
            Canon(NamedRef("Box"), x, {}, map[]) == BoxForm(FieldForm("x", Undeclared(m + BaseText(b)), set')) &&
            Canon(NamedRef("Box"), y, {}, map[]) == BoxForm(FieldForm("x", Declared(m, RefinedForm(b, set')), None)) &&
            Canon(NamedRef("Box"), x, {}, map[]) != Canon(NamedRef("Box"), y, {}, map[])
  {
    hide BaseText;
    var x, y, set' := InlineTable(m, b, ps), NamedTable(m, b, ps), CanonicalRefinement(Some(ps));
    BoxCanon(x, x["Box"].body.fields[0]);
    BoxCanon(y, y["Box"].body.fields[0]);
    UndeclaredCanon(m + BaseText(b), x, {"Box"});
    RefinedCanon(m, b, ps, y);
    var f, g := FieldForm("x", Undeclared(m + BaseText(b)), set'), FieldForm("x", Declared(m, RefinedForm(b, set')), None);
    assert f in multiset{f} && f !in multiset{g};
  }

  lemma UndeclaredCanon(n: string, types: Table, seen: set<string>)
    requires n !in types && n !in seen
    ensures Canon(NamedRef(n), types, seen, map[]) == Undeclared(n)
  {
    assert Canon(NamedRef(n), types, seen, map[]) == CanonNamed(n, types, seen, map[]);
  }

  lemma RefinedCanon(n: string, b: BaseType, ps: seq<Pred>, types: Table)
    requires n in types && n != "Box" && types[n].body == Refined(b, Some(ps))
    ensures Canon(NamedRef(n), types, {"Box"}, map[]) == Declared(n, RefinedForm(b, CanonicalRefinement(Some(ps))))
  {
    assert Canon(NamedRef(n), types, {"Box"}, map[]) == CanonNamed(n, types, {"Box"}, map[]) ==
           Declared(n, CanonBody(types[n].body, types, {"Box"} + {n}, map[]));
  }

  // ----- a name that reads as a predicate -----

  const YEARS := InRange(0, 150)

  /** The predicates that are their bare name. */
  function Bare(p: Pred): string
    requires p == Positive || p == NonNegative
  {
    if p == Positive then "Positive" else "NonNegative"
  }

  /** `Choice = | V(Age, name)` and `Age = Int where InRange(0, 150)`, nothing declared under `name`. */
  function ListedTable(p: Pred): Table
    requires p == Positive || p == NonNegative
  {
    map["Choice" := Declare("Choice", Sum([Variant("V", [PayloadField("a", NamedRef("Age")), PayloadField("b", NamedRef(Bare(p)))])])),
        "Age" := Declare("Age", Refined(BaseType.Int, Some([YEARS])))]
  }

  /** `Choice = | V(Age)` and `Age = Int where InRange(0, 150), p`. */
  function RefinedTable(p: Pred): Table {
    map["Choice" := Declare("Choice", Sum([Variant("V", [PayloadField("a", NamedRef("Age"))])])),
        "Age" := Declare("Age", Refined(BaseType.Int, Some([YEARS, p])))]
  }

  function AgeForm(preds: set<Pred>): Form {
    Declared("Age", RefinedForm(BaseType.Int, Some(preds)))
  }

  function AgeSpelled(preds: seq<Pred>): Spelled {
    DeclaredS("Age", RefinedS(BaseType.Int, Some(preds)))
  }

  function ChoiceForm(payload: seq<Form>): Form {
    Declared("Choice", SumForm(multiset{VariantForm("V", payload)}))
  }

  function ChoiceSpelled(payload: seq<Spelled>): Spelled {
    DeclaredS("Choice", SumS([SpelledVariant("V", payload)]))
  }

  lemma AgeCanon(types: Table, preds: seq<Pred>)
    requires "Age" in types && types["Age"].body == Refined(BaseType.Int, Some(preds)) && NonEmpty !in preds
    ensures Canon(NamedRef("Age"), types, {"Choice"}, map[]) == AgeForm(set q | q in preds)
  {
    assert "Age" != "Choice";
    var canonical, plain := set q | q in preds :: CanonicalPred(q), set q | q in preds;
    forall q | q in preds ensures CanonicalPred(q) == q {}
    assert canonical == plain;
    assert Canon(NamedRef("Age"), types, {"Choice"}, map[]) == CanonNamed("Age", types, {"Choice"}, map[]) ==
           Declared("Age", CanonBody(types["Age"].body, types, {"Choice"} + {"Age"}, map[]));
    assert CanonicalRefinement(Some(preds)) == Some(canonical);
  }

  lemma ChoiceCanon(types: Table, v: Variant)
    requires "Choice" in types && types["Choice"].body == Sum([v])
    ensures Canon(NamedRef("Choice"), types, {}, map[]) ==
            Declared("Choice", SumForm(multiset{CanonVariant(v, types, {"Choice"}, map[])}))
  {
    var vs := [v];
    assert {} + {"Choice"} == {"Choice"};
    assert Canon(NamedRef("Choice"), types, {}, map[]) == CanonNamed("Choice", types, {}, map[]) ==
           Declared("Choice", CanonBody(Sum(vs), types, {"Choice"}, map[]));
    assert seq(|vs|, i requires 0 <= i < |vs| => CanonVariant(vs[i], types, {"Choice"}, map[])) ==
           [CanonVariant(v, types, {"Choice"}, map[])];
  }

  lemma ListedCanon(p: Pred)
    requires p == Positive || p == NonNegative
    ensures Canon(NamedRef("Choice"), ListedTable(p), {}, map[]) == ChoiceForm([AgeForm({YEARS}), Undeclared(Bare(p))])
    ensures Canon(NamedRef("Choice"), RefinedTable(p), {}, map[]) == ChoiceForm([AgeForm({YEARS, p})])
    ensures Canon(NamedRef("Choice"), ListedTable(p), {}, map[]) != Canon(NamedRef("Choice"), RefinedTable(p), {}, map[])
  {
    hide Canon;
    var x, y := ListedTable(p), RefinedTable(p);
    var v, w := x["Choice"].body.variants[0], y["Choice"].body.variants[0];
    ChoiceCanon(x, v);
    ChoiceCanon(y, w);
    AgeCanon(x, [YEARS]);
    AgeCanon(y, [YEARS, p]);
    assert (set q | q in [YEARS]) == {YEARS} && (set q | q in [YEARS, p]) == {YEARS, p};
    BareCanon(x, p);
    assert CanonVariant(v, x, {"Choice"}, map[]).payload == [AgeForm({YEARS}), Undeclared(Bare(p))];
    assert CanonVariant(w, y, {"Choice"}, map[]).payload == [AgeForm({YEARS, p})];
    var f, g := VariantForm("V", [AgeForm({YEARS}), Undeclared(Bare(p))]), VariantForm("V", [AgeForm({YEARS, p})]);
    assert |f.payload| != |g.payload|;
    assert f in multiset{f} && f !in multiset{g};
  }

  lemma BareCanon(types: Table, p: Pred)
    requires (p == Positive || p == NonNegative) && types == ListedTable(p)
    ensures Canon(NamedRef(Bare(p)), types, {"Choice"}, map[]) == Undeclared(Bare(p))
  {
    assert Bare(p) != "Choice" && Bare(p) != "Age";
    UndeclaredCanon(Bare(p), types, {"Choice"});
  }

  lemma ChoiceForget(payload: seq<Spelled>, floats: Floats)
    ensures Forget(ChoiceSpelled(payload)) == ChoiceForm(Images(payload, Forget))
    ensures (forall i | 0 <= i < |payload| :: Sorted(payload[i], floats)) ==> Sorted(ChoiceSpelled(payload), floats)
  {
    var v := SpelledVariant("V", payload);
    ForgetSum([v]);
    assert Images([v], ForgetVariant) == [ForgetVariant(v)];
    assert ForgetVariant(v).payload == Images(payload, Forget);
    assert Ordered(Images([v], VariantKey(floats)));
    if forall i | 0 <= i < |payload| :: Sorted(payload[i], floats) { assert SortedBody(SumS([v]), floats); }
  }

  lemma AgeForget(p: Pred, floats: Floats)
    requires p == Positive || p == NonNegative
    ensures Forget(AgeSpelled([YEARS])) == AgeForm({YEARS}) && Forget(AgeSpelled([YEARS, p])) == AgeForm({YEARS, p})
  {
    assert (set q | q in [YEARS]) == {YEARS} && (set q | q in [YEARS, p]) == {YEARS, p};
  }

  lemma AgeSorted(p: Pred, floats: Floats)
    requires p == Positive || p == NonNegative
    ensures Sorted(AgeSpelled([YEARS]), floats) && Sorted(AgeSpelled([YEARS, p]), floats)
  {
    hide PredText, Leq;
    BareText(p, floats);
    YearsFirst(p, floats);
    var one, two := Images([YEARS], PredKey(floats)), Images([YEARS, p], PredKey(floats));
    assert two[0] == PredText(YEARS, floats) && two[1] == PredText(p, floats);
    assert Ordered(one) && Ordered(two);
    assert SortedPreds(Some([YEARS]), floats) && SortedPreds(Some([YEARS, p]), floats);
  }

  lemma YearsFirst(p: Pred, floats: Floats)
    requires p == Positive || p == NonNegative
    ensures Leq(PredText(YEARS, floats), PredText(p, floats))
  {
    var s, t := PredText(YEARS, floats), PredText(p, floats);
    assert s == "InRange" + PredTail(YEARS, floats) && s[0] == 'I';
    BareText(p, floats);
    assert t[0] == 'P' || t[0] == 'N';
  }

  lemma ListTexts(p: Pred, floats: Floats)
    requires p == Positive || p == NonNegative
    ensures Text(ChoiceSpelled([AgeSpelled([YEARS]), UndeclaredS(Bare(p))]), floats) ==
            Text(ChoiceSpelled([AgeSpelled([YEARS, p])]), floats)
  {
    var x, y, u := AgeSpelled([YEARS]), AgeSpelled([YEARS, p]), UndeclaredS(Bare(p));
    AgeTexts(p, floats);
    assert [x, u][1..] == [u] && [u][1..] == [] && [y][1..] == [];
    assert MoreText([], floats) == "" && ListText([u], floats) == Bare(p) + "";
    assert MoreText([u], floats) == ", " + Bare(p);
    assert ListText([x, u], floats) == Text(x, floats) + (", " + Bare(p));
    assert ListText([y], floats) == Text(y, floats) + "";
    PayloadTexts([x, u], [y], floats);
  }

  lemma PayloadTexts(xs: seq<Spelled>, ys: seq<Spelled>, floats: Floats)
    requires xs != [] && ys != [] && ListText(xs, floats) == ListText(ys, floats)
    ensures Text(ChoiceSpelled(xs), floats) == Text(ChoiceSpelled(ys), floats)
  {
    hide ListText;
    var v, w := SpelledVariant("V", xs), SpelledVariant("V", ys);
    assert [v][1..] == [] && [w][1..] == [];
    assert VariantText(v, floats) == VariantText(w, floats);
    assert MoreVariants([], floats) == "";
    assert VariantsText([v], floats) == VariantText(v, floats) + "" && VariantsText([w], floats) == VariantText(w, floats) + "";
  }

  lemma AgeTexts(p: Pred, floats: Floats)
    requires p == Positive || p == NonNegative
    ensures Text(AgeSpelled([YEARS, p]), floats) == Text(AgeSpelled([YEARS]), floats) + (", " + Bare(p))
  {
    hide PredsText, Bare;
    YearsTexts(p, floats);
    var one, two := PredsText([YEARS], floats), PredsText([YEARS, p], floats);
    AgeText([YEARS], floats);
    AgeText([YEARS, p], floats);
    assert ("Age" + ("Int" + (" " + ("where " + one)))) + (", " + Bare(p)) ==
           "Age" + ("Int" + (" " + ("where " + (one + (", " + Bare(p))))));
  }

  lemma AgeText(ps: seq<Pred>, floats: Floats)
    ensures Text(AgeSpelled(ps), floats) == "Age" + ("Int" + (" " + ("where " + PredsText(ps, floats))))
  {
    hide PredsText;
  }

  lemma YearsTexts(p: Pred, floats: Floats)
    requires p == Positive || p == NonNegative
    ensures PredsText([YEARS, p], floats) == PredsText([YEARS], floats) + (", " + Bare(p))
  {
    hide PredText;
    BareText(p, floats);
    assert [YEARS, p][1..] == [p] && [p][1..] == [] && [YEARS][1..] == [];
    assert MorePreds([], floats) == "" && PredsText([p], floats) == PredText(p, floats) + "";
    assert PredsText([YEARS], floats) == PredText(YEARS, floats) + "";
    assert MorePreds([p], floats) == ", " + PredsText([p], floats);
  }

  lemma BareText(p: Pred, floats: Floats)
    requires p == Positive || p == NonNegative
    ensures PredText(p, floats) == Bare(p)
  {
  }

  /** A type without a declaration that is named like a bare predicate has, behind a refined type in a list, the text
      of one more predicate of that type: two tables, one text, and no way to match their declarations. */
  lemma BarePredClash(p: Pred, floats: Floats)
    requires p == Positive || p == NonNegative
    ensures var x, y := ListedTable(p), RefinedTable(p);
            CanonText(NamedRef("Choice"), x, floats) == CanonText(NamedRef("Choice"), y, floats) &&
            !EqualGraphs(NamedRef("Choice"), NamedRef("Choice"), x, y)
  {
    hide Text, Canon, Sorted, Forget, TypeEq, SameGraph, AgeForm, AgeSpelled, ChoiceForm, ChoiceSpelled, ListedTable, RefinedTable;
    var x, y, t := ListedTable(p), RefinedTable(p), NamedRef("Choice");
    var two, one := [AgeSpelled([YEARS]), UndeclaredS(Bare(p))], [AgeSpelled([YEARS, p])];
    AgeForget(p, floats);
    AgeSorted(p, floats);
    UndeclaredForget(Bare(p), floats);
    ListedCanon(p);
    ChoiceForget(two, floats);
    ChoiceForget(one, floats);
    assert Images(two, Forget) == [AgeForm({YEARS}), Undeclared(Bare(p))] && Images(one, Forget) == [AgeForm({YEARS, p})];
    SpellingText(ChoiceSpelled(two), t, x, floats);
    SpellingText(ChoiceSpelled(one), t, y, floats);
    ListTexts(p, floats);
    FormsDiffer(t, x, y) by { NoParameters(p); }
  }

  lemma NoParameters(p: Pred)
    requires p == Positive || p == NonNegative
    ensures ParameterFree(ListedTable(p)) && ParameterFree(RefinedTable(p))
  {
  }

  lemma UndeclaredForget(n: string, floats: Floats)
    ensures Forget(UndeclaredS(n)) == Undeclared(n) && Sorted(UndeclaredS(n), floats)
  {
  }
}
