/** The published normal forms: what the wire-format reference prints for its example services, letter by letter. */
module ContractExamples {
  import opened Types
  import opened Refinements
  import opened Contract
  import opened ContractText
  import opened ContractHash
  import opened ContractService
  import opened ContractClash
  import opened TextOrder

  const INT := BaseRef(BaseType.Int)
  const STRING := BaseRef(BaseType.String)

  /** `type Qty = Int where NonNegative`, `type Shape = | Circle(radius: Float) | Dot` and
      `type Tagged[T] = { n: Int where Positive, v: T }`, among any other declarations. */
  predicate Declares(types: Table) {
    "Qty" in types && types["Qty"].body == Refined(BaseType.Int, Some([NonNegative])) &&
    "Shape" in types &&
    types["Shape"].body == Sum([Variant("Circle", [PayloadField("radius", BaseRef(BaseType.Float))]), Variant("Dot", [])]) &&
    "Tagged" in types && types["Tagged"].typeParams == ["T"] &&
    types["Tagged"].body == Record([Field("n", INT, Some([Positive])), Field("v", NamedRef("T"), None)])
  }

  // ----- a refined type -----

  /** `QtyInt where NonNegative`, piece by piece. */
  const QTY_TEXT := "Qty" + ("Int" + (" " + ("where " + "NonNegative")))

  lemma QtyText(types: Table, floats: Floats)
    requires Declares(types)
    ensures CanonText(NamedRef("Qty"), types, floats) == QTY_TEXT
  {
    hide Text, Canon;
    var s := DeclaredS("Qty", RefinedS(BaseType.Int, Some([NonNegative])));
    OnePred(NonNegative, floats);
    QtyForm(types);
    assert Forget(s) == Declared("Qty", RefinedForm(BaseType.Int, Some({NonNegative}))) && SortedBody(s.body, floats);
    SpellingText(s, NamedRef("Qty"), types, floats);
    QtyJoined(s, floats);
  }

  lemma QtyJoined(s: Spelled, floats: Floats)
    requires s == DeclaredS("Qty", RefinedS(BaseType.Int, Some([NonNegative])))
    ensures Text(s, floats) == QTY_TEXT
  {
    hide RefinementText;
    OnePredText(NonNegative, floats);
  }

  lemma QtyForm(types: Table)
    requires Declares(types)
    ensures Canon(NamedRef("Qty"), types, {}, map[]) == Declared("Qty", RefinedForm(BaseType.Int, Some({NonNegative})))
  {
    hide CanonicalRefinement;
    OneCanonical(NonNegative);
    assert Canon(NamedRef("Qty"), types, {}, map[]) == CanonNamed("Qty", types, {}, map[]) ==
           Declared("Qty", CanonBody(types["Qty"].body, types, {} + {"Qty"}, map[]));
  }

  lemma OneCanonical(p: Pred)
    requires p != NonEmpty
    ensures CanonicalRefinement(Some([p])) == Some({p}) && ForgetPreds(Some([p])) == Some({p})
  {
    assert [p][0] == p && forall q :: q in [p] <==> q == p;
    var canonical, plain := set q | q in [p] :: CanonicalPred(q), set q | q in [p];
    assert CanonicalPred(p) == p && p in canonical && p in plain;
    assert canonical == {p} && plain == {p};
  }

  lemma OnePred(p: Pred, floats: Floats)
    requires p != NonEmpty
    ensures SortedPreds(Some([p]), floats) && ForgetPreds(Some([p])) == Some({p})
  {
    hide PredText;
    OneCanonical(p);
    assert Ordered(Images([p], PredKey(floats)));
  }

  lemma OnePredText(p: Pred, floats: Floats)
    requires p == Positive || p == NonNegative
    ensures RefinementText(Some([p]), floats) == "where " + Bare(p)
  {
    BareText(p, floats);
    assert [p][1..] == [] && MorePreds([], floats) == "";
    assert PredsText([p], floats) == Bare(p) + "";
    assert RefinementText(Some([p]), floats) == "where " + PredsText([p], floats);
  }

  // ----- a sum -----

  lemma ShapeText(types: Table, floats: Floats)
    requires Declares(types)
    ensures CanonText(NamedRef("Shape"), types, floats) == "Shape|Circle(Float)|Dot"
  {
    var circle, dot := SpelledVariant("Circle", [BaseS(BaseType.Float)]), SpelledVariant("Dot", []);
    var s := DeclaredS("Shape", SumS([circle, dot]));
    ShapeForm(types);
    VariantTexts(floats);
    VariantsSorted(circle, dot, floats);
    ShapeForget(circle, dot);
    SpellingText(s, NamedRef("Shape"), types, floats);
    VariantsJoined(circle, dot, floats);
  }

  lemma ShapeForm(types: Table)
    requires Declares(types)
    ensures Canon(NamedRef("Shape"), types, {}, map[]) ==
            Declared("Shape", SumForm(multiset{VariantForm("Circle", [BaseForm(BaseType.Float)]), VariantForm("Dot", [])}))
  {
    var vs, seen := types["Shape"].body.variants, {} + {"Shape"};
    assert Canon(NamedRef("Shape"), types, {}, map[]) == CanonNamed("Shape", types, {}, map[]) ==
           Declared("Shape", CanonBody(Sum(vs), types, seen, map[]));
    var forms := seq(|vs|, i requires 0 <= i < |vs| => CanonVariant(vs[i], types, seen, map[]));
    var radius := PayloadTypes(vs[0].payload);
    assert radius == [BaseRef(BaseType.Float)];
    assert CanonAll(radius, types, seen, map[]) == [BaseForm(BaseType.Float)];
    assert PayloadTypes(vs[1].payload) == [];
    assert forms == [VariantForm("Circle", [BaseForm(BaseType.Float)]), VariantForm("Dot", [])];
  }

  lemma ShapeForget(circle: SpelledVariant, dot: SpelledVariant)
    requires circle == SpelledVariant("Circle", [BaseS(BaseType.Float)]) && dot == SpelledVariant("Dot", [])
    ensures Forget(DeclaredS("Shape", SumS([circle, dot]))) ==
            Declared("Shape", SumForm(multiset{VariantForm("Circle", [BaseForm(BaseType.Float)]), VariantForm("Dot", [])}))
  {
    ForgetSum([circle, dot]);
    assert ForgetVariant(circle).payload == [BaseForm(BaseType.Float)] && ForgetVariant(dot).payload == [];
    assert Images([circle, dot], ForgetVariant) == [ForgetVariant(circle), ForgetVariant(dot)];
  }

  lemma VariantTexts(floats: Floats)
    ensures VariantText(SpelledVariant("Circle", [BaseS(BaseType.Float)]), floats) == "Circle(Float)"
    ensures VariantText(SpelledVariant("Dot", []), floats) == "Dot"
  {
    var float := BaseS(BaseType.Float);
    assert [float][1..] == [];
    assert ListText([float], floats) == "Float";
  }

  lemma VariantsSorted(v: SpelledVariant, w: SpelledVariant, floats: Floats)
    requires VariantText(v, floats) == "Circle(Float)" && VariantText(w, floats) == "Dot"
    requires forall k | 0 <= k < |v.payload| :: Sorted(v.payload[k], floats)
    requires w.payload == []
    ensures Sorted(DeclaredS("Shape", SumS([v, w])), floats)
  {
    hide VariantText;
    var texts := Images([v, w], VariantKey(floats));
    assert texts == ["Circle(Float)", "Dot"];
    assert Leq(texts[0], texts[1]);
    assert SortedBody(SumS([v, w]), floats);
  }

  lemma VariantsJoined(v: SpelledVariant, w: SpelledVariant, floats: Floats)
    requires VariantText(v, floats) == "Circle(Float)" && VariantText(w, floats) == "Dot"
    ensures Text(DeclaredS("Shape", SumS([v, w])), floats) == "Shape|Circle(Float)|Dot"
  {
    hide VariantText;
    assert [v, w][1..] == [w] && [w][1..] == [];
    assert VariantsText([w], floats) == "Dot" + MoreVariants([], floats);
    assert VariantsText([v, w], floats) == "Circle(Float)" + ("|" + "Dot");
  }

  // ----- a generic record -----

  const TAGGED := AppRef("Tagged", [STRING])

  const N_TEXT := "n" + (": " + ("Int" + (" " + ("where " + "Positive"))))
  const V_TEXT := "v" + (": " + ("String" + ""))
  /** `Tagged{n: Int where Positive, v: String}[String]`, piece by piece. */
  const TAGGED_TEXT := "Tagged" + ("{" + ((N_TEXT + (", " + V_TEXT)) + "}")) + ("[" + ("String" + "]"))

  lemma TaggedText(types: Table, floats: Floats)
    requires Declares(types)
    ensures CanonText(TAGGED, types, floats) == TAGGED_TEXT
  {
    var n, v := SpelledField("n", BaseS(BaseType.Int), Some([Positive])), SpelledField("v", BaseS(BaseType.String), None);
    var s := AppS(DeclaredS("Tagged", RecordS([n, v])), [BaseS(BaseType.String)]);
    TaggedForm(types);
    FieldTexts2(n, v, floats);
    FieldsSorted(n, v, floats);
    TaggedForget(n, v);
    SpellingText(s, TAGGED, types, floats);
    FieldsJoined(n, v, floats);
  }

  lemma TaggedForm(types: Table)
    requires Declares(types)
    ensures Canon(TAGGED, types, {}, map[]) ==
            AppForm(Declared("Tagged", RecordForm(multiset{FieldForm("n", BaseForm(BaseType.Int), Some({Positive})),
                                                           FieldForm("v", BaseForm(BaseType.String), None)})),
                    [BaseForm(BaseType.String)])
  {
    var fs, seen, bound := types["Tagged"].body.fields, {} + {"Tagged"}, map["T" := BaseForm(BaseType.String)];
    var args := [BaseForm(BaseType.String)];
    assert CanonAll([STRING], types, {}, map[]) == args;
    assert Zip(["T"], args) == bound by { assert ["T"][1..] == []; }
    OneCanonical(Positive);
    var forms := seq(|fs|, i requires 0 <= i < |fs| => CanonField(fs[i], types, seen, bound));
    assert Canon(INT, types, seen, bound) == BaseForm(BaseType.Int) && Canon(NamedRef("T"), types, seen, bound) == bound["T"];
    assert CanonField(fs[0], types, seen, bound) == FieldForm("n", BaseForm(BaseType.Int), Some({Positive}));
    assert CanonField(fs[1], types, seen, bound) == FieldForm("v", BaseForm(BaseType.String), None);
    assert forms == [CanonField(fs[0], types, seen, bound), CanonField(fs[1], types, seen, bound)];
    assert CanonNamed("Tagged", types, {}, bound) == Declared("Tagged", CanonBody(Record(fs), types, seen, bound));
  }

  lemma TaggedForget(n: SpelledField, v: SpelledField)
    requires n == SpelledField("n", BaseS(BaseType.Int), Some([Positive])) && v == SpelledField("v", BaseS(BaseType.String), None)
    ensures Forget(AppS(DeclaredS("Tagged", RecordS([n, v])), [BaseS(BaseType.String)])) ==
            AppForm(Declared("Tagged", RecordForm(multiset{FieldForm("n", BaseForm(BaseType.Int), Some({Positive})),
                                                           FieldForm("v", BaseForm(BaseType.String), None)})),
                    [BaseForm(BaseType.String)])
  {
    ForgetRecord([n, v]);
    OneCanonical(Positive);
    assert Images([n, v], ForgetField) == [ForgetField(n), ForgetField(v)];
    var args := [BaseS(BaseType.String)];
    assert seq(|args|, i requires 0 <= i < |args| => Forget(args[i])) == [BaseForm(BaseType.String)];
  }

  lemma FieldTexts2(n: SpelledField, v: SpelledField, floats: Floats)
    requires n == SpelledField("n", BaseS(BaseType.Int), Some([Positive])) && v == SpelledField("v", BaseS(BaseType.String), None)
    ensures FieldText(n, floats) == N_TEXT && FieldText(v, floats) == V_TEXT
  {
    hide RefinementText;
    OnePredText(Positive, floats);
    assert InlineText(n.preds, floats) == " " + ("where " + "Positive") && InlineText(v.preds, floats) == "";
  }

  lemma FieldsSorted(n: SpelledField, v: SpelledField, floats: Floats)
    requires n == SpelledField("n", BaseS(BaseType.Int), Some([Positive])) && v == SpelledField("v", BaseS(BaseType.String), None)
    requires FieldText(n, floats) == N_TEXT && FieldText(v, floats) == V_TEXT
    ensures Sorted(AppS(DeclaredS("Tagged", RecordS([n, v])), [BaseS(BaseType.String)]), floats)
  {
    hide FieldText;
    OnePred(Positive, floats);
    var texts := Images([n, v], FieldKey(floats));
    assert texts == [N_TEXT, V_TEXT] && N_TEXT[0] == 'n' && V_TEXT[0] == 'v';
    assert Leq(texts[0], texts[1]);
    assert SortedBody(RecordS([n, v]), floats);
  }

  lemma FieldsJoined(n: SpelledField, v: SpelledField, floats: Floats)
    requires FieldText(n, floats) == N_TEXT && FieldText(v, floats) == V_TEXT
    ensures Text(AppS(DeclaredS("Tagged", RecordS([n, v])), [BaseS(BaseType.String)]), floats) == TAGGED_TEXT
  {
    hide FieldText;
    assert [n, v][1..] == [v] && [v][1..] == [];
    assert FieldsText([v], floats) == V_TEXT + MoreFields([], floats) == V_TEXT;
    assert FieldsText([n, v], floats) == N_TEXT + (", " + V_TEXT);
    var args := [BaseS(BaseType.String)];
    assert args[1..] == [];
    assert ListText(args, floats) == "String" + MoreText([], floats) == "String";
    var tagged := DeclaredS("Tagged", RecordS([n, v]));
    assert Text(tagged, floats) == "Tagged" + ("{" + (FieldsText([n, v], floats) + "}"));
    assert Text(AppS(tagged, args), floats) == Text(tagged, floats) + ("[" + (ListText(args, floats) + "]"));
  }

  // ----- services -----

  /** The answer of a service that returns an `Effect[Result[_, String]]`. */
  function Answer(t: TypeRef): TypeRef {
    WrapRef(EffectOf, PairRef(ResultOf, t, STRING))
  }

  lemma LeafText(t: TypeRef, types: Table, floats: Floats)
    requires t == INT || t == STRING || t == AtomRef(Unit)
    ensures CanonText(t, types, floats) == if t == INT then "Int" else if t == STRING then "String" else "()"
    ensures CanonText(Answer(t), types, floats) == "Result" + ("[" + (CanonText(t, types, floats) + (", " + ("String" + "]"))))
  {
    var form := Canon(t, types, {}, map[]);
    assert Canon(STRING, types, {}, map[]) == BaseForm(BaseType.String);
    assert Canon(Answer(t), types, {}, map[]) == Canon(Answer(t).inner, types, {}, map[]) == PairForm(ResultOf, form, BaseForm(BaseType.String));
    var answer := PairS(ResultOf, Spell(form, floats), BaseS(BaseType.String));
    assert Spell(PairForm(ResultOf, form, BaseForm(BaseType.String)), floats) == answer;
    assert Text(answer, floats) == "Result" + ("[" + (CanonText(t, types, floats) + (", " + ("String" + "]"))));
  }

  lemma OneParamText(s: Service, types: Table, floats: Floats)
    requires |s.params| == 1
    ensures ServiceText(s, types, floats) ==
            s.name + "(" + s.params[0].name + ": " + CanonText(s.params[0].typ, types, floats) + ") -> " +
            CanonText(s.result, types, floats)
  {
    hide CanonText;
    var ps := ParamTexts(s, types, floats);
    assert ps == [Param(s.params[0].name, CanonText(s.params[0].typ, types, floats))];
    assert ParamsText(ps) == ps[0].name + ": " + ps[0].typ + "";
  }

  /** The normal forms of the services `who`, `ping` and `legacy`, and of two types that `quote` is written with. */
  lemma PublishedForms(types: Table, floats: Floats)
    requires Declares(types)
    ensures ServiceText(Service("who", [Param("t", TAGGED)], Answer(STRING)), types, floats) ==
            "who" + "(" + "t" + ": " + TAGGED_TEXT + ") -> " + "Result[String, String]"
    ensures ServiceText(Service("ping", [], Answer(AtomRef(Unit))), types, floats) ==
            "ping" + "(" + "" + ") -> " + "Result[(), String]"
    ensures ServiceText(Service("legacy", [Param("n", INT)], Answer(INT)), types, floats) ==
            "legacy" + "(" + "n" + ": " + "Int" + ") -> " + "Result[Int, String]"
    ensures CanonText(NamedRef("Shape"), types, floats) == "Shape|Circle(Float)|Dot"
    ensures CanonText(NamedRef("Qty"), types, floats) == QTY_TEXT
  {
    hide CanonText, Declares, ServiceText;
    WhoText(types, floats);
    PingText(types, floats);
    LegacyText(types, floats);
    ShapeText(types, floats);
    QtyText(types, floats);
  }

  lemma WhoText(types: Table, floats: Floats)
    requires Declares(types)
    ensures ServiceText(Service("who", [Param("t", TAGGED)], Answer(STRING)), types, floats) ==
            "who" + "(" + "t" + ": " + TAGGED_TEXT + ") -> " + "Result[String, String]"
  {
    hide CanonText, Declares, ServiceText;
    TaggedText(types, floats);
    LeafText(STRING, types, floats);
    OneParamText(Service("who", [Param("t", TAGGED)], Answer(STRING)), types, floats);
    assert "Result" + ("[" + ("String" + (", " + ("String" + "]")))) == "Result[String, String]";
  }

  lemma PingText(types: Table, floats: Floats)
    ensures ServiceText(Service("ping", [], Answer(AtomRef(Unit))), types, floats) ==
            "ping" + "(" + "" + ") -> " + "Result[(), String]"
  {
    hide CanonText;
    LeafText(AtomRef(Unit), types, floats);
    assert "Result" + ("[" + ("()" + (", " + ("String" + "]")))) == "Result[(), String]";
    assert ParamTexts(Service("ping", [], Answer(AtomRef(Unit))), types, floats) == [];
  }

  lemma LegacyText(types: Table, floats: Floats)
    ensures ServiceText(Service("legacy", [Param("n", INT)], Answer(INT)), types, floats) ==
            "legacy" + "(" + "n" + ": " + "Int" + ") -> " + "Result[Int, String]"
  {
    hide CanonText, ServiceText;
    LeafText(INT, types, floats);
    assert "Result" + ("[" + ("Int" + (", " + ("String" + "]")))) == "Result[Int, String]";
    OneParamText(Service("legacy", [Param("n", INT)], Answer(INT)), types, floats);
  }
}
