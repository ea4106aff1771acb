/** The contract of a service (`service_normal_form`): its name, its parameters and what it returns. */
module ContractService {
  import opened Types
  import opened Contract
  import opened ContractText
  import ContractHash
  import ContractReach
  import ContractShapes
  import ContractUnfold

  /** A parameter with its type, or with the text of its type. */
  datatype Param<T> = Param(name: string, typ: T)

  datatype Service = Service(name: string, params: seq<Param<TypeRef>>, result: TypeRef)

  /** Named texts, as the parameters of a service are written. */
  function ParamsText(ps: seq<Param<string>>): string {
    if ps == [] then ""
    else ps[0].name + ": " + ps[0].typ + (if |ps| == 1 then "" else ", " + ParamsText(ps[1..]))
  }

  function Signature(name: string, ps: seq<Param<string>>, result: string): string {
    name + "(" + ParamsText(ps) + ") -> " + result
  }

  lemma {:induction false} ParamsTextMore(ps: seq<Param<string>>, p: Param<string>)
    ensures ParamsText(ps + [p]) == ParamsText(ps) + (if ps == [] then "" else ", ") + p.name + ": " + p.typ
  {
    if ps != [] {
      assert (ps + [p])[1..] == ps[1..] + [p];
      ParamsTextMore(ps[1..], p);
    }
  }

  /** The loop over the parameters. */
  method Write(name: string, ps: seq<Param<string>>, result: string) returns (out: string)
    ensures out == Signature(name, ps, result)
  {
    out := name + "(";
    for i := 0 to |ps|
      invariant out == name + "(" + ParamsText(ps[..i])
    {
      ParamsTextMore(ps[..i], ps[i]);
      assert ps[..i + 1] == ps[..i] + [ps[i]];
      if i > 0 { out := out + ", "; }
      out := out + ps[i].name + ": " + ps[i].typ;
    }
    assert ps[..|ps|] == ps;
    out := out + ") -> " + result;
  }

  ghost function ParamTexts(s: Service, types: Table, floats: Floats): seq<Param<string>> {
    seq(|s.params|, i requires 0 <= i < |s.params| =>
      Param(s.params[i].name, ContractHash.CanonText(s.params[i].typ, types, floats)))
  }

  /** The text a service's contract hash is taken of. */
  ghost function ServiceText(s: Service, types: Table, floats: Floats): string {
    Signature(s.name, ParamTexts(s, types, floats), ContractHash.CanonText(s.result, types, floats))
  }

  // ----- reading it back -----

  /** The parameters in the form of a record's fields, which are written in the same way. */
  ghost function ParamFields(s: Service, types: Table, floats: Floats): seq<SpelledField> {
    seq(|s.params|, i requires 0 <= i < |s.params| =>
      SpelledField(s.params[i].name, ContractHash.Spell(Canon(s.params[i].typ, types, {}, map[]), floats), None))
  }

  lemma {:induction false} FieldsAsParams(fs: seq<SpelledField>, ps: seq<Param<string>>, floats: Floats)
    requires |fs| == |ps|
    requires forall i | 0 <= i < |fs| :: fs[i].preds == None && ps[i] == Param(fs[i].name, Text(fs[i].typ, floats))
    ensures FieldsText(fs, floats) == ParamsText(ps)
  {
    hide Text;
    if fs != [] {
      FieldsAsParams(fs[1..], ps[1..], floats);
      assert FieldText(fs[0], floats) == ps[0].name + ": " + ps[0].typ;
    }
  }

  lemma ServiceReads(s: Service, types: Table, floats: Floats)
    ensures ServiceText(s, types, floats) ==
            s.name + ("(" + (FieldsText(ParamFields(s, types, floats), floats) +
                             (") -> " + ContractHash.CanonText(s.result, types, floats))))
  {
    hide Text, ContractHash.Spell, Canon;
    FieldsAsParams(ParamFields(s, types, floats), ParamTexts(s, types, floats), floats);
  }

  /** Names are identifiers, and what the types reach can be read and unfolded. */
  ghost predicate Proper(s: Service, types: Table, floats: Floats) {
    Identifier(s.name) && ContractHash.Readable(s.result, types, floats) && ContractReach.Expandable(s.result, types) &&
    forall i | 0 <= i < |s.params| :: Identifier(s.params[i].name) && ContractHash.Readable(s.params[i].typ, types, floats) &&
      ContractReach.Expandable(s.params[i].typ, types)
  }

  ghost predicate SameType(t: TypeRef, u: TypeRef, a: Table, b: Table) {
    ContractShapes.SameShape(ContractUnfold.Start(t), ContractUnfold.Start(u), a, b)
  }

  /** The services have one name, the same parameter names in the same order, and types of the same shapes. */
  ghost predicate SameContract(s: Service, r: Service, a: Table, b: Table) {
    s.name == r.name && |s.params| == |r.params| && SameType(s.result, r.result, a, b) &&
    forall i | 0 <= i < |s.params| :: s.params[i].name == r.params[i].name && SameType(s.params[i].typ, r.params[i].typ, a, b)
  }

  lemma FieldsGood(s: Service, types: Table, floats: Floats)
    requires Proper(s, types, floats) && Faithful(floats)
    ensures var fs := ParamFields(s, types, floats); forall i | 0 <= i < |fs| :: GoodField(fs[i], floats)
  {
    hide ContractHash.Readable, ContractReach.Expandable, Canon, Good, Faithful, ContractHash.Spell;
    forall i | 0 <= i < |s.params| ensures GoodField(ParamFields(s, types, floats)[i], floats) {
      ContractHash.CanonTextIffForm(s.params[i].typ, s.params[i].typ, types, types, floats);
    }
  }

  lemma TextsSplit(s: Service, r: Service, a: Table, b: Table, floats: Floats)
    requires Faithful(floats) && Proper(s, a, floats) && Proper(r, b, floats)
    requires ServiceText(s, a, floats) == ServiceText(r, b, floats)
    ensures s.name == r.name && ParamFields(s, a, floats) == ParamFields(r, b, floats)
    ensures ContractHash.CanonText(s.result, a, floats) == ContractHash.CanonText(r.result, b, floats)
  {
    hide ContractHash.Readable, ContractReach.Expandable, ContractHash.CanonText, ServiceText, Faithful, GoodField, FieldsText,
      ParamFields;
    ServiceReads(s, a, floats);
    ServiceReads(r, b, floats);
    FieldsGood(s, a, floats);
    FieldsGood(r, b, floats);
    var fs, gs := ParamFields(s, a, floats), ParamFields(r, b, floats);
    var u, v := ContractHash.CanonText(s.result, a, floats), ContractHash.CanonText(r.result, b, floats);
    var x, y := FieldsText(fs, floats) + (") -> " + u), FieldsText(gs, floats) + (") -> " + v);
    RunsRead(s.name, r.name, "(" + x, "(" + y, NameChar);
    TailsEqual("(", x, y);
    FieldsRead(fs, gs, ") -> " + u, ") -> " + v, floats);
    TailsEqual(") -> ", u, v);
  }

  /** Two services have one text, the one that is hashed, exactly when they have one contract. */
  lemma ServiceTextIffSameContract(s: Service, r: Service, a: Table, b: Table, floats: Floats)
    requires Faithful(floats) && Proper(s, a, floats) && Proper(r, b, floats)
    ensures ServiceText(s, a, floats) == ServiceText(r, b, floats) <==> SameContract(s, r, a, b)
  {
    hide ContractHash.Readable, ContractReach.Expandable, Faithful, Signature, Text, ContractHash.Spell, Canon,
      ContractShapes.SameShape;
    ContractHash.CanonTextIffSameShape(s.result, r.result, a, b, floats);
    if |s.params| == |r.params| {
      forall i | 0 <= i < |s.params|
        ensures ContractHash.CanonText(s.params[i].typ, a, floats) == ContractHash.CanonText(r.params[i].typ, b, floats) <==>
                SameType(s.params[i].typ, r.params[i].typ, a, b)
      {
        ContractHash.CanonTextIffSameShape(s.params[i].typ, r.params[i].typ, a, b, floats);
      }
    }
    if ServiceText(s, a, floats) == ServiceText(r, b, floats) {
      TextsSplit(s, r, a, b, floats);
      var fs, gs := ParamFields(s, a, floats), ParamFields(r, b, floats);
      assert |fs| == |s.params| && |gs| == |r.params|;
      forall i | 0 <= i < |s.params| ensures s.params[i].name == r.params[i].name && SameType(s.params[i].typ, r.params[i].typ, a, b) {
        assert fs[i] == gs[i];
      }
    }
    if SameContract(s, r, a, b) {
      assert ParamTexts(s, a, floats) == ParamTexts(r, b, floats);
    }
  }
}
