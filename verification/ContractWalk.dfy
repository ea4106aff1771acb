/** The canonical form as the checker computes it: one set of names on the path, inserted into before a
    declaration is expanded and removed from afterwards. */
module ContractWalk {
  import opened Types
  import opened Refinements
  import opened Contract

  class Expansion {
    var seen: set<string>

    constructor ()
      ensures seen == {}
    {
      seen := {};
    }

    /** Terminates on every table, generic and recursive ones included, and leaves `seen` as it found it. */
    method CanonType(t: TypeRef, types: Table, bound: Binding) returns (form: Form)
      modifies this
      ensures seen == old(seen) && form == Canon(t, types, seen, bound)
      decreases types.Keys - seen, 1, t, 1
    {
      match t {
        case BaseRef(b) => return BaseForm(b);
        case AtomRef(a) => return AtomForm(a);
        case WrapRef(w, a) =>
          if w != EffectOf && !OnTheWire(w) { return NonBoundary; }
          var inner := CanonType(a, types, bound);
          return if w == EffectOf then inner else WrapForm(w, inner);
        case PairRef(p, a, b) =>
          var first := CanonType(a, types, bound);
          var second := CanonType(b, types, bound);
          return PairForm(p, first, second);
        case AppRef(n, args) =>
          var forms := CanonTypes(args, types, bound);
          var head := CanonName(n, types, if n in types then Zip(types[n].typeParams, forms) else map[]);
          return AppForm(head, forms);
        case NamedRef(n) =>
          if n in bound { return bound[n]; }
          form := CanonName(n, types, bound);
        case FnRef(_, _) => return NonBoundary;
        case HistoryRef(_) => return NonBoundary;
      }
    }

    method CanonTypes(ts: seq<TypeRef>, types: Table, bound: Binding) returns (forms: seq<Form>)
      modifies this
      ensures seen == old(seen) && forms == CanonAll(ts, types, seen, bound)
      decreases types.Keys - seen, 1, ts, 0
    {
      forms := [];
      for i := 0 to |ts|
        invariant seen == old(seen) && |forms| == i
        invariant forall k | 0 <= k < i :: forms[k] == Canon(ts[k], types, seen, bound)
      {
        var form := CanonType(ts[i], types, bound);
        forms := forms + [form];
      }
    }

    method CanonName(name: string, types: Table, bound: Binding) returns (form: Form)
      modifies this
      ensures seen == old(seen) && form == CanonNamed(name, types, seen, bound)
      decreases types.Keys - seen, 0
    {
      if name in seen { return BackReference(name); }
      seen := seen + {name};
      if name !in types {
        seen := seen - {name};
        return Undeclared(name);
      }
      var body := CanonDeclaration(types[name].body, types, bound);
      seen := seen - {name};
      return Declared(name, body);
    }

    /** The forms of the fields, or of the variants, are sorted once all are there. */
    method CanonDeclaration(body: Body, types: Table, bound: Binding) returns (form: BodyForm)
      modifies this
      ensures seen == old(seen) && form == CanonBody(body, types, seen, bound)
      decreases types.Keys - seen, 3
    {
      match body {
        case Refined(b, r) => return RefinedForm(b, CanonicalRefinement(r));
        case Opaque(b, _) => return OpaqueForm(b);
        case Record(fs) =>
          ghost var path := seen;
          var fields: seq<FieldForm> := [];
          for i := 0 to |fs|
            invariant seen == old(seen) && |fields| == i
            invariant forall k | 0 <= k < i :: fields[k] == CanonField(fs[k], types, seen, bound)
          {
            var typ := CanonType(fs[i].typ, types, bound);
            fields := fields + [FieldForm(fs[i].name, typ, CanonicalRefinement(fs[i].refinement))];
          }
          assert fields == seq(|fs|, i requires 0 <= i < |fs| => CanonField(fs[i], types, path, bound));
          return RecordForm(multiset(fields));
        case Sum(vs) =>
          ghost var path := seen;
          var variants: seq<VariantForm> := [];
          for i := 0 to |vs|
            invariant seen == old(seen) && |variants| == i
            invariant forall k | 0 <= k < i :: variants[k] == CanonVariant(vs[k], types, seen, bound)
          {
            var payload := CanonTypes(PayloadTypes(vs[i].payload), types, bound);
            variants := variants + [VariantForm(vs[i].name, payload)];
          }
          assert variants == seq(|vs|, i requires 0 <= i < |vs| => CanonVariant(vs[i], types, path, bound));
          return SumForm(multiset(variants));
      }
    }
  }
}
