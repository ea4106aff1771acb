/** Equal canonical forms are equal shapes, generic declarations included. */
module ContractUnfold {
  import opened Types
  import opened Contract
  import opened ContractInvariance
  import opened ContractShapes

  // ----- steps -----

  lemma SameBodiesMonotone(x: Body, xs: seq<string>, cs: seq<Closed>, y: Body, ys: seq<string>, ds: seq<Closed>, r: Pairs, s: Pairs)
    requires SameBodies(x, xs, cs, y, ys, ds, r) && r <= s
    ensures SameBodies(x, xs, cs, y, ys, ds, s)
  {
    hide Matched;
    match (x, y)
    case (Record(fs), Record(gs)) => MatchedMonotone(fs, gs, SameFields(xs, cs, ys, ds, r), SameFields(xs, cs, ys, ds, s));
    case (Sum(vs), Sum(ws)) => MatchedMonotone(vs, ws, SameVariants(xs, cs, ys, ds, r), SameVariants(xs, cs, ys, ds, s));
    case _ =>
  }

  lemma SameDeclaredMonotone(n: string, a: Table, cs: seq<Closed>, b: Table, ds: seq<Closed>, r: Pairs, s: Pairs)
    requires SameDeclared(n, a, cs, b, ds, r) && r <= s
    ensures SameDeclared(n, a, cs, b, ds, s)
  {
    hide SameBodies;
    if n in a { SameBodiesMonotone(a[n].body, a[n].typeParams, cs, b[n].body, b[n].typeParams, ds, r, s); }
  }

  lemma StepMonotone(c: Closed, d: Closed, a: Table, b: Table, r: Pairs, s: Pairs)
    requires Step(c, d, a, b, r) && r <= s
    ensures Step(c, d, a, b, s)
  {
    hide SameDeclared;
    if c.ref.NamedRef? && d.ref.NamedRef? {
      SameDeclaredMonotone(c.ref.name, a, [], b, [], r, s);
    } else if c.ref.AppRef? && d.ref.AppRef? {
      SameDeclaredMonotone(c.ref.name, a, ArgsOf(c), b, ArgsOf(d), r, s);
    }
  }

  // ----- unfolding that trusts the names on the path -----

  predicate IsName(c: Closed, n: string) {
    c.ref == NamedRef(n) || c.ref == AppRef(n, [])
  }

  ghost predicate Trusted(c: Closed, d: Closed, names: set<string>) {
    c.ref == d.ref && exists n | n in names :: IsName(c, n)
  }

  ghost function Trust(names: set<string>): Pairs {
    iset q: (Closed, Closed) | Trusted(Stripped(q.0), Stripped(q.1), names)
  }

  ghost predicate UnfoldingUpTo(r: Pairs, names: set<string>, a: Table, b: Table) {
    forall q | q in r :: Step(Stripped(q.0), Stripped(q.1), a, b, r + Trust(names))
  }

  ghost predicate Unfolds(q: (Closed, Closed), names: set<string>, a: Table, b: Table) {
    exists r: Pairs :: q in r && UnfoldingUpTo(r, names, a, b)
  }

  ghost function Largest(names: set<string>, a: Table, b: Table): Pairs {
    iset q: (Closed, Closed) | Unfolds(q, names, a, b)
  }

  lemma LargestUnfolds(names: set<string>, a: Table, b: Table)
    ensures UnfoldingUpTo(Largest(names, a, b), names, a, b)
  {
    hide Step, Trusted;
    var all := Largest(names, a, b);
    forall q | q in all ensures Step(Stripped(q.0), Stripped(q.1), a, b, all + Trust(names)) {
      var r: Pairs :| q in r && UnfoldingUpTo(r, names, a, b);
      forall p | p in r ensures p in all { assert Unfolds(p, names, a, b); }
      StepMonotone(Stripped(q.0), Stripped(q.1), a, b, r + Trust(names), all + Trust(names));
    }
  }

  ghost function Known(names: set<string>, a: Table, b: Table): Pairs {
    Largest(names, a, b) + Trust(names)
  }

  /** A pair whose heads step to known pairs is known. */
  lemma OneMore(c: Closed, d: Closed, names: set<string>, a: Table, b: Table)
    requires Step(Stripped(c), Stripped(d), a, b, Known(names, a, b))
    ensures (c, d) in Known(names, a, b)
  {
    hide Step, Trusted;
    LargestUnfolds(names, a, b);
    var more := Largest(names, a, b) + iset{(c, d)};
    forall q | q in more ensures Step(Stripped(q.0), Stripped(q.1), a, b, more + Trust(names)) {
      StepMonotone(Stripped(q.0), Stripped(q.1), a, b, Known(names, a, b), more + Trust(names));
    }
    assert Unfolds((c, d), names, a, b);
  }

  /** A pair of uses of a declaration without parameters is known when its members are, with the name trusted. */
  lemma OneMoreName(c: Closed, d: Closed, n: string, names: set<string>, a: Table, b: Table)
    requires Stripped(c).ref == Stripped(d).ref && IsName(Stripped(c), n)
    requires SameDeclared(n, a, [], b, [], Known(names + {n}, a, b))
    ensures Unfolds((c, d), names, a, b)
  {
    hide SameDeclared, Largest, Trust, Step;
    var more := Largest(names + {n}, a, b) + Trust({n});
    LargestUnfolds(names + {n}, a, b);
    KnownMore(n, names, a, b);
    assert (c, d) in more by { TrustOne(c, d, n); }
    SameDeclaredMonotone(n, a, [], b, [], Known(names + {n}, a, b), more + Trust(names));
    forall q | q in more ensures Step(Stripped(q.0), Stripped(q.1), a, b, more + Trust(names)) {
      if q in Largest(names + {n}, a, b) {
        StepMonotone(Stripped(q.0), Stripped(q.1), a, b, Known(names + {n}, a, b), more + Trust(names));
      } else {
        TrustIs(q, n);
        NameSteps(Stripped(q.0), Stripped(q.1), n, a, b, more + Trust(names));
      }
    }
    assert UnfoldingUpTo(more, names, a, b);
  }

  lemma TrustOne(c: Closed, d: Closed, n: string)
    requires Stripped(c).ref == Stripped(d).ref && IsName(Stripped(c), n)
    ensures (c, d) in Trust({n})
  {
    assert n in {n};
  }

  lemma TrustIs(q: (Closed, Closed), n: string)
    requires q in Trust({n})
    ensures Stripped(q.0).ref == Stripped(q.1).ref && IsName(Stripped(q.0), n)
  {
  }

  lemma KnownMore(n: string, names: set<string>, a: Table, b: Table)
    ensures Known(names + {n}, a, b) <= Largest(names + {n}, a, b) + Trust({n}) + Trust(names)
  {
    hide Largest;
    forall q | q in Trust(names + {n}) ensures q in Trust({n}) + Trust(names) {
      var m :| m in names + {n} && IsName(Stripped(q.0), m);
      assert m in names || m in {n};
    }
  }

  lemma NameSteps(c: Closed, d: Closed, n: string, a: Table, b: Table, r: Pairs)
    requires c.ref == d.ref && IsName(c, n) && SameDeclared(n, a, [], b, [], r)
    ensures Step(c, d, a, b, r)
  {
    hide SameDeclared;
    if c.ref.AppRef? { assert ArgsOf(c) == [] && ArgsOf(d) == []; }
  }

  // ----- from forms to shapes -----

  ghost predicate Ready(e: Thunk, a: Table) {
    WellScoped(a) && GenericsEnd(a) && Good(e, a)
  }

  ghost predicate ReadyPair(e: Thunk, f: Thunk, a: Table, b: Table) {
    Ready(e, a) && Ready(f, b) && Entered(e.seen, a) == Entered(f.seen, b)
  }

  /** The fields of two records with equal forms can be paired off. */
  lemma FormsMatchFields(e: Thunk, f: Thunk, a: Table, b: Table, fs: seq<Field>, gs: seq<Field>, r: Pairs)
    requires IsUse(e) && IsUse(f) && e.ref.name in a && f.ref.name in b
    requires a[e.ref.name].body == Record(fs) && b[f.ref.name].body == Record(gs)
    requires CanonBody(Record(fs), a, e.seen + {e.ref.name}, Zip(a[e.ref.name].typeParams, ArgForms(e, a))) ==
             CanonBody(Record(gs), b, f.seen + {f.ref.name}, Zip(b[f.ref.name].typeParams, ArgForms(f, b)))
    requires forall x, y | MemberRef(x, Record(fs)) && MemberRef(y, Record(gs)) &&
                           FormOf(Member(e, x, a), a) == FormOf(Member(f, y, b), b) ::
      (Erase(Member(e, x, a)), Erase(Member(f, y, b))) in r
    ensures Matched(fs, gs, SameFields(a[e.ref.name].typeParams, ArgsOf(Erase(e)), b[f.ref.name].typeParams, ArgsOf(Erase(f)), r))
  {
    hide Canon, Matched, FormOf, Erase, FieldsPair;
    var seen, seen' := e.seen + {e.ref.name}, f.seen + {f.ref.name};
    var bound, bound' := Zip(a[e.ref.name].typeParams, ArgForms(e, a)), Zip(b[f.ref.name].typeParams, ArgForms(f, b));
    var xs := seq(|fs|, i requires 0 <= i < |fs| => CanonField(fs[i], a, seen, bound));
    var ys := seq(|gs|, i requires 0 <= i < |gs| => CanonField(gs[i], b, seen', bound'));
    var same := iset q: (Field, Field) | q.0 in fs && q.1 in gs && CanonField(q.0, a, seen, bound) == CanonField(q.1, b, seen', bound');
    MatchedIffMultisets(fs, gs, same, xs, ys);
    var goal := SameFields(a[e.ref.name].typeParams, ArgsOf(Erase(e)), b[f.ref.name].typeParams, ArgsOf(Erase(f)), r);
    forall q | q in same ensures q in goal {
      var i :| 0 <= i < |fs| && fs[i] == q.0;
      var j :| 0 <= j < |gs| && gs[j] == q.1;
      assert MemberRef(q.0.typ, Record(fs)) && MemberRef(q.1.typ, Record(gs));
      FieldPaired(e, f, a, b, q.0, q.1, r);
    }
    MatchedMonotone(fs, gs, same, goal);
  }

  lemma FieldPaired(e: Thunk, f: Thunk, a: Table, b: Table, x: Field, y: Field, r: Pairs)
    requires IsUse(e) && IsUse(f) && e.ref.name in a && f.ref.name in b
    requires CanonField(x, a, e.seen + {e.ref.name}, Zip(a[e.ref.name].typeParams, ArgForms(e, a))) ==
             CanonField(y, b, f.seen + {f.ref.name}, Zip(b[f.ref.name].typeParams, ArgForms(f, b)))
    requires FormOf(Member(e, x.typ, a), a) == FormOf(Member(f, y.typ, b), b) ==>
             (Erase(Member(e, x.typ, a)), Erase(Member(f, y.typ, b))) in r
    ensures FieldsPair(x, a[e.ref.name].typeParams, ArgsOf(Erase(e)), y, b[f.ref.name].typeParams, ArgsOf(Erase(f)), r)
  {
    hide Canon, FormOf, Erase;
    MemberForm(e, x.typ, a);
    MemberForm(f, y.typ, b);
    EraseMember(e, x.typ, a);
    EraseMember(f, y.typ, b);
  }

  lemma FormsMatchVariants(e: Thunk, f: Thunk, a: Table, b: Table, vs: seq<Variant>, ws: seq<Variant>, r: Pairs)
    requires IsUse(e) && IsUse(f) && e.ref.name in a && f.ref.name in b
    requires a[e.ref.name].body == Sum(vs) && b[f.ref.name].body == Sum(ws)
    requires CanonBody(Sum(vs), a, e.seen + {e.ref.name}, Zip(a[e.ref.name].typeParams, ArgForms(e, a))) ==
             CanonBody(Sum(ws), b, f.seen + {f.ref.name}, Zip(b[f.ref.name].typeParams, ArgForms(f, b)))
    requires forall x, y | MemberRef(x, Sum(vs)) && MemberRef(y, Sum(ws)) &&
                           FormOf(Member(e, x, a), a) == FormOf(Member(f, y, b), b) ::
      (Erase(Member(e, x, a)), Erase(Member(f, y, b))) in r
    ensures Matched(vs, ws, SameVariants(a[e.ref.name].typeParams, ArgsOf(Erase(e)), b[f.ref.name].typeParams, ArgsOf(Erase(f)), r))
  {
    hide CanonVariant, Matched, FormOf, Erase, VariantsPair, MemberRef, Member, ArgForms, ArgsOf, Zip;
    var seen, seen' := e.seen + {e.ref.name}, f.seen + {f.ref.name};
    var bound, bound' := Zip(a[e.ref.name].typeParams, ArgForms(e, a)), Zip(b[f.ref.name].typeParams, ArgForms(f, b));
    var xs := seq(|vs|, i requires 0 <= i < |vs| => CanonVariant(vs[i], a, seen, bound));
    var ys := seq(|ws|, i requires 0 <= i < |ws| => CanonVariant(ws[i], b, seen', bound'));
    var same := iset q: (Variant, Variant) | q.0 in vs && q.1 in ws && CanonVariant(q.0, a, seen, bound) == CanonVariant(q.1, b, seen', bound');
    MatchedIffMultisets(vs, ws, same, xs, ys);
    var goal := SameVariants(a[e.ref.name].typeParams, ArgsOf(Erase(e)), b[f.ref.name].typeParams, ArgsOf(Erase(f)), r);
    forall q | q in same ensures q in goal {
      var i :| 0 <= i < |vs| && vs[i] == q.0;
      var j :| 0 <= j < |ws| && ws[j] == q.1;
      VariantRefs(q.0, vs);
      VariantRefs(q.1, ws);
      VariantPaired(e, f, a, b, q.0, q.1, r);
    }
    MatchedMonotone(vs, ws, same, goal);
  }

  lemma VariantRefs(v: Variant, vs: seq<Variant>)
    requires v in vs
    ensures forall k | 0 <= k < |v.payload| :: MemberRef(v.payload[k].typ, Sum(vs))
  {
    var i :| 0 <= i < |vs| && vs[i] == v;
  }

  lemma VariantPaired(e: Thunk, f: Thunk, a: Table, b: Table, v: Variant, w: Variant, r: Pairs)
    requires IsUse(e) && IsUse(f) && e.ref.name in a && f.ref.name in b
    requires CanonVariant(v, a, e.seen + {e.ref.name}, Zip(a[e.ref.name].typeParams, ArgForms(e, a))) ==
             CanonVariant(w, b, f.seen + {f.ref.name}, Zip(b[f.ref.name].typeParams, ArgForms(f, b)))
    requires forall k, l | 0 <= k < |v.payload| && 0 <= l < |w.payload| &&
                           FormOf(Member(e, v.payload[k].typ, a), a) == FormOf(Member(f, w.payload[l].typ, b), b) ::
      (Erase(Member(e, v.payload[k].typ, a)), Erase(Member(f, w.payload[l].typ, b))) in r
    ensures VariantsPair(v, a[e.ref.name].typeParams, ArgsOf(Erase(e)), w, b[f.ref.name].typeParams, ArgsOf(Erase(f)), r)
  {
    hide Canon, CanonAll, FormOf, Erase;
    var x := CanonVariant(v, a, e.seen + {e.ref.name}, Zip(a[e.ref.name].typeParams, ArgForms(e, a)));
    var y := CanonVariant(w, b, f.seen + {f.ref.name}, Zip(b[f.ref.name].typeParams, ArgForms(f, b)));
    assert |x.payload| == |v.payload| && |y.payload| == |w.payload|;
    forall k | 0 <= k < |v.payload|
      ensures (Closed(v.payload[k].typ, a[e.ref.name].typeParams, ArgsOf(Erase(e))),
               Closed(w.payload[k].typ, b[f.ref.name].typeParams, ArgsOf(Erase(f)))) in r
    {
      MemberForm(e, v.payload[k].typ, a);
      MemberForm(f, w.payload[k].typ, b);
      assert x.payload[k] == FormOf(Member(e, v.payload[k].typ, a), a) && y.payload[k] == FormOf(Member(f, w.payload[k].typ, b), b);
      EraseMember(e, v.payload[k].typ, a);
      EraseMember(f, w.payload[k].typ, b);
    }
  }

  /** Declarations with equal forms match, if their members with equal forms are paired. */
  lemma FormsMatchDeclared(e: Thunk, f: Thunk, n: string, a: Table, b: Table, r: Pairs)
    requires IsUse(e) && IsUse(f) && e.ref.name == f.ref.name == n && n !in e.seen && n !in f.seen
    requires UseForm(e, a) == UseForm(f, b)
    requires n in a && n in b ==>
      forall x, y | MemberRef(x, a[n].body) && MemberRef(y, b[n].body) && FormOf(Member(e, x, a), a) == FormOf(Member(f, y, b), b) ::
        (Erase(Member(e, x, a)), Erase(Member(f, y, b))) in r
    ensures SameDeclared(n, a, ArgsOf(Erase(e)), b, ArgsOf(Erase(f)), r)
  {
    hide Canon, Matched, FormOf, Erase, SameFields, SameVariants, CanonField, CanonVariant;
    if n in a {
      match (a[n].body, b[n].body) {
        case (Record(fs), Record(gs)) => FormsMatchFields(e, f, a, b, fs, gs, r);
        case (Sum(vs), Sum(ws)) => FormsMatchVariants(e, f, a, b, vs, ws, r);
        case _ =>
      }
    }
  }

  /** Equal forms are equal shapes, up to trusting the names on the path. */
  lemma {:induction false} FormsUnfold(e: Thunk, f: Thunk, form: Form, a: Table, b: Table)
    requires ReadyPair(e, f, a, b) && FormOf(e, a) == form && FormOf(f, b) == form
    ensures (Erase(e), Erase(f)) in Known(Entered(e.seen, a), a, b)
    decreases form, 2
  {
    hide Good, FormOf, Step, Known, Erase, WellScoped, GenericsEnd;
    HeadForm(e, a);
    HeadForm(f, b);
    HeadErase(e);
    HeadErase(f);
    var h, k, names := HeadThunk(e), HeadThunk(f), Entered(e.seen, a);
    if IsUse(h) && IsUse(k) {
      UsesUnfold(e, f, form, a, b);
    } else {
      BuiltInsUnfold(h, k, form, a, b);
      OneMore(Erase(e), Erase(f), names, a, b);
    }
  }

  lemma {:induction false} BuiltInsUnfold(h: Thunk, k: Thunk, form: Form, a: Table, b: Table)
    requires ReadyPair(h, k, a, b) && FormOf(h, a) == form && FormOf(k, b) == form && IsHead(h) && IsHead(k)
    requires !(IsUse(h) && IsUse(k))
    ensures Step(Erase(h), Erase(k), a, b, Known(Entered(h.seen, a), a, b))
    decreases form, 1
  {
    hide Good, Known, WellScoped, GenericsEnd, CanonNamed;
    UseForms(h, a);
    UseForms(k, b);
    match h.ref
    case WrapRef(v, x) =>
      if OnTheWire(v) {
        InnerReady(h, x, k, k.ref.inner, a, b);
        FormsUnfold(h.(ref := x), k.(ref := k.ref.inner), form.inner, a, b);
        AtErase(h, x);
        AtErase(k, k.ref.inner);
      }
    case PairRef(v, x, y) =>
      InnerReady(h, x, k, k.ref.first, a, b);
      InnerReady(h, y, k, k.ref.second, a, b);
      FormsUnfold(h.(ref := x), k.(ref := k.ref.first), form.first, a, b);
      FormsUnfold(h.(ref := y), k.(ref := k.ref.second), form.second, a, b);
      AtErase(h, x);
      AtErase(k, k.ref.first);
      AtErase(h, y);
      AtErase(k, k.ref.second);
    case _ =>
  }

  lemma AtErase(e: Thunk, ref: TypeRef)
    ensures Erase(e.(ref := ref)) == At(Erase(e), ref)
  {
  }

  /** What kind of form a use has. */
  lemma UseForms(e: Thunk, a: Table)
    requires Ready(e, a) && IsHead(e)
    ensures e.ref.NamedRef? ==> FormOf(e, a).BackReference? || FormOf(e, a).Undeclared? || FormOf(e, a).Declared?
    ensures e.ref.AppRef? ==> FormOf(e, a).AppForm?
  {
    if e.ref.NamedRef? { NamedForm(e, a); }
    if e.ref.AppRef? { AppliedForm(e, a); }
  }

  lemma InnerReady(h: Thunk, x: TypeRef, k: Thunk, y: TypeRef, a: Table, b: Table)
    requires ReadyPair(h, k, a, b)
    requires IsPart(x, h.ref) && IsPart(y, k.ref)
    ensures ReadyPair(h.(ref := x), k.(ref := y), a, b)
  {
    PartReady(h, x, a);
    PartReady(k, y, b);
  }

  predicate IsPart(x: TypeRef, t: TypeRef) {
    match t
    case WrapRef(_, c) => x == c
    case PairRef(_, c, d) => x == c || x == d
    case AppRef(_, args) => x in args
    case _ => false
  }

  lemma PartReady(h: Thunk, x: TypeRef, a: Table)
    requires Ready(h, a) && IsPart(x, h.ref)
    ensures Ready(h.(ref := x), a)
  {
    GoodScoped(h, a);
    forall names: iset<string> | Within(h.ref, names, h.params) ensures Within(x, names, h.params) {}
    InnerGood(h, x, a);
  }

  lemma {:induction false} UsesUnfold(e: Thunk, f: Thunk, form: Form, a: Table, b: Table)
    requires ReadyPair(e, f, a, b) && FormOf(e, a) == form && FormOf(f, b) == form
    requires IsUse(HeadThunk(e)) && IsUse(HeadThunk(f))
    ensures (Erase(e), Erase(f)) in Known(Entered(e.seen, a), a, b)
    decreases form, 1
  {
    hide Good, FormOf, Step, Known, Erase, WellScoped, GenericsEnd, Entered, UseForm, SameDeclared, Trusted;
    HeadForm(e, a);
    HeadForm(f, b);
    HeadErase(e);
    HeadErase(f);
    var h, k, names := HeadThunk(e), HeadThunk(f), Entered(e.seen, a);
    SameUse(h, k, a, b);
    ArgsUnfold(h, k, form, a, b);
    var n := h.ref.name;
    if n in h.seen {
      SeenTrusted(h, k, a, b);
      assert (Erase(e), Erase(f)) in Trust(names);
      KnownTrust(names, a, b);
    } else {
      var inside := names + if n in a && a[n].typeParams == [] then {n} else {};
      MembersUnfold(h, k, form, a, b);
      FormsMatchDeclared(h, k, n, a, b, Known(inside, a, b));
      if inside == names {
        UseSteps(h, k, a, b, Known(names, a, b));
        OneMore(Erase(e), Erase(f), names, a, b);
      } else {
        NameOfUse(h, k, a, b);
        OneMoreName(Erase(e), Erase(f), n, names, a, b);
        KnownUnfolds(Erase(e), Erase(f), names, a, b);
      }
    }
  }

  lemma KnownUnfolds(c: Closed, d: Closed, names: set<string>, a: Table, b: Table)
    requires Unfolds((c, d), names, a, b)
    ensures (c, d) in Known(names, a, b)
  {
  }

  lemma KnownTrust(names: set<string>, a: Table, b: Table)
    ensures Trust(names) <= Known(names, a, b)
  {
  }

  /** Uses with equal forms name the same declaration, in the same way, at arguments with equal forms. */
  lemma SameUse(h: Thunk, k: Thunk, a: Table, b: Table)
    requires ReadyPair(h, k, a, b) && IsHead(h) && IsHead(k) && IsUse(h) && IsUse(k) && FormOf(h, a) == FormOf(k, b)
    ensures h.ref.name == k.ref.name && (h.ref.NamedRef? <==> k.ref.NamedRef?)
    ensures UseForm(h, a) == UseForm(k, b) && ArgForms(h, a) == ArgForms(k, b)
    ensures h.ref.name in h.seen <==> h.ref.name in k.seen
  {
    hide Good, WellScoped, GenericsEnd, CanonBody, FormOf;
    if h.ref.NamedRef? { NamedForm(h, a); } else { AppliedForm(h, a); }
    if k.ref.NamedRef? { NamedForm(k, b); } else { AppliedForm(k, b); }
  }

  lemma {:induction false} ArgsUnfold(h: Thunk, k: Thunk, form: Form, a: Table, b: Table)
    requires ReadyPair(h, k, a, b) && IsHead(h) && IsHead(k) && IsUse(h) && IsUse(k) && FormOf(h, a) == form && FormOf(k, b) == form
    requires h.ref.NamedRef? <==> k.ref.NamedRef?
    requires ArgForms(h, a) == ArgForms(k, b)
    ensures |ArgsOf(Erase(h))| == |ArgsOf(Erase(k))|
    ensures forall i | 0 <= i < |ArgsOf(Erase(h))| :: (ArgsOf(Erase(h))[i], ArgsOf(Erase(k))[i]) in Known(Entered(h.seen, a), a, b)
    decreases form, 0
  {
    hide Good, Known, WellScoped, GenericsEnd, Entered, FormOf, Erase;
    EraseArgs(h);
    EraseArgs(k);
    assert |ArgThunks(h)| == |ArgForms(h, a)| == |ArgForms(k, b)| == |ArgThunks(k)|;
    if h.ref.AppRef? {
      AppliedForm(h, a);
      forall i | 0 <= i < |ArgThunks(h)|
        ensures (Erase(ArgThunks(h)[i]), Erase(ArgThunks(k)[i])) in Known(Entered(h.seen, a), a, b)
      {
        assert h.ref.args[i] in h.ref.args && k.ref.args[i] in k.ref.args;
        InnerReady(h, h.ref.args[i], k, k.ref.args[i], a, b);
        assert ArgForms(h, a)[i] == FormOf(ArgThunks(h)[i], a) && ArgForms(k, b)[i] == FormOf(ArgThunks(k)[i], b);
        assert form.args[i] == ArgForms(h, a)[i];
        FormsUnfold(ArgThunks(h)[i], ArgThunks(k)[i], form.args[i], a, b);
      }
    }
  }

  /** A name met on its own path has no parameters, and is trusted. */
  lemma SeenTrusted(h: Thunk, k: Thunk, a: Table, b: Table)
    requires ReadyPair(h, k, a, b) && IsHead(h) && IsHead(k) && IsUse(h) && IsUse(k)
    requires h.ref.name == k.ref.name && (h.ref.NamedRef? <==> k.ref.NamedRef?) && |ArgForms(h, a)| == |ArgForms(k, b)|
    requires h.ref.name in h.seen
    ensures Trusted(Erase(h), Erase(k), Entered(h.seen, a))
  {
    hide FormOf;
    var n := h.ref.name;
    assert n in a by { GoodScoped(h, a); }
    if a[n].typeParams != [] { GenericNotSeen(h, a); }
    UseArity(h, a);
    assert n in Entered(h.seen, a) && IsName(Erase(h), n);
  }

  lemma {:induction false} MembersUnfold(h: Thunk, k: Thunk, form: Form, a: Table, b: Table)
    requires ReadyPair(h, k, a, b) && IsHead(h) && IsHead(k) && IsUse(h) && IsUse(k) && FormOf(h, a) == form && FormOf(k, b) == form
    requires h.ref.name == k.ref.name && (h.ref.NamedRef? <==> k.ref.NamedRef?) && ArgForms(h, a) == ArgForms(k, b)
    requires h.ref.name !in h.seen && h.ref.name !in k.seen
    ensures var n := h.ref.name; n in a && n in b ==>
      forall x, y | MemberRef(x, a[n].body) && MemberRef(y, b[n].body) && FormOf(Member(h, x, a), a) == FormOf(Member(k, y, b), b) ::
        (Erase(Member(h, x, a)), Erase(Member(k, y, b))) in
        Known(Entered(h.seen, a) + if a[n].typeParams == [] then {n} else {}, a, b)
    decreases form, 0
  {
    hide Good, Known, WellScoped, GenericsEnd, Entered, FormOf, Erase, MemberRef, UseForm, Member;
    var n := h.ref.name;
    if n in a && n in b {
      UseArity(h, a) by { ReadyGood(h, a); }
      UseArity(k, b) by { ReadyGood(k, b); }
      assert |ArgForms(h, a)| == |ArgThunks(h)| && |ArgForms(k, b)| == |ArgThunks(k)|;
      assert a[n].typeParams == [] <==> b[n].typeParams == [];
      UseInForm(h, a);
      forall x, y | MemberRef(x, a[n].body) && MemberRef(y, b[n].body) && FormOf(Member(h, x, a), a) == FormOf(Member(k, y, b), b)
        ensures (Erase(Member(h, x, a)), Erase(Member(k, y, b))) in
                Known(Entered(h.seen, a) + if a[n].typeParams == [] then {n} else {}, a, b)
      {
        MemberGood(h, x, a);
        MemberGood(k, y, b);
        MemberSmaller(h, x, a);
        FormsUnfold(Member(h, x, a), Member(k, y, b), FormOf(Member(h, x, a), a), a, b);
      }
    }
  }

  lemma ReadyGood(e: Thunk, a: Table)
    requires Ready(e, a)
    ensures Good(e, a)
  {
  }

  lemma UseInForm(e: Thunk, a: Table)
    requires Ready(e, a) && IsHead(e) && IsUse(e)
    ensures UseForm(e, a) == FormOf(e, a) || UseForm(e, a) < FormOf(e, a)
  {
    if e.ref.NamedRef? { NamedForm(e, a); } else { AppliedForm(e, a); }
  }

  lemma UseSteps(h: Thunk, k: Thunk, a: Table, b: Table, r: Pairs)
    requires IsUse(h) && IsUse(k) && h.ref.name == k.ref.name && (h.ref.NamedRef? <==> k.ref.NamedRef?)
    requires |ArgsOf(Erase(h))| == |ArgsOf(Erase(k))|
    requires forall i | 0 <= i < |ArgsOf(Erase(h))| :: (ArgsOf(Erase(h))[i], ArgsOf(Erase(k))[i]) in r
    requires SameDeclared(h.ref.name, a, ArgsOf(Erase(h)), b, ArgsOf(Erase(k)), r)
    ensures Step(Erase(h), Erase(k), a, b, r)
  {
    hide SameDeclared;
    assert Erase(h).ref == h.ref && Erase(k).ref == k.ref;
    if h.ref.NamedRef? { assert ArgsOf(Erase(h)) == [] && ArgsOf(Erase(k)) == []; }
  }

  lemma NameOfUse(h: Thunk, k: Thunk, a: Table, b: Table)
    requires ReadyPair(h, k, a, b) && IsHead(h) && IsHead(k) && IsUse(h) && IsUse(k) && h.ref.name in a
    requires h.ref.name == k.ref.name && (h.ref.NamedRef? <==> k.ref.NamedRef?) && |ArgForms(h, a)| == |ArgForms(k, b)|
    requires a[h.ref.name].typeParams == []
    ensures Erase(h).ref == Erase(k).ref && IsName(Erase(h), h.ref.name) && ArgsOf(Erase(h)) == [] && ArgsOf(Erase(k)) == []
  {
    UseArity(h, a);
    EraseArgs(h);
    EraseArgs(k);
  }

  // ----- from shapes to forms -----

  /** Paired fields of two uses have equal forms. */
  lemma FieldsForm(e: Thunk, f: Thunk, a: Table, b: Table, fs: seq<Field>, gs: seq<Field>, r: Pairs)
    requires IsUse(e) && IsUse(f) && e.ref.name in a && f.ref.name in b
    requires a[e.ref.name].body == Record(fs) && b[f.ref.name].body == Record(gs)
    requires Matched(fs, gs, SameFields(a[e.ref.name].typeParams, ArgsOf(Erase(e)), b[f.ref.name].typeParams, ArgsOf(Erase(f)), r))
    requires forall x, y | MemberRef(x, Record(fs)) && MemberRef(y, Record(gs)) && (Erase(Member(e, x, a)), Erase(Member(f, y, b))) in r ::
      FormOf(Member(e, x, a), a) == FormOf(Member(f, y, b), b)
    ensures CanonBody(Record(fs), a, e.seen + {e.ref.name}, Zip(a[e.ref.name].typeParams, ArgForms(e, a))) ==
            CanonBody(Record(gs), b, f.seen + {f.ref.name}, Zip(b[f.ref.name].typeParams, ArgForms(f, b)))
  {
    hide Canon, Matched, FormOf, Erase, FieldsPair, MemberRef, Member, ArgForms, CanonField;
    var seen, seen' := e.seen + {e.ref.name}, f.seen + {f.ref.name};
    var bound, bound' := Zip(a[e.ref.name].typeParams, ArgForms(e, a)), Zip(b[f.ref.name].typeParams, ArgForms(f, b));
    var xs := seq(|fs|, i requires 0 <= i < |fs| => CanonField(fs[i], a, seen, bound));
    var ys := seq(|gs|, i requires 0 <= i < |gs| => CanonField(gs[i], b, seen', bound'));
    var same := SameFields(a[e.ref.name].typeParams, ArgsOf(Erase(e)), b[f.ref.name].typeParams, ArgsOf(Erase(f)), r);
    forall i, j | 0 <= i < |fs| && 0 <= j < |gs| && (fs[i], gs[j]) in same ensures xs[i] == ys[j] {
      FieldRefs(fs[i], fs);
      FieldRefs(gs[j], gs);
      FieldForm1(e, f, a, b, fs[i], gs[j], r);
    }
    MatchedImages(fs, gs, same, xs, ys);
  }

  lemma FieldRefs(f: Field, fs: seq<Field>)
    requires f in fs
    ensures MemberRef(f.typ, Record(fs))
  {
  }

  lemma FieldForm1(e: Thunk, f: Thunk, a: Table, b: Table, x: Field, y: Field, r: Pairs)
    requires IsUse(e) && IsUse(f) && e.ref.name in a && f.ref.name in b
    requires FieldsPair(x, a[e.ref.name].typeParams, ArgsOf(Erase(e)), y, b[f.ref.name].typeParams, ArgsOf(Erase(f)), r)
    requires (Erase(Member(e, x.typ, a)), Erase(Member(f, y.typ, b))) in r ==>
             FormOf(Member(e, x.typ, a), a) == FormOf(Member(f, y.typ, b), b)
    ensures CanonField(x, a, e.seen + {e.ref.name}, Zip(a[e.ref.name].typeParams, ArgForms(e, a))) ==
            CanonField(y, b, f.seen + {f.ref.name}, Zip(b[f.ref.name].typeParams, ArgForms(f, b)))
  {
    hide Canon, FormOf, Erase;
    MemberForm(e, x.typ, a);
    MemberForm(f, y.typ, b);
    EraseMember(e, x.typ, a);
    EraseMember(f, y.typ, b);
  }

  lemma VariantsForm(e: Thunk, f: Thunk, a: Table, b: Table, vs: seq<Variant>, ws: seq<Variant>, r: Pairs)
    requires IsUse(e) && IsUse(f) && e.ref.name in a && f.ref.name in b
    requires a[e.ref.name].body == Sum(vs) && b[f.ref.name].body == Sum(ws)
    requires Matched(vs, ws, SameVariants(a[e.ref.name].typeParams, ArgsOf(Erase(e)), b[f.ref.name].typeParams, ArgsOf(Erase(f)), r))
    requires forall x, y | MemberRef(x, Sum(vs)) && MemberRef(y, Sum(ws)) && (Erase(Member(e, x, a)), Erase(Member(f, y, b))) in r ::
      FormOf(Member(e, x, a), a) == FormOf(Member(f, y, b), b)
    ensures CanonBody(Sum(vs), a, e.seen + {e.ref.name}, Zip(a[e.ref.name].typeParams, ArgForms(e, a))) ==
            CanonBody(Sum(ws), b, f.seen + {f.ref.name}, Zip(b[f.ref.name].typeParams, ArgForms(f, b)))
  {
    hide Canon, Matched, FormOf, Erase, VariantsPair, MemberRef, Member, ArgForms, CanonVariant;
    var seen, seen' := e.seen + {e.ref.name}, f.seen + {f.ref.name};
    var bound, bound' := Zip(a[e.ref.name].typeParams, ArgForms(e, a)), Zip(b[f.ref.name].typeParams, ArgForms(f, b));
    var xs := seq(|vs|, i requires 0 <= i < |vs| => CanonVariant(vs[i], a, seen, bound));
    var ys := seq(|ws|, i requires 0 <= i < |ws| => CanonVariant(ws[i], b, seen', bound'));
    var same := SameVariants(a[e.ref.name].typeParams, ArgsOf(Erase(e)), b[f.ref.name].typeParams, ArgsOf(Erase(f)), r);
    forall i, j | 0 <= i < |vs| && 0 <= j < |ws| && (vs[i], ws[j]) in same ensures xs[i] == ys[j] {
      VariantRefs(vs[i], vs);
      VariantRefs(ws[j], ws);
      VariantForm1(e, f, a, b, vs[i], ws[j], r);
    }
    MatchedImages(vs, ws, same, xs, ys);
  }

  lemma VariantForm1(e: Thunk, f: Thunk, a: Table, b: Table, v: Variant, w: Variant, r: Pairs)
    requires IsUse(e) && IsUse(f) && e.ref.name in a && f.ref.name in b
    requires VariantsPair(v, a[e.ref.name].typeParams, ArgsOf(Erase(e)), w, b[f.ref.name].typeParams, ArgsOf(Erase(f)), r)
    requires forall k, l | 0 <= k < |v.payload| && 0 <= l < |w.payload| &&
                           (Erase(Member(e, v.payload[k].typ, a)), Erase(Member(f, w.payload[l].typ, b))) in r ::
      FormOf(Member(e, v.payload[k].typ, a), a) == FormOf(Member(f, w.payload[l].typ, b), b)
    ensures CanonVariant(v, a, e.seen + {e.ref.name}, Zip(a[e.ref.name].typeParams, ArgForms(e, a))) ==
            CanonVariant(w, b, f.seen + {f.ref.name}, Zip(b[f.ref.name].typeParams, ArgForms(f, b)))
  {
    hide Canon, FormOf, Erase;
    var x := CanonVariant(v, a, e.seen + {e.ref.name}, Zip(a[e.ref.name].typeParams, ArgForms(e, a)));
    var y := CanonVariant(w, b, f.seen + {f.ref.name}, Zip(b[f.ref.name].typeParams, ArgForms(f, b)));
    forall k | 0 <= k < |v.payload| ensures x.payload[k] == y.payload[k] {
      MemberForm(e, v.payload[k].typ, a);
      MemberForm(f, w.payload[k].typ, b);
      EraseMember(e, v.payload[k].typ, a);
      EraseMember(f, w.payload[k].typ, b);
    }
    assert x.payload == y.payload;
  }

  lemma DeclaredForm(e: Thunk, f: Thunk, n: string, a: Table, b: Table, r: Pairs)
    requires IsUse(e) && IsUse(f) && e.ref.name == f.ref.name == n && (n in e.seen <==> n in f.seen)
    requires SameDeclared(n, a, ArgsOf(Erase(e)), b, ArgsOf(Erase(f)), r)
    requires n in a && n in b && n !in e.seen ==>
      forall x, y | MemberRef(x, a[n].body) && MemberRef(y, b[n].body) && (Erase(Member(e, x, a)), Erase(Member(f, y, b))) in r ::
        FormOf(Member(e, x, a), a) == FormOf(Member(f, y, b), b)
    ensures UseForm(e, a) == UseForm(f, b)
  {
    hide Canon, Matched, FormOf, Erase, SameFields, SameVariants, CanonField, CanonVariant;
    if n in a && n !in e.seen {
      match (a[n].body, b[n].body) {
        case (Record(fs), Record(gs)) => FieldsForm(e, f, a, b, fs, gs, r);
        case (Sum(vs), Sum(ws)) => VariantsForm(e, f, a, b, vs, ws, r);
        case _ =>
      }
    }
  }

  /** Equal shapes have equal forms. */
  lemma {:induction false} ShapesForm(e: Thunk, f: Thunk, form: Form, a: Table, b: Table, r: Pairs)
    requires ReadyPair(e, f, a, b) && FormOf(e, a) == form && Unfolding(r, a, b) && (Erase(e), Erase(f)) in r
    ensures FormOf(f, b) == form
    decreases form, 2
  {
    hide Good, FormOf, Step, Erase, WellScoped, GenericsEnd;
    HeadForm(e, a);
    HeadForm(f, b);
    HeadErase(e);
    HeadErase(f);
    var h, k := HeadThunk(e), HeadThunk(f);
    assert Step(Erase(h), Erase(k), a, b, r);
    if IsUse(h) && IsUse(k) {
      UsesForm(h, k, form, a, b, r);
    } else {
      BuiltInsForm(h, k, form, a, b, r);
    }
  }

  lemma {:induction false} BuiltInsForm(h: Thunk, k: Thunk, form: Form, a: Table, b: Table, r: Pairs)
    requires ReadyPair(h, k, a, b) && FormOf(h, a) == form && Unfolding(r, a, b) && Step(Erase(h), Erase(k), a, b, r)
    requires IsHead(h) && IsHead(k) && !(IsUse(h) && IsUse(k))
    ensures FormOf(k, b) == form
    decreases form, 1
  {
    hide Good, WellScoped, GenericsEnd, CanonNamed, Unfolding, SameDeclared;
    match h.ref
    case WrapRef(v, x) =>
      if OnTheWire(v) {
        var y := k.ref.inner;
        InnerReady(h, x, k, y, a, b);
        AtErase(h, x);
        AtErase(k, y);
        ShapesForm(h.(ref := x), k.(ref := y), form.inner, a, b, r);
      }
    case PairRef(v, x, y) =>
      InnerReady(h, x, k, k.ref.first, a, b);
      InnerReady(h, y, k, k.ref.second, a, b);
      AtErase(h, x);
      AtErase(k, k.ref.first);
      AtErase(h, y);
      AtErase(k, k.ref.second);
      ShapesForm(h.(ref := x), k.(ref := k.ref.first), form.first, a, b, r);
      ShapesForm(h.(ref := y), k.(ref := k.ref.second), form.second, a, b, r);
    case _ =>
  }

  lemma {:induction false} UsesForm(h: Thunk, k: Thunk, form: Form, a: Table, b: Table, r: Pairs)
    requires ReadyPair(h, k, a, b) && FormOf(h, a) == form && Unfolding(r, a, b) && Step(Erase(h), Erase(k), a, b, r)
    requires IsHead(h) && IsHead(k) && IsUse(h) && IsUse(k)
    ensures FormOf(k, b) == form
    decreases form, 1
  {
    hide Good, WellScoped, GenericsEnd, CanonBody, Unfolding, SameDeclared, FormOf, Member, MemberRef, UseForm;
    StepUse(h, k, a, b, r);
    ArgsForm(h, k, form, a, b, r);
    var n := h.ref.name;
    SeenAlike(h, k, a, b);
    if n in a && n in b && n !in h.seen { MembersForm(h, k, form, a, b, r); }
    DeclaredForm(h, k, n, a, b, r);
    if h.ref.NamedRef? {
      NamedForm(h, a);
      NamedForm(k, b);
    } else {
      AppliedForm(h, a);
      AppliedForm(k, b);
    }
  }

  lemma StepUse(h: Thunk, k: Thunk, a: Table, b: Table, r: Pairs)
    requires IsUse(h) && IsUse(k) && Step(Erase(h), Erase(k), a, b, r)
    ensures h.ref.name == k.ref.name && (h.ref.NamedRef? <==> k.ref.NamedRef?)
    ensures |ArgsOf(Erase(h))| == |ArgsOf(Erase(k))|
    ensures forall i | 0 <= i < |ArgsOf(Erase(h))| :: (ArgsOf(Erase(h))[i], ArgsOf(Erase(k))[i]) in r
    ensures SameDeclared(h.ref.name, a, ArgsOf(Erase(h)), b, ArgsOf(Erase(k)), r)
  {
    hide SameDeclared;
    assert Erase(h).ref == h.ref && Erase(k).ref == k.ref;
    if h.ref.NamedRef? { assert ArgsOf(Erase(h)) == [] && ArgsOf(Erase(k)) == []; }
  }

  lemma {:induction false} ArgsForm(h: Thunk, k: Thunk, form: Form, a: Table, b: Table, r: Pairs)
    requires ReadyPair(h, k, a, b) && FormOf(h, a) == form && Unfolding(r, a, b) && IsHead(h) && IsHead(k) && IsUse(h) && IsUse(k)
    requires h.ref.NamedRef? <==> k.ref.NamedRef?
    requires |ArgsOf(Erase(h))| == |ArgsOf(Erase(k))|
    requires forall i | 0 <= i < |ArgsOf(Erase(h))| :: (ArgsOf(Erase(h))[i], ArgsOf(Erase(k))[i]) in r
    ensures ArgForms(h, a) == ArgForms(k, b)
    decreases form, 0
  {
    hide Good, WellScoped, GenericsEnd, Entered, FormOf, Erase, Unfolding;
    EraseArgs(h);
    EraseArgs(k);
    if h.ref.AppRef? {
      AppliedForm(h, a);
      forall i | 0 <= i < |ArgThunks(h)| ensures ArgForms(h, a)[i] == ArgForms(k, b)[i] {
        assert h.ref.args[i] in h.ref.args && k.ref.args[i] in k.ref.args;
        InnerReady(h, h.ref.args[i], k, k.ref.args[i], a, b);
        assert (Erase(ArgThunks(h)[i]), Erase(ArgThunks(k)[i])) == (ArgsOf(Erase(h))[i], ArgsOf(Erase(k))[i]);
        assert form.args[i] == ArgForms(h, a)[i] == FormOf(ArgThunks(h)[i], a);
        ShapesForm(ArgThunks(h)[i], ArgThunks(k)[i], form.args[i], a, b, r);
      }
    }
    assert |ArgForms(h, a)| == |ArgForms(k, b)|;
  }

  /** Both sides have met a name before, or neither has. */
  lemma SeenAlike(h: Thunk, k: Thunk, a: Table, b: Table)
    requires ReadyPair(h, k, a, b) && IsHead(h) && IsHead(k) && IsUse(h) && IsUse(k)
    requires h.ref.name == k.ref.name && |ArgForms(h, a)| == |ArgForms(k, b)|
    ensures h.ref.name in h.seen <==> h.ref.name in k.seen
  {
    hide FormOf;
    var n := h.ref.name;
    GoodScoped(h, a);
    GoodScoped(k, b);
    if n in h.seen {
      if a[n].typeParams != [] { GenericNotSeen(h, a); }
      assert n in Entered(h.seen, a);
    }
    if n in k.seen {
      if b[n].typeParams != [] { GenericNotSeen(k, b); }
      assert n in Entered(k.seen, b);
    }
  }

  lemma {:induction false} MembersForm(h: Thunk, k: Thunk, form: Form, a: Table, b: Table, r: Pairs)
    requires ReadyPair(h, k, a, b) && FormOf(h, a) == form && Unfolding(r, a, b) && IsHead(h) && IsHead(k) && IsUse(h) && IsUse(k)
    requires h.ref.name == k.ref.name && ArgForms(h, a) == ArgForms(k, b)
    requires h.ref.name in a && h.ref.name in b && h.ref.name !in h.seen && h.ref.name !in k.seen
    ensures var n := h.ref.name;
      forall x, y | MemberRef(x, a[n].body) && MemberRef(y, b[n].body) && (Erase(Member(h, x, a)), Erase(Member(k, y, b))) in r ::
        FormOf(Member(h, x, a), a) == FormOf(Member(k, y, b), b)
    decreases form, 0
  {
    hide Good, WellScoped, GenericsEnd, Entered, FormOf, Erase, MemberRef, UseForm, Member, Unfolding;
    var n := h.ref.name;
    UseArity(h, a) by { ReadyGood(h, a); }
    UseArity(k, b) by { ReadyGood(k, b); }
    assert |ArgForms(h, a)| == |ArgThunks(h)| && |ArgForms(k, b)| == |ArgThunks(k)|;
    assert a[n].typeParams == [] <==> b[n].typeParams == [];
    UseInForm(h, a);
    forall x, y | MemberRef(x, a[n].body) && MemberRef(y, b[n].body) && (Erase(Member(h, x, a)), Erase(Member(k, y, b))) in r
      ensures FormOf(Member(h, x, a), a) == FormOf(Member(k, y, b), b)
    {
      MemberGood(h, x, a);
      MemberGood(k, y, b);
      MemberSmaller(h, x, a);
      ShapesForm(Member(h, x, a), Member(k, y, b), FormOf(Member(h, x, a), a), a, b, r);
    }
  }

  // ----- closed types -----

  function Start(t: TypeRef): Closed {
    Closed(t, [], [])
  }

  lemma StartReady(t: TypeRef, a: Table)
    requires WellScoped(a) && GenericsEnd(a) && Scoped(t, [], a)
    ensures var e := Thunk(t, [], [], {});
            Ready(e, a) && FormOf(e, a) == Canon(t, a, {}, map[]) && Erase(e) == Start(t) && Entered(e.seen, a) == {}
  {
  }

  /** Over tables whose generic declarations do not reach themselves, two types have one canonical form exactly when they
      have one shape. */
  lemma ScopedCanonIffSameShape(t: TypeRef, u: TypeRef, a: Table, b: Table)
    requires WellScoped(a) && WellScoped(b) && GenericsEnd(a) && GenericsEnd(b) && Scoped(t, [], a) && Scoped(u, [], b)
    ensures Canon(t, a, {}, map[]) == Canon(u, b, {}, map[]) <==> SameShape(Start(t), Start(u), a, b)
  {
    hide WellScoped, GenericsEnd, Good, Canon, Step, FormOf, Erase;
    var e, f := Thunk(t, [], [], {}), Thunk(u, [], [], {});
    StartReady(t, a);
    StartReady(u, b);
    if Canon(t, a, {}, map[]) == Canon(u, b, {}, map[]) {
      FormsUnfold(e, f, Canon(t, a, {}, map[]), a, b);
      NothingTrusted(Start(t), Start(u), a, b);
    }
    if SameShape(Start(t), Start(u), a, b) {
      var r: Pairs :| Unfolding(r, a, b) && (Start(t), Start(u)) in r;
      ShapesForm(e, f, FormOf(e, a), a, b, r);
    }
  }

  lemma NothingTrusted(c: Closed, d: Closed, a: Table, b: Table)
    requires (c, d) in Known({}, a, b)
    ensures SameShape(c, d, a, b)
  {
    hide Step;
    LargestUnfolds({}, a, b);
    assert Trust({}) == iset{};
    var r := Largest({}, a, b);
    assert r + Trust({}) == r;
    assert Unfolding(r, a, b);
  }
}
