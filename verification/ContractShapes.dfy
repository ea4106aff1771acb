/** What the canonical form says of generic declarations. Two closed types have one shape when they can be unfolded
    side by side for ever, each declaration at the types it is applied to. The form tells shapes apart exactly, as long
    as no generic declaration reaches itself; such a declaration may not cross a boundary. */
module ContractShapes {
  import opened Types
  import opened Refinements
  import opened Contract
  import opened ContractInvariance

  // ----- shapes -----

  /** A type with the closed types its parameters stand for. */
  datatype Closed = Closed(ref: TypeRef, params: seq<string>, args: seq<Closed>)

  function Index(params: seq<string>, name: string): (i: nat)
    requires name in params
    ensures i < |params| && params[i] == name
  {
    if params[0] == name then 0 else 1 + Index(params[1..], name)
  }

  /** The type itself, past its parameter and `Effect` wrappers. */
  function Stripped(c: Closed): Closed
    decreases c.args, c.ref
  {
    match c.ref
    case WrapRef(w, a) => if w == EffectOf then Stripped(c.(ref := a)) else c
    case NamedRef(x) =>
      if x in c.params && Index(c.params, x) < |c.args| then Stripped(c.args[Index(c.params, x)]) else c
    case _ => c
  }

  type Pairs = iset<(Closed, Closed)>

  function At(c: Closed, ref: TypeRef): Closed {
    c.(ref := ref)
  }

  function ArgsOf(c: Closed): seq<Closed> {
    if c.ref.AppRef? then seq(|c.ref.args|, i requires 0 <= i < |c.ref.args| => At(c, c.ref.args[i])) else []
  }

  ghost predicate FieldsPair(f: Field, xs: seq<string>, cs: seq<Closed>, g: Field, ys: seq<string>, ds: seq<Closed>, r: Pairs) {
    f.name == g.name && CanonicalRefinement(f.refinement) == CanonicalRefinement(g.refinement) &&
    (Closed(f.typ, xs, cs), Closed(g.typ, ys, ds)) in r
  }

  ghost predicate VariantsPair(v: Variant, xs: seq<string>, cs: seq<Closed>, w: Variant, ys: seq<string>, ds: seq<Closed>, r: Pairs) {
    v.name == w.name && |v.payload| == |w.payload| &&
    forall k | 0 <= k < |v.payload| :: (Closed(v.payload[k].typ, xs, cs), Closed(w.payload[k].typ, ys, ds)) in r
  }

  ghost function SameFields(xs: seq<string>, cs: seq<Closed>, ys: seq<string>, ds: seq<Closed>, r: Pairs): iset<(Field, Field)> {
    iset q: (Field, Field) | FieldsPair(q.0, xs, cs, q.1, ys, ds, r)
  }

  ghost function SameVariants(xs: seq<string>, cs: seq<Closed>, ys: seq<string>, ds: seq<Closed>, r: Pairs): iset<(Variant, Variant)> {
    iset q: (Variant, Variant) | VariantsPair(q.0, xs, cs, q.1, ys, ds, r)
  }

  ghost predicate SameBodies(x: Body, xs: seq<string>, cs: seq<Closed>, y: Body, ys: seq<string>, ds: seq<Closed>, r: Pairs) {
    match (x, y)
    case (Refined(b, p), Refined(c, q)) => b == c && CanonicalRefinement(p) == CanonicalRefinement(q)
    case (Opaque(b, _), Opaque(c, _)) => b == c
    case (Record(fs), Record(gs)) => Matched(fs, gs, SameFields(xs, cs, ys, ds, r))
    case (Sum(vs), Sum(ws)) => Matched(vs, ws, SameVariants(xs, cs, ys, ds, r))
    case _ => false
  }

  /** The declarations of a name, at the given arguments. */
  ghost predicate SameDeclared(n: string, a: Table, cs: seq<Closed>, b: Table, ds: seq<Closed>, r: Pairs) {
    (n !in a && n !in b) ||
    (n in a && n in b && SameBodies(a[n].body, a[n].typeParams, cs, b[n].body, b[n].typeParams, ds, r))
  }

  /** One step of unfolding, for types past their parameters. */
  ghost predicate Step(c: Closed, d: Closed, a: Table, b: Table, r: Pairs) {
    match (c.ref, d.ref)
    case (BaseRef(x), BaseRef(y)) => x == y
    case (AtomRef(x), AtomRef(y)) => x == y
    case (NamedRef(m), NamedRef(n)) => m == n && SameDeclared(m, a, [], b, [], r)
    case (AppRef(m, _), AppRef(n, _)) =>
      m == n && |ArgsOf(c)| == |ArgsOf(d)| && (forall i | 0 <= i < |ArgsOf(c)| :: (ArgsOf(c)[i], ArgsOf(d)[i]) in r) &&
      SameDeclared(m, a, ArgsOf(c), b, ArgsOf(d), r)
    case (PairRef(v, x, x'), PairRef(w, y, y')) => v == w && (At(c, x), At(d, y)) in r && (At(c, x'), At(d, y')) in r
    case (WrapRef(v, x), WrapRef(w, y)) =>
      if OnTheWire(v) then v == w && (At(c, x), At(d, y)) in r else !OnTheWire(w)
    case _ => Outside(c.ref) && Outside(d.ref)
  }

  ghost predicate Unfolding(r: Pairs, a: Table, b: Table) {
    forall q | q in r :: Step(Stripped(q.0), Stripped(q.1), a, b, r)
  }

  /** The two closed types unfold side by side for ever. */
  ghost predicate SameShape(c: Closed, d: Closed, a: Table, b: Table) {
    exists r: Pairs :: Unfolding(r, a, b) && (c, d) in r
  }

  // ----- generic declarations that do not reach themselves -----

  ghost predicate ClosedNames(names: iset<string>, a: Table) {
    forall n | n in names && n in a :: BodyWithin(a[n].body, names, a[n].typeParams)
  }

  /** Unfolding the type never meets the declaration `g`. */
  ghost predicate Avoids(t: TypeRef, params: seq<string>, g: string, a: Table) {
    exists names: iset<string> :: Within(t, names, params) && ClosedNames(names, a) && g !in names
  }

  ghost predicate NonRecursive(g: string, a: Table)
    requires g in a
  {
    exists names: iset<string> :: BodyWithin(a[g].body, names, a[g].typeParams) && ClosedNames(names, a) && g !in names
  }

  /** Only declarations without parameters reach themselves. */
  ghost predicate GenericsEnd(a: Table) {
    forall g | g in a && a[g].typeParams != [] :: NonRecursive(g, a)
  }

  // ----- types on the way to their form -----

  /** A closed type and, for it and its arguments, the names on the path where it is expanded. */
  datatype Thunk = Thunk(ref: TypeRef, params: seq<string>, args: seq<Thunk>, seen: set<string>)

  function Erase(e: Thunk): Closed {
    Closed(e.ref, e.params, seq(|e.args|, i requires 0 <= i < |e.args| => Erase(e.args[i])))
  }

  function FormOf(e: Thunk, a: Table): Form
    decreases e
  {
    Canon(e.ref, a, e.seen, Zip(e.params, seq(|e.args|, i requires 0 <= i < |e.args| => FormOf(e.args[i], a))))
  }

  function Bound(e: Thunk, a: Table): Binding {
    Zip(e.params, seq(|e.args|, i requires 0 <= i < |e.args| => FormOf(e.args[i], a)))
  }

  /** The names on the path that may be met again. */
  function Entered(seen: set<string>, a: Table): set<string> {
    set n | n in seen && n in a && a[n].typeParams == []
  }

  ghost predicate Good(e: Thunk, a: Table)
    decreases e
  {
    |e.params| == |e.args| && NoRepeats(e.params) && (forall x | x in e.params :: x in Parameters(a)) &&
    Scoped(e.ref, e.params, a) && e.seen <= a.Keys &&
    (forall g | g in e.seen && a[g].typeParams != [] :: Avoids(e.ref, e.params, g, a)) &&
    forall i | 0 <= i < |e.args| :: Good(e.args[i], a) && Entered(e.args[i].seen, a) == Entered(e.seen, a)
  }

  function HeadThunk(e: Thunk): Thunk
    decreases e.args, e.ref
  {
    match e.ref
    case WrapRef(w, a) => if w == EffectOf then HeadThunk(e.(ref := a)) else e
    case NamedRef(x) =>
      if x in e.params && Index(e.params, x) < |e.args| then HeadThunk(e.args[Index(e.params, x)]) else e
    case _ => e
  }

  lemma {:induction false} HeadErase(e: Thunk)
    ensures Stripped(Erase(e)) == Erase(HeadThunk(e))
    decreases e.args, e.ref
  {
    match e.ref
    case WrapRef(w, a) => if w == EffectOf { HeadErase(e.(ref := a)); }
    case NamedRef(x) => if x in e.params && Index(e.params, x) < |e.args| { HeadErase(e.args[Index(e.params, x)]); }
    case _ =>
  }

  /** Past parameters and `Effect` wrappers. */
  predicate IsHead(e: Thunk) {
    !IsEffect(e.ref) && !(e.ref.NamedRef? && e.ref.name in e.params)
  }

  /** The form is that of the head. */
  lemma {:induction false} HeadForm(e: Thunk, a: Table)
    requires Good(e, a)
    ensures var h := HeadThunk(e);
            Good(h, a) && IsHead(h) && FormOf(h, a) == FormOf(e, a) && Entered(h.seen, a) == Entered(e.seen, a)
    decreases e.args, e.ref
  {
    match e.ref
    case WrapRef(w, c) =>
      if w == EffectOf {
        AvoidsInner(e, c, a);
        HeadForm(e.(ref := c), a);
      }
    case NamedRef(x) =>
      if x in e.params {
        var i := Index(e.params, x);
        ZipAt(e.params, seq(|e.args|, j requires 0 <= j < |e.args| => FormOf(e.args[j], a)));
        HeadForm(e.args[i], a);
      } else {
        ZipAt(e.params, seq(|e.args|, j requires 0 <= j < |e.args| => FormOf(e.args[j], a)));
      }
    case _ =>
  }

  lemma AvoidsInner(e: Thunk, c: TypeRef, a: Table)
    requires Good(e, a) && e.ref == WrapRef(EffectOf, c)
    ensures Good(e.(ref := c), a)
  {
    forall g | g in e.seen && a[g].typeParams != [] ensures Avoids(c, e.params, g, a) {
      var names: iset<string> :| Within(e.ref, names, e.params) && ClosedNames(names, a) && g !in names;
      assert Within(c, names, e.params);
    }
  }

  // ----- arguments and members -----

  function ArgThunks(e: Thunk): seq<Thunk> {
    if e.ref.AppRef? then seq(|e.ref.args|, i requires 0 <= i < |e.ref.args| => e.(ref := e.ref.args[i])) else []
  }

  predicate IsUse(e: Thunk) {
    e.ref.NamedRef? || e.ref.AppRef?
  }

  /** A member of the declaration the type names. */
  function Member(e: Thunk, ref: TypeRef, a: Table): Thunk
    requires IsUse(e) && e.ref.name in a
  {
    Thunk(ref, a[e.ref.name].typeParams, ArgThunks(e), e.seen + {e.ref.name})
  }

  ghost predicate MemberRef(ref: TypeRef, body: Body) {
    match body
    case Record(fs) => exists i | 0 <= i < |fs| :: fs[i].typ == ref
    case Sum(vs) => exists i | 0 <= i < |vs| :: exists k | 0 <= k < |vs[i].payload| :: vs[i].payload[k].typ == ref
    case _ => false
  }

  lemma MemberWithin(ref: TypeRef, body: Body, names: iset<string>, params: seq<string>)
    requires MemberRef(ref, body) && BodyWithin(body, names, params)
    ensures Within(ref, names, params)
  {
  }

  lemma MemberScoped(ref: TypeRef, body: Body, params: seq<string>, a: Table)
    requires MemberRef(ref, body) && BodyScoped(body, params, a)
    ensures Scoped(ref, params, a)
  {
  }

  lemma EraseArgs(e: Thunk)
    ensures ArgsOf(Erase(e)) == seq(|ArgThunks(e)|, i requires 0 <= i < |ArgThunks(e)| => Erase(ArgThunks(e)[i]))
  {
    if e.ref.AppRef? {
      forall i | 0 <= i < |ArgThunks(e)| ensures ArgsOf(Erase(e))[i] == Erase(ArgThunks(e)[i]) {
        assert ArgThunks(e)[i] == e.(ref := e.ref.args[i]);
      }
    }
  }

  lemma EraseMember(e: Thunk, ref: TypeRef, a: Table)
    requires IsUse(e) && e.ref.name in a
    ensures Erase(Member(e, ref, a)) == Closed(ref, a[e.ref.name].typeParams, ArgsOf(Erase(e)))
  {
    EraseArgs(e);
  }

  lemma InnerGood(e: Thunk, c: TypeRef, a: Table)
    requires Good(e, a) && Scoped(c, e.params, a)
    requires forall names: iset<string> | Within(e.ref, names, e.params) :: Within(c, names, e.params)
    ensures Good(e.(ref := c), a)
  {
    hide Within, Scoped;
    forall g | g in e.seen && a[g].typeParams != [] ensures Avoids(c, e.params, g, a) {
      var names: iset<string> :| Within(e.ref, names, e.params) && ClosedNames(names, a) && g !in names;
    }
  }

  lemma ArgsGood(e: Thunk, a: Table)
    requires Good(e, a) && e.ref.AppRef?
    ensures forall i | 0 <= i < |e.ref.args| :: Good(ArgThunks(e)[i], a)
  {
    forall i | 0 <= i < |e.ref.args| ensures Good(ArgThunks(e)[i], a) { InnerGood(e, e.ref.args[i], a); }
  }

  /** A generic declaration is never met on its own path. */
  lemma GenericNotSeen(e: Thunk, a: Table)
    requires Good(e, a) && IsHead(e) && IsUse(e) && e.ref.name in a && a[e.ref.name].typeParams != []
    ensures e.ref.name !in e.seen
  {
    if e.ref.name in e.seen { AvoidsUse(e, e.ref.name, a); }
  }

  lemma AvoidsUse(e: Thunk, g: string, a: Table)
    requires IsHead(e) && IsUse(e) && Avoids(e.ref, e.params, g, a)
    ensures e.ref.name != g
  {
  }

  lemma UseArity(e: Thunk, a: Table)
    requires Good(e, a) && IsHead(e) && IsUse(e) && e.ref.name in a
    ensures |ArgThunks(e)| == |a[e.ref.name].typeParams|
  {
  }

  lemma MemberGood(e: Thunk, ref: TypeRef, a: Table)
    requires WellScoped(a) && GenericsEnd(a) && Good(e, a) && IsHead(e) && IsUse(e) && e.ref.name in a
    requires MemberRef(ref, a[e.ref.name].body)
    ensures Good(Member(e, ref, a), a)
    ensures Entered(Member(e, ref, a).seen, a) ==
            Entered(e.seen, a) + if a[e.ref.name].typeParams == [] then {e.ref.name} else {}
  {
    var n, m := e.ref.name, Member(e, ref, a);
    UseArity(e, a);
    if e.ref.AppRef? { ArgsGood(e, a); }
    MemberScoped(ref, a[n].body, m.params, a);
    forall x | x in m.params ensures x in Parameters(a) {}
    forall g | g in m.seen && a[g].typeParams != [] ensures Avoids(ref, m.params, g, a) {
      if g in e.seen {
        var names: iset<string> :| Within(e.ref, names, e.params) && ClosedNames(names, a) && g !in names;
        assert n in names;
        MemberWithin(ref, a[n].body, names, m.params);
      } else {
        assert NonRecursive(n, a);
        var names: iset<string> :| BodyWithin(a[n].body, names, a[n].typeParams) && ClosedNames(names, a) && n !in names;
        MemberWithin(ref, a[n].body, names, m.params);
      }
    }
  }

  // ----- forms, step by step -----

  function ArgForms(e: Thunk, a: Table): seq<Form> {
    seq(|ArgThunks(e)|, i requires 0 <= i < |ArgThunks(e)| => FormOf(ArgThunks(e)[i], a))
  }

  function UseForm(e: Thunk, a: Table): Form
    requires IsUse(e)
  {
    var n := e.ref.name;
    if n in e.seen then BackReference(n)
    else if n !in a then Undeclared(n)
    else Declared(n, CanonBody(a[n].body, a, e.seen + {n}, Zip(a[n].typeParams, ArgForms(e, a))))
  }

  ghost predicate Any(n: string) { true }

  ghost function AllNames(): iset<string> {
    iset n: string | Any(n)
  }

  lemma AllComparable(a: Table)
    requires WellScoped(a)
    ensures Comparable(a, a, AllNames())
  {
    forall n | n in AllNames() ensures NameEq(n, a, a, AllNames()) {
      if n in a {
        AllWithin(a[n].body, a[n].typeParams);
        RearrangedBodyEq(a[n].body, a[n].body, AllNames(), a[n].typeParams);
      }
    }
  }

  lemma {:induction false} TypeWithin(t: TypeRef, params: seq<string>)
    ensures Within(t, AllNames(), params)
  {
    match t
    case NamedRef(n) => assert Any(n);
    case WrapRef(_, c) => TypeWithin(c, params);
    case PairRef(_, c, d) => TypeWithin(c, params); TypeWithin(d, params);
    case AppRef(n, args) =>
      assert Any(n);
      forall i | 0 <= i < |args| ensures Within(args[i], AllNames(), params) { TypeWithin(args[i], params); }
    case _ =>
  }

  lemma AllWithin(body: Body, params: seq<string>)
    ensures BodyWithin(body, AllNames(), params)
  {
    forall t ensures Within(t, AllNames(), params) { TypeWithin(t, params); }
  }

  lemma BoundKeys(e: Thunk, a: Table)
    requires Good(e, a)
    ensures Bound(e, a).Keys == (set x | x in e.params) && Bound(e, a).Keys <= Parameters(a)
    ensures FormOf(e, a) == Canon(e.ref, a, e.seen, Bound(e, a))
  {
    ZipAt(e.params, seq(|e.args|, i requires 0 <= i < |e.args| => FormOf(e.args[i], a)));
  }

  lemma NamedForm(e: Thunk, a: Table)
    requires WellScoped(a) && Good(e, a) && IsHead(e) && e.ref.NamedRef?
    ensures FormOf(e, a) == UseForm(e, a)
  {
    hide CanonBody, Good;
    var n := e.ref.name;
    assert Scoped(e.ref, e.params, a) by { GoodScoped(e, a); }
    BoundKeys(e, a);
    assert FormOf(e, a) == CanonNamed(n, a, e.seen, Bound(e, a));
    if n in a {
      AllComparable(a);
      assert Any(n);
      CanonNamedEqual(n, a, a, AllNames(), e.seen, Bound(e, a), map[]);
      assert Zip(a[n].typeParams, ArgForms(e, a)) == map[];
    }
  }

  lemma GoodScoped(e: Thunk, a: Table)
    requires Good(e, a)
    ensures Scoped(e.ref, e.params, a) && e.seen <= a.Keys
  {
  }

  lemma AppliedForm(e: Thunk, a: Table)
    requires e.ref.AppRef?
    ensures FormOf(e, a) == AppForm(UseForm(e, a), ArgForms(e, a))
  {
    hide CanonBody;
    var forms := CanonAll(e.ref.args, a, e.seen, Bound(e, a));
    forall i | 0 <= i < |forms| ensures forms[i] == ArgForms(e, a)[i] {
      assert ArgThunks(e)[i] == e.(ref := e.ref.args[i]);
    }
    assert forms == ArgForms(e, a);
    var n := e.ref.name;
    var inner := if n in a then Zip(a[n].typeParams, forms) else map[];
    assert FormOf(e, a) == Canon(e.ref, a, e.seen, Bound(e, a)) == AppForm(CanonNamed(n, a, e.seen, inner), forms);
    assert CanonNamed(n, a, e.seen, inner) == UseForm(e, a);
  }

  lemma MemberForm(e: Thunk, ref: TypeRef, a: Table)
    requires IsUse(e) && e.ref.name in a
    ensures FormOf(Member(e, ref, a), a) == Canon(ref, a, e.seen + {e.ref.name}, Zip(a[e.ref.name].typeParams, ArgForms(e, a)))
  {
  }

  /** A member's form is part of the form of the use. */
  lemma MemberSmaller(e: Thunk, ref: TypeRef, a: Table)
    requires IsUse(e) && e.ref.name in a && e.ref.name !in e.seen && MemberRef(ref, a[e.ref.name].body)
    ensures FormOf(Member(e, ref, a), a) < UseForm(e, a)
  {
    var n := e.ref.name;
    var seen, bound := e.seen + {n}, Zip(a[n].typeParams, ArgForms(e, a));
    MemberForm(e, ref, a);
    var body := CanonBody(a[n].body, a, seen, bound);
    match a[n].body
    case Record(fs) =>
      var i :| 0 <= i < |fs| && fs[i].typ == ref;
      var forms := seq(|fs|, j requires 0 <= j < |fs| => CanonField(fs[j], a, seen, bound));
      assert forms[i] in multiset(forms);
      assert forms[i] in body.fields && forms[i] < body && forms[i].typ < forms[i];
    case Sum(vs) =>
      var i :| 0 <= i < |vs| && exists k | 0 <= k < |vs[i].payload| :: vs[i].payload[k].typ == ref;
      var k :| 0 <= k < |vs[i].payload| && vs[i].payload[k].typ == ref;
      var forms := seq(|vs|, j requires 0 <= j < |vs| => CanonVariant(vs[j], a, seen, bound));
      assert forms[i] in multiset(forms);
      assert PayloadTypes(vs[i].payload)[k] == ref;
      assert forms[i] in body.variants && forms[i] < body && forms[i].payload[k] < forms[i];
  }
}
