/** Substitution, one-way unification and assignability (`substitute`, `unify`, `compatible`). */
module TypeCore {
  import opened Types

  type Subst = map<string, Ty>

  // ----- substitution -----

  function Substitute(t: Ty, s: Subst): Ty {
    match t
    case Var(n) => if n in s then s[n] else t
    case Wrap(w, a) => Wrap(w, Substitute(a, s))
    case Pair(p, a, b) => Pair(p, Substitute(a, s), Substitute(b, s))
    case Fn(params, ret) => Fn(SubstituteAll(params, s), Substitute(ret, s))
    case Named(n, k, args) => Named(n, k, SubstituteAll(args, s))
    case Error | Base(_) | Atom(_) | Actor(_) | ActorSum(_) => t
  }

  function SubstituteAll(ts: seq<Ty>, s: Subst): (r: seq<Ty>)
    ensures |r| == |ts|
    ensures forall i | 0 <= i < |ts| :: r[i] == Substitute(ts[i], s)
  {
    if ts == [] then [] else [Substitute(ts[0], s)] + SubstituteAll(ts[1..], s)
  }

  /** The variables substitution can reach. */
  function Vars(t: Ty): set<string> {
    match t
    case Var(n) => {n}
    case Wrap(_, a) => Vars(a)
    case Pair(_, a, b) => Vars(a) + Vars(b)
    case Fn(params, ret) => VarsAll(params) + Vars(ret)
    case Named(_, _, args) => VarsAll(args)
    case Error | Base(_) | Atom(_) | Actor(_) | ActorSum(_) => {}
  }

  function VarsAll(ts: seq<Ty>): (r: set<string>)
    ensures forall i | 0 <= i < |ts| :: Vars(ts[i]) <= r
    ensures forall n | n in r :: exists i | 0 <= i < |ts| :: n in Vars(ts[i])
  {
    if ts == [] then {} else
      assert forall i | 1 <= i < |ts| :: ts[i] == ts[1..][i - 1];
      Vars(ts[0]) + VarsAll(ts[1..])
  }

  predicate ContainsVar(t: Ty) {
    match t
    case Var(_) => true
    case Wrap(_, a) => ContainsVar(a)
    case Pair(_, a, b) => ContainsVar(a) || ContainsVar(b)
    case Fn(params, ret) => (exists i | 0 <= i < |params| :: ContainsVar(params[i])) || ContainsVar(ret)
    case Named(_, _, args) => exists i | 0 <= i < |args| :: ContainsVar(args[i])
    case Error | Base(_) | Atom(_) | Actor(_) | ActorSum(_) => false
  }

  lemma {:induction false} ContainsVarIffVars(t: Ty)
    ensures ContainsVar(t) <==> Vars(t) != {}
  {
    match t
    case Wrap(_, a) => ContainsVarIffVars(a);
    case Pair(_, a, b) => ContainsVarIffVars(a); ContainsVarIffVars(b);
    case Fn(params, ret) =>
      forall i | 0 <= i < |params| ensures ContainsVar(params[i]) <==> Vars(params[i]) != {} {
        ContainsVarIffVars(params[i]);
      }
      ContainsVarIffVars(ret);
      SomeVarAll(params);
    case Named(_, _, args) =>
      forall i | 0 <= i < |args| ensures ContainsVar(args[i]) <==> Vars(args[i]) != {} {
        ContainsVarIffVars(args[i]);
      }
      SomeVarAll(args);
    case _ =>
  }

  lemma SomeVarAll(ts: seq<Ty>)
    ensures VarsAll(ts) != {} <==> exists i | 0 <= i < |ts| :: Vars(ts[i]) != {}
  {
    if VarsAll(ts) != {} {
      var n :| n in VarsAll(ts);
    }
  }

  /** Substitution reads its map only at the variables of the type. */
  lemma {:induction false} SubstituteAgree(t: Ty, s: Subst, s': Subst)
    requires forall n | n in Vars(t) :: (n in s <==> n in s') && (n in s ==> s[n] == s'[n])
    ensures Substitute(t, s) == Substitute(t, s')
  {
    match t
    case Wrap(_, a) => SubstituteAgree(a, s, s');
    case Pair(_, a, b) => SubstituteAgree(a, s, s'); SubstituteAgree(b, s, s');
    case Fn(params, ret) => SubstituteAgreeAll(params, s, s'); SubstituteAgree(ret, s, s');
    case Named(_, _, args) => SubstituteAgreeAll(args, s, s');
    case _ =>
  }

  lemma {:induction false} SubstituteAgreeAll(ts: seq<Ty>, s: Subst, s': Subst)
    requires forall n | n in VarsAll(ts) :: (n in s <==> n in s') && (n in s ==> s[n] == s'[n])
    ensures SubstituteAll(ts, s) == SubstituteAll(ts, s')
  {
    forall i | 0 <= i < |ts| ensures Substitute(ts[i], s) == Substitute(ts[i], s') {
      SubstituteAgree(ts[i], s, s');
    }
  }

  /** Substituting twice is substituting once with the second substitution applied to the first's values. */
  function Compose(s: Subst, s': Subst): Subst {
    map n | n in s.Keys + s'.Keys :: if n in s then Substitute(s[n], s') else s'[n]
  }

  lemma {:induction false} SubstituteCompose(t: Ty, s: Subst, s': Subst)
    ensures Substitute(Substitute(t, s), s') == Substitute(t, Compose(s, s'))
  {
    match t
    case Wrap(_, a) => SubstituteCompose(a, s, s');
    case Pair(_, a, b) => SubstituteCompose(a, s, s'); SubstituteCompose(b, s, s');
    case Fn(params, ret) => SubstituteComposeAll(params, s, s'); SubstituteCompose(ret, s, s');
    case Named(_, _, args) => SubstituteComposeAll(args, s, s');
    case _ =>
  }

  lemma {:induction false} SubstituteComposeAll(ts: seq<Ty>, s: Subst, s': Subst)
    ensures SubstituteAll(SubstituteAll(ts, s), s') == SubstituteAll(ts, Compose(s, s'))
  {
    forall i | 0 <= i < |ts| ensures Substitute(Substitute(ts[i], s), s') == Substitute(ts[i], Compose(s, s')) {
      SubstituteCompose(ts[i], s, s');
    }
  }

  lemma {:induction false} SubstituteVars(t: Ty, s: Subst, into: set<string>)
    requires Vars(t) <= s.Keys
    requires forall n | n in s :: Vars(s[n]) <= into
    ensures Vars(Substitute(t, s)) <= into
  {
    match t
    case Wrap(_, a) => SubstituteVars(a, s, into);
    case Pair(_, a, b) => SubstituteVars(a, s, into); SubstituteVars(b, s, into);
    case Fn(params, ret) => SubstituteVarsAll(params, s, into); SubstituteVars(ret, s, into);
    case Named(_, _, args) => SubstituteVarsAll(args, s, into);
    case _ =>
  }

  lemma {:induction false} SubstituteVarsAll(ts: seq<Ty>, s: Subst, into: set<string>)
    requires VarsAll(ts) <= s.Keys
    requires forall n | n in s :: Vars(s[n]) <= into
    ensures VarsAll(SubstituteAll(ts, s)) <= into
  {
    forall i | 0 <= i < |ts| ensures Vars(Substitute(ts[i], s)) <= into {
      SubstituteVars(ts[i], s, into);
    }
  }

  // ----- one-way unification -----

  /** What a call leaves behind: whether it found no conflict, and the bindings, kept also on a conflict. */
  datatype Unified = Unified(ok: bool, subst: Subst)

  /** `unify`: walks the pattern against the actual type. A mismatch of shape is not a conflict. */
  function Unify(pattern: Ty, actual: Ty, s: Subst): Unified
    decreases pattern, 1
  {
    match (pattern, actual)
    case (Var(n), _) => if n in s then Unified(s[n] == actual, s) else Unified(true, s[n := actual])
    case (Pair(p, a1, b1), Pair(q, a2, b2)) =>
      if p != q then Unified(true, s) else
        var first := Unify(a1, a2, s);
        if first.ok then Unify(b1, b2, first.subst) else first
    case (Wrap(v, a1), Wrap(w, a2)) => if v == w then Unify(a1, a2, s) else Unified(true, s)
    case (Fn(ps, r1), Fn(qs, r2)) =>
      if |ps| != |qs| then Unified(false, s) else
        var params := UnifyAll(ps, qs, s);
        if params.ok then Unify(r1, r2, params.subst) else params
    case (Named(m, _, ps), Named(n, _, qs)) =>
      if m == n && |ps| == |qs| then UnifyAll(ps, qs, s) else Unified(true, s)
    case _ => Unified(true, s)
  }

  function UnifyAll(patterns: seq<Ty>, actuals: seq<Ty>, s: Subst): Unified
    requires |patterns| == |actuals|
    decreases patterns, 0
  {
    if patterns == [] then Unified(true, s) else
      var head := Unify(patterns[0], actuals[0], s);
      if head.ok then UnifyAll(patterns[1..], actuals[1..], head.subst) else head
  }

  ghost predicate Extends(s': Subst, s: Subst) {
    forall n | n in s :: n in s' && s'[n] == s[n]
  }

  /** Bindings are only ever added, also by a call that reports a conflict. */
  lemma {:induction false} UnifyExtends(pattern: Ty, actual: Ty, s: Subst)
    ensures Extends(Unify(pattern, actual, s).subst, s)
    ensures Unify(pattern, actual, s).subst.Keys <= s.Keys + Vars(pattern)
    decreases pattern, 1
  {
    match (pattern, actual)
    case (Pair(p, a1, b1), Pair(q, a2, b2)) =>
      UnifyExtends(a1, a2, s);
      UnifyExtends(b1, b2, Unify(a1, a2, s).subst);
    case (Wrap(v, a1), Wrap(w, a2)) => UnifyExtends(a1, a2, s);
    case (Fn(ps, r1), Fn(qs, r2)) =>
      if |ps| == |qs| {
        UnifyAllExtends(ps, qs, s);
        UnifyExtends(r1, r2, UnifyAll(ps, qs, s).subst);
      }
    case (Named(m, _, ps), Named(n, _, qs)) => if |ps| == |qs| { UnifyAllExtends(ps, qs, s); }
    case _ =>
  }

  lemma {:induction false} UnifyAllExtends(patterns: seq<Ty>, actuals: seq<Ty>, s: Subst)
    requires |patterns| == |actuals|
    ensures Extends(UnifyAll(patterns, actuals, s).subst, s)
    ensures UnifyAll(patterns, actuals, s).subst.Keys <= s.Keys + VarsAll(patterns)
    decreases patterns, 0
  {
    if patterns != [] {
      UnifyExtends(patterns[0], actuals[0], s);
      UnifyAllExtends(patterns[1..], actuals[1..], Unify(patterns[0], actuals[0], s).subst);
    }
  }

  /** Unification finds bindings whenever any exist, and no more than those. */
  lemma {:induction false} UnifyComplete(pattern: Ty, actual: Ty, s: Subst, theta: Subst)
    requires Extends(theta, s) && Vars(pattern) <= theta.Keys
    requires Substitute(pattern, theta) == actual
    ensures Unify(pattern, actual, s).ok && Extends(theta, Unify(pattern, actual, s).subst)
    decreases pattern, 1
  {
    match pattern
    case Pair(p, a, b) =>
      UnifyComplete(a, Substitute(a, theta), s, theta);
      UnifyComplete(b, Substitute(b, theta), Unify(a, Substitute(a, theta), s).subst, theta);
    case Wrap(w, a) => UnifyComplete(a, Substitute(a, theta), s, theta);
    case Fn(ps, r) =>
      UnifyAllComplete(ps, SubstituteAll(ps, theta), s, theta);
      UnifyComplete(r, Substitute(r, theta), UnifyAll(ps, SubstituteAll(ps, theta), s).subst, theta);
    case Named(n, k, ps) => UnifyAllComplete(ps, SubstituteAll(ps, theta), s, theta);
    case _ =>
  }

  lemma {:induction false} UnifyAllComplete(patterns: seq<Ty>, actuals: seq<Ty>, s: Subst, theta: Subst)
    requires Extends(theta, s) && VarsAll(patterns) <= theta.Keys
    requires actuals == SubstituteAll(patterns, theta)
    ensures UnifyAll(patterns, actuals, s).ok && Extends(theta, UnifyAll(patterns, actuals, s).subst)
    decreases patterns, 0
  {
    if patterns != [] {
      UnifyComplete(patterns[0], actuals[0], s, theta);
      UnifyAllComplete(patterns[1..], actuals[1..], Unify(patterns[0], actuals[0], s).subst, theta);
    }
  }

  /** The actual type has the pattern's shape everywhere outside the pattern's variables. */
  predicate ShapeMatches(pattern: Ty, actual: Ty) {
    match (pattern, actual)
    case (Var(_), _) => true
    case (Pair(p, a1, b1), Pair(q, a2, b2)) => p == q && ShapeMatches(a1, a2) && ShapeMatches(b1, b2)
    case (Wrap(v, a1), Wrap(w, a2)) => v == w && ShapeMatches(a1, a2)
    case (Fn(ps, r1), Fn(qs, r2)) =>
      |ps| == |qs| && (forall i | 0 <= i < |ps| :: ShapeMatches(ps[i], qs[i])) && ShapeMatches(r1, r2)
    case (Named(m, j, ps), Named(n, k, qs)) =>
      m == n && j == k && |ps| == |qs| && forall i | 0 <= i < |ps| :: ShapeMatches(ps[i], qs[i])
    case _ => pattern == actual
  }

  /** A successful call binds every variable of the pattern, and the bindings it leaves, or any that
      extend them, turn the pattern into the actual type. */
  lemma {:induction false} UnifySound(pattern: Ty, actual: Ty, s: Subst, later: Subst)
    requires ShapeMatches(pattern, actual) && Unify(pattern, actual, s).ok
    requires Extends(later, Unify(pattern, actual, s).subst)
    ensures Vars(pattern) <= Unify(pattern, actual, s).subst.Keys
    ensures Substitute(pattern, later) == actual
    decreases pattern, 1
  {
    match (pattern, actual)
    case (Pair(_, a1, b1), Pair(_, a2, b2)) =>
      var first := Unify(a1, a2, s).subst;
      UnifyExtends(b1, b2, first);
      UnifySound(a1, a2, s, later);
      UnifySound(b1, b2, first, later);
    case (Wrap(_, a1), Wrap(_, a2)) => UnifySound(a1, a2, s, later);
    case (Fn(ps, r1), Fn(qs, r2)) =>
      var params := UnifyAll(ps, qs, s).subst;
      UnifyExtends(r1, r2, params);
      UnifyAllSound(ps, qs, s, later);
      UnifySound(r1, r2, params, later);
    case (Named(_, _, ps), Named(_, _, qs)) => UnifyAllSound(ps, qs, s, later);
    case _ =>
  }

  lemma {:induction false} UnifyAllSound(patterns: seq<Ty>, actuals: seq<Ty>, s: Subst, later: Subst)
    requires |patterns| == |actuals| && forall i | 0 <= i < |patterns| :: ShapeMatches(patterns[i], actuals[i])
    requires UnifyAll(patterns, actuals, s).ok && Extends(later, UnifyAll(patterns, actuals, s).subst)
    ensures VarsAll(patterns) <= UnifyAll(patterns, actuals, s).subst.Keys
    ensures SubstituteAll(patterns, later) == actuals
    decreases patterns, 0
  {
    if patterns != [] {
      var head := Unify(patterns[0], actuals[0], s).subst;
      UnifyAllExtends(patterns[1..], actuals[1..], head);
      UnifySound(patterns[0], actuals[0], s, later);
      UnifyAllSound(patterns[1..], actuals[1..], head, later);
    }
  }

  /** Any instance of a pattern has the pattern's shape. */
  lemma {:induction false} InstanceShapeMatches(pattern: Ty, theta: Subst)
    requires Vars(pattern) <= theta.Keys
    ensures ShapeMatches(pattern, Substitute(pattern, theta))
  {
    match pattern
    case Pair(_, a, b) => InstanceShapeMatches(a, theta); InstanceShapeMatches(b, theta);
    case Wrap(_, a) => InstanceShapeMatches(a, theta);
    case Fn(ps, r) =>
      forall i | 0 <= i < |ps| ensures ShapeMatches(ps[i], Substitute(ps[i], theta)) {
        InstanceShapeMatches(ps[i], theta);
      }
      InstanceShapeMatches(r, theta);
    case Named(_, _, ps) =>
      forall i | 0 <= i < |ps| ensures ShapeMatches(ps[i], Substitute(ps[i], theta)) {
        InstanceShapeMatches(ps[i], theta);
      }
    case _ =>
  }

  /** On types of matching shape, `unify` succeeds exactly when some bindings above the given ones turn
      the pattern into the actual type; then the bindings it leaves do so, and lie below all that do. */
  lemma UnifyExact(pattern: Ty, actual: Ty, s: Subst)
    requires ShapeMatches(pattern, actual)
    ensures Unify(pattern, actual, s).ok <==>
      exists theta: Subst :: Extends(theta, s) && Vars(pattern) <= theta.Keys && Substitute(pattern, theta) == actual
    ensures Unify(pattern, actual, s).ok ==> Substitute(pattern, Unify(pattern, actual, s).subst) == actual
    ensures forall theta: Subst ::
      Extends(theta, s) && Vars(pattern) <= theta.Keys && Substitute(pattern, theta) == actual
      ==> Extends(theta, Unify(pattern, actual, s).subst)
  {
    var u := Unify(pattern, actual, s);
    UnifyExtends(pattern, actual, s);
    if u.ok {
      UnifySound(pattern, actual, s, u.subst);
    }
    forall theta: Subst |
      Extends(theta, s) && Vars(pattern) <= theta.Keys && Substitute(pattern, theta) == actual
      ensures u.ok && Extends(theta, u.subst)
    {
      UnifyComplete(pattern, actual, s, theta);
    }
  }

  /** Whatever the pattern is instantiated with is found again: `unify` succeeds on every instance, and what it leaves
      gives the instance back. */
  lemma UnifyInstance(pattern: Ty, theta: Subst)
    requires Vars(pattern) <= theta.Keys
    ensures var u := Unify(pattern, Substitute(pattern, theta), map[]);
      u.ok && u.subst.Keys == Vars(pattern) && Extends(theta, u.subst) &&
      Substitute(pattern, u.subst) == Substitute(pattern, theta)
  {
    var actual := Substitute(pattern, theta);
    InstanceShapeMatches(pattern, theta);
    UnifyExact(pattern, actual, map[]);
    assert Extends(theta, map[]);
    UnifySound(pattern, actual, map[], Unify(pattern, actual, map[]).subst);
    UnifyExtends(pattern, actual, map[]);
  }

  // ----- assignability -----

  /** `compatible`: `t` is usable where `u` is expected. */
  predicate Compatible(t: Ty, u: Ty)
    decreases Size(t) + Size(u)
  {
    match (t, u)
    case (Error, _) => true
    case (_, Error) => true
    case (Base(a), Base(b)) => a == b
    case (Named(m, j, ps), Named(n, k, qs)) =>
      m == n && j == k && |ps| == |qs| && forall i | 0 <= i < |ps| :: Compatible(ps[i], qs[i])
    case (Named(_, RefinedKind(b), _), Base(target)) => b == target
    case (Wrap(v, a), Wrap(w, b)) => v == w && Compatible(a, b)
    case (Pair(ResultOf, a, b), Pair(ResultOf, c, d)) => Compatible(a, c) && Compatible(b, d)
    case (Pair(MapOf, k1, v1), Pair(MapOf, k2, v2)) => k1 == k2 && Compatible(v1, v2)
    case (Atom(a), Atom(b)) => a == b
    case (Fn(ps, r), Fn(qs, s)) =>
      |ps| == |qs| && (forall i | 0 <= i < |ps| :: Compatible(qs[i], ps[i])) && Compatible(r, s)
    case (Var(a), Var(b)) => a == b
    case _ => false
  }

  lemma {:induction false} CompatibleTransitive(t: Ty, u: Ty, v: Ty)
    requires ErrorFree(t) && ErrorFree(u) && ErrorFree(v)
    requires Compatible(t, u) && Compatible(u, v)
    ensures Compatible(t, v)
    decreases Size(t) + Size(u) + Size(v), 1
  {
    match u
    case Named(_, _, qs) => if v.Named? { CompatibleAllTransitive(t.args, qs, v.args); }
    case Wrap(_, b) => CompatibleTransitive(t.inner, b, v.inner);
    case Pair(ResultOf, b, b') =>
      CompatibleTransitive(t.first, b, v.first);
      CompatibleTransitive(t.second, b', v.second);
    case Pair(MapOf, _, b) => CompatibleTransitive(t.second, b, v.second);
    case Fn(qs, b) =>
      CompatibleAllTransitive(v.params, qs, t.params);
      CompatibleTransitive(t.ret, b, v.ret);
    case _ =>
  }

  lemma {:induction false} CompatibleAllTransitive(ts: seq<Ty>, us: seq<Ty>, vs: seq<Ty>)
    requires |ts| == |us| == |vs|
    requires forall i | 0 <= i < |ts| :: ErrorFree(ts[i]) && ErrorFree(us[i]) && ErrorFree(vs[i])
    requires forall i | 0 <= i < |ts| :: Compatible(ts[i], us[i]) && Compatible(us[i], vs[i])
    ensures forall i | 0 <= i < |ts| :: Compatible(ts[i], vs[i])
    decreases SizeAll(ts) + SizeAll(us) + SizeAll(vs), 2
  {
    forall i | 0 <= i < |ts| ensures Compatible(ts[i], vs[i]) { CompatibleTransitive(ts[i], us[i], vs[i]); }
  }

  lemma {:induction false} CompatibleAntisymmetric(t: Ty, u: Ty)
    requires ErrorFree(t) && ErrorFree(u)
    requires Compatible(t, u) && Compatible(u, t)
    ensures t == u
    decreases Size(t) + Size(u), 1
  {
    match t
    case Named(_, _, ps) => if u.Named? { CompatibleAllAntisymmetric(ps, u.args); }
    case Wrap(_, a) => CompatibleAntisymmetric(a, u.inner);
    case Pair(ResultOf, a, b) =>
      CompatibleAntisymmetric(a, u.first);
      CompatibleAntisymmetric(b, u.second);
    case Pair(MapOf, _, b) => CompatibleAntisymmetric(b, u.second);
    case Fn(ps, a) =>
      CompatibleAllAntisymmetric(ps, u.params);
      CompatibleAntisymmetric(a, u.ret);
    case _ =>
  }

  lemma {:induction false} CompatibleAllAntisymmetric(ts: seq<Ty>, us: seq<Ty>)
    requires |ts| == |us|
    requires forall i | 0 <= i < |ts| :: ErrorFree(ts[i]) && ErrorFree(us[i])
    requires forall i | 0 <= i < |ts| :: Compatible(ts[i], us[i]) && Compatible(us[i], ts[i])
    ensures ts == us
    decreases SizeAll(ts) + SizeAll(us), 2
  {
    forall i | 0 <= i < |ts| ensures ts[i] == us[i] { CompatibleAntisymmetric(ts[i], us[i]); }
  }

  /** No sealed actor binding occurs, except inside a map key, which is compared whole. */
  predicate ActorFree(t: Ty) {
    match t
    case Actor(_) => false
    case ActorSum(_) => false
    case Named(_, _, args) => forall i | 0 <= i < |args| :: ActorFree(args[i])
    case Wrap(_, a) => ActorFree(a)
    case Pair(ResultOf, a, b) => ActorFree(a) && ActorFree(b)
    case Pair(MapOf, _, b) => ActorFree(b)
    case Fn(params, ret) => (forall i | 0 <= i < |params| :: ActorFree(params[i])) && ActorFree(ret)
    case _ => true
  }

  lemma {:induction false} CompatibleReflexiveIff(t: Ty)
    ensures Compatible(t, t) <==> ActorFree(t)
  {
    match t
    case Named(_, _, args) =>
      forall i | 0 <= i < |args| ensures Compatible(args[i], args[i]) <==> ActorFree(args[i]) {
        CompatibleReflexiveIff(args[i]);
      }
    case Wrap(_, a) => CompatibleReflexiveIff(a);
    case Pair(_, a, b) => CompatibleReflexiveIff(a); CompatibleReflexiveIff(b);
    case Fn(params, ret) =>
      forall i | 0 <= i < |params| ensures Compatible(params[i], params[i]) <==> ActorFree(params[i]) {
        CompatibleReflexiveIff(params[i]);
      }
      CompatibleReflexiveIff(ret);
    case _ =>
  }

  /** Instantiating both sides keeps assignability, when every substituted type is assignable to itself. */
  lemma {:induction false} CompatibleSubstitute(t: Ty, u: Ty, s: Subst)
    requires Compatible(t, u)
    requires forall n | n in s :: Compatible(s[n], s[n])
    ensures Compatible(Substitute(t, s), Substitute(u, s))
    decreases Size(t) + Size(u), 1
  {
    if t != Error && u != Error {
      match t
      case Named(_, _, ps) => if u.Named? { CompatibleSubstituteAll(ps, u.args, s); }
      case Wrap(_, a) => CompatibleSubstitute(a, u.inner, s);
      case Pair(ResultOf, a, b) =>
        CompatibleSubstitute(a, u.first, s);
        CompatibleSubstitute(b, u.second, s);
      case Pair(MapOf, _, b) => CompatibleSubstitute(b, u.second, s);
      case Fn(_, _) => CompatibleSubstituteFn(t, u, s);
      case _ =>
    }
  }

  lemma {:induction false} CompatibleSubstituteFn(t: Ty, u: Ty, s: Subst)
    requires Compatible(t, u) && t.Fn? && u.Fn?
    requires forall n | n in s :: Compatible(s[n], s[n])
    ensures Compatible(Substitute(t, s), Substitute(u, s))
    decreases Size(t) + Size(u), 0
  {
    CompatibleSubstituteAll(u.params, t.params, s);
    CompatibleSubstitute(t.ret, u.ret, s);
  }

  lemma {:induction false} CompatibleSubstituteAll(ts: seq<Ty>, us: seq<Ty>, s: Subst)
    requires |ts| == |us| && forall i | 0 <= i < |ts| :: Compatible(ts[i], us[i])
    requires forall n | n in s :: Compatible(s[n], s[n])
    ensures forall i | 0 <= i < |ts| :: Compatible(SubstituteAll(ts, s)[i], SubstituteAll(us, s)[i])
    decreases SizeAll(ts) + SizeAll(us), 2
  {
    forall i | 0 <= i < |ts| ensures Compatible(Substitute(ts[i], s), Substitute(us[i], s)) {
      CompatibleSubstitute(ts[i], us[i], s);
    }
  }
}
