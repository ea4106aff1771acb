/** What assignability and unification say of the positions inside two types, by the steps that lead to them. */
module TypePositions {
  import opened Types
  import opened TypeCore

  datatype Step = Argument(i: nat) | Inner | First | Second | Key | Entry | Parameter(i: nat) | Return

  function Child(t: Ty, step: Step): Option<Ty> {
    match (t, step)
    case (Named(_, _, args), Argument(i)) => if i < |args| then Some(args[i]) else None
    case (Wrap(_, a), Inner) => Some(a)
    case (Pair(ResultOf, a, _), First) => Some(a)
    case (Pair(ResultOf, _, b), Second) => Some(b)
    case (Pair(MapOf, k, _), Key) => Some(k)
    case (Pair(MapOf, _, v), Entry) => Some(v)
    case (Fn(params, _), Parameter(i)) => if i < |params| then Some(params[i]) else None
    case (Fn(_, ret), Return) => Some(ret)
    case _ => None
  }

  /** The part of a type that the steps lead to. */
  function Below(t: Ty, path: seq<Step>): Option<Ty> {
    if path == [] then Some(t)
    else match Child(t, path[0]) case None => None case Some(c) => Below(c, path[1..])
  }

  // ----- assignability -----

  /** The steps lead into function parameters an even number of times. */
  predicate Even(path: seq<Step>) {
    path == [] || (Even(path[1..]) == !path[0].Parameter?)
  }

  /** Two parts that stand at one position: they are built alike, or the refined one of a base type is offered and the
      base type expected. What is offered inside a parameter is what the other side expects there. Map keys are equal. */
  predicate HeadsFit(t: Ty, u: Ty, even: bool) {
    match (t, u)
    case (Error, _) => true
    case (_, Error) => true
    case (Base(a), Base(b)) => a == b
    case (Named(_, RefinedKind(b), _), Base(c)) => even && b == c
    case (Base(c), Named(_, RefinedKind(b), _)) => !even && b == c
    case (Named(m, j, ps), Named(n, k, qs)) => m == n && j == k && |ps| == |qs|
    case (Wrap(v, _), Wrap(w, _)) => v == w
    case (Pair(p, a, _), Pair(q, b, _)) => p == q && (p == MapOf ==> a == b)
    case (Atom(a), Atom(b)) => a == b
    case (Fn(ps, _), Fn(qs, _)) => |ps| == |qs|
    case (Var(a), Var(b)) => a == b
    case _ => false
  }

  ghost predicate FitAt(t: Ty, u: Ty, path: seq<Step>, even: bool) {
    Key !in path && Below(t, path).Some? && Below(u, path).Some? ==>
      HeadsFit(Below(t, path).value, Below(u, path).value, even == Even(path))
  }

  ghost predicate Fits(t: Ty, u: Ty, even: bool) {
    forall path :: FitAt(t, u, path, even)
  }

  ghost predicate ChildrenFit(t: Ty, u: Ty, even: bool) {
    forall step | step != Key && Child(t, step).Some? && Child(u, step).Some? ::
      Fits(Child(t, step).value, Child(u, step).value, even == !step.Parameter?)
  }

  lemma FitAtStep(t: Ty, u: Ty, step: Step, path: seq<Step>, even: bool)
    requires step != Key && Child(t, step).Some? && Child(u, step).Some?
    ensures FitAt(t, u, [step] + path, even) <==>
            FitAt(Child(t, step).value, Child(u, step).value, path, even == !step.Parameter?)
  {
    var whole := [step] + path;
    assert whole[0] == step && whole[1..] == path;
    assert Key in whole <==> Key in path;
  }

  lemma FitsChild(t: Ty, u: Ty, step: Step, even: bool)
    requires Fits(t, u, even) && step != Key && Child(t, step).Some? && Child(u, step).Some?
    ensures Fits(Child(t, step).value, Child(u, step).value, even == !step.Parameter?)
  {
    hide FitAt;
    var c, d, now := Child(t, step).value, Child(u, step).value, even == !step.Parameter?;
    forall path ensures FitAt(c, d, path, now) { FitAtStep(t, u, step, path, even); }
  }

  lemma FitAtMore(t: Ty, u: Ty, path: seq<Step>, even: bool)
    requires HeadsFit(t, u, even) && ChildrenFit(t, u, even)
    ensures FitAt(t, u, path, even)
  {
    hide HeadsFit, Child;
    if path != [] && Key !in path && Below(t, path).Some? && Below(u, path).Some? {
      assert path == [path[0]] + path[1..];
      FitAtStep(t, u, path[0], path[1..], even);
    }
  }

  /** All positions fit exactly when the outermost one does and all below the children do. */
  lemma FitsUnfold(t: Ty, u: Ty, even: bool)
    ensures Fits(t, u, even) <==> HeadsFit(t, u, even) && ChildrenFit(t, u, even)
  {
    hide HeadsFit, Child;
    if Fits(t, u, even) {
      assert FitAt(t, u, [], even);
      forall step | step != Key && Child(t, step).Some? && Child(u, step).Some?
        ensures Fits(Child(t, step).value, Child(u, step).value, even == !step.Parameter?)
      {
        FitsChild(t, u, step, even);
      }
    }
    if HeadsFit(t, u, even) && ChildrenFit(t, u, even) {
      forall path ensures FitAt(t, u, path, even) { FitAtMore(t, u, path, even); }
    }
  }

  predicate Usable(t: Ty, u: Ty, even: bool) {
    if even then Compatible(t, u) else Compatible(u, t)
  }

  lemma {:induction false} UsableFits(t: Ty, u: Ty, even: bool)
    ensures Usable(t, u, even) <==> Fits(t, u, even)
    decreases Size(t) + Size(u), 1
  {
    hide Fits, ChildrenFit, Child;
    FitsUnfold(t, u, even);
    if HeadsFit(t, u, even) {
      match (t, u)
      case (Named(_, _, _), Named(_, _, _)) => NamedFits(t, u, even);
      case (Wrap(_, _), Wrap(_, _)) => WrapFits(t, u, even);
      case (Pair(ResultOf, _, _), Pair(ResultOf, _, _)) => ResultFits(t, u, even);
      case (Pair(MapOf, _, _), Pair(MapOf, _, _)) => MapFits(t, u, even);
      case (Fn(_, _), Fn(_, _)) => FnFits(t, u, even);
      case _ => LeafFits(t, u, even);
    }
  }

  lemma LeafFits(t: Ty, u: Ty, even: bool)
    requires !(t.Named? && u.Named?) && !(t.Wrap? && u.Wrap?) && !(t.Pair? && u.Pair?) && !(t.Fn? && u.Fn?)
    ensures ChildrenFit(t, u, even)
  {
  }

  lemma {:induction false} NamedFits(t: Ty, u: Ty, even: bool)
    requires t.Named? && u.Named? && |t.args| == |u.args|
    ensures ChildrenFit(t, u, even) <==> forall i | 0 <= i < |t.args| :: Usable(t.args[i], u.args[i], even)
    decreases Size(t) + Size(u), 0
  {
    hide Fits, Usable;
    forall i | 0 <= i < |t.args| ensures Fits(t.args[i], u.args[i], even) <==> Usable(t.args[i], u.args[i], even) {
      UsableFits(t.args[i], u.args[i], even);
    }
    forall i: nat | i < |t.args| ensures Child(t, Argument(i)) == Some(t.args[i]) && Child(u, Argument(i)) == Some(u.args[i]) {}
  }

  lemma {:induction false} WrapFits(t: Ty, u: Ty, even: bool)
    requires t.Wrap? && u.Wrap?
    ensures ChildrenFit(t, u, even) <==> Usable(t.inner, u.inner, even)
    decreases Size(t) + Size(u), 0
  {
    hide Fits, Usable;
    UsableFits(t.inner, u.inner, even);
    assert Child(t, Inner) == Some(t.inner) && Child(u, Inner) == Some(u.inner);
  }

  lemma {:induction false} ResultFits(t: Ty, u: Ty, even: bool)
    requires t.Pair? && u.Pair? && t.pairing == u.pairing == ResultOf
    ensures ChildrenFit(t, u, even) <==> Usable(t.first, u.first, even) && Usable(t.second, u.second, even)
    decreases Size(t) + Size(u), 0
  {
    hide Fits, Usable;
    UsableFits(t.first, u.first, even);
    UsableFits(t.second, u.second, even);
    assert Child(t, First) == Some(t.first) && Child(u, First) == Some(u.first);
    assert Child(t, Second) == Some(t.second) && Child(u, Second) == Some(u.second);
  }

  lemma {:induction false} MapFits(t: Ty, u: Ty, even: bool)
    requires t.Pair? && u.Pair? && t.pairing == u.pairing == MapOf
    ensures ChildrenFit(t, u, even) <==> Usable(t.second, u.second, even)
    decreases Size(t) + Size(u), 0
  {
    hide Fits, Usable;
    UsableFits(t.second, u.second, even);
    assert Child(t, Entry) == Some(t.second) && Child(u, Entry) == Some(u.second);
  }

  lemma {:induction false} FnFits(t: Ty, u: Ty, even: bool)
    requires t.Fn? && u.Fn? && |t.params| == |u.params|
    ensures ChildrenFit(t, u, even) <==>
            (forall i | 0 <= i < |t.params| :: Usable(t.params[i], u.params[i], !even)) && Usable(t.ret, u.ret, even)
    decreases Size(t) + Size(u), 0
  {
    hide Fits, Usable;
    forall i | 0 <= i < |t.params| ensures Fits(t.params[i], u.params[i], !even) <==> Usable(t.params[i], u.params[i], !even) {
      UsableFits(t.params[i], u.params[i], !even);
    }
    UsableFits(t.ret, u.ret, even);
    assert Child(t, Return) == Some(t.ret) && Child(u, Return) == Some(u.ret);
    forall i: nat | i < |t.params|
      ensures Child(t, Parameter(i)) == Some(t.params[i]) && Child(u, Parameter(i)) == Some(u.params[i])
    {}
  }

  /** `t` is usable where `u` is expected exactly when all positions outside map keys fit: errors aside, both types are
      built alike down to positions where one side has a refined type and the other its base, the refined one being on
      `t`'s side after an even number of steps into parameters and on `u`'s side after an odd number. */
  lemma CompatibleIffFits(t: Ty, u: Ty)
    ensures Compatible(t, u) <==> Fits(t, u, true)
  {
    UsableFits(t, u, true);
  }

  // ----- unification -----

  /** Constructor, name and number of parts agree. */
  predicate SameHead(pattern: Ty, actual: Ty) {
    match (pattern, actual)
    case (Named(m, _, ps), Named(n, _, qs)) => m == n && |ps| == |qs|
    case (Wrap(v, _), Wrap(w, _)) => v == w
    case (Pair(p, _, _), Pair(q, _, _)) => p == q
    case (Fn(ps, _), Fn(qs, _)) => |ps| == |qs|
    case _ => false
  }

  /** Pattern and actual type agree at every step down to the position, which both have. */
  predicate Met(pattern: Ty, actual: Ty, path: seq<Step>) {
    path == [] ||
    (SameHead(pattern, actual) && Child(pattern, path[0]).Some? && Child(actual, path[0]).Some? &&
     Met(Child(pattern, path[0]).value, Child(actual, path[0]).value, path[1..]))
  }

  type Demands = iset<(string, Ty)>

  ghost predicate AsksAt(pattern: Ty, actual: Ty, path: seq<Step>, n: string, x: Ty) {
    Met(pattern, actual, path) && Below(pattern, path) == Some(Var(n)) && Below(actual, path) == Some(x)
  }

  /** What the positions that are met ask of the variables. */
  ghost function Asks(pattern: Ty, actual: Ty): Demands {
    iset q: (string, Ty) | exists path :: AsksAt(pattern, actual, path, q.0, q.1)
  }

  ghost predicate ClashAt(pattern: Ty, actual: Ty, path: seq<Step>) {
    Met(pattern, actual, path) &&
    match (Below(pattern, path), Below(actual, path))
    case (Some(Fn(ps, _)), Some(Fn(qs, _))) => |ps| != |qs|
    case _ => false
  }

  /** Two functions that are met differ in the number of parameters. */
  ghost predicate Clash(pattern: Ty, actual: Ty) {
    exists path :: ClashAt(pattern, actual, path)
  }

  /** No two demands, and no demand and a binding, differ. */
  ghost predicate Consistent(r: Demands, s: Subst) {
    (forall q, p | q in r && p in r && q.0 == p.0 :: q.1 == p.1) && forall q | q in r && q.0 in s :: s[q.0] == q.1
  }

  /** `s'` is `s` with what is asked for, and nothing else. */
  ghost predicate Answers(s': Subst, s: Subst, r: Demands) {
    Extends(s', s) && (forall q | q in r :: q.0 in s' && s'[q.0] == q.1) &&
    forall n | n in s' && n !in s :: (n, s'[n]) in r
  }

  lemma ConsistentBoth(r: Demands, r': Demands, s: Subst, s': Subst)
    requires Consistent(r, s) && Answers(s', s, r)
    ensures Consistent(r + r', s) <==> Consistent(r', s')
  {
    if Consistent(r + r', s) {
      forall q | q in r' && q.0 in s' ensures s'[q.0] == q.1 {
        if q.0 !in s { assert (q.0, s'[q.0]) in r + r' && q in r + r'; }
        else { assert q in r + r'; }
      }
      forall q, p | q in r' && p in r' && q.0 == p.0 ensures q.1 == p.1 { assert q in r + r' && p in r + r'; }
    }
  }

  lemma AnswersBoth(r: Demands, r': Demands, s: Subst, s': Subst, s'': Subst)
    requires Answers(s', s, r) && Answers(s'', s', r')
    ensures Answers(s'', s, r + r')
  {
  }

  /** The demands of the children. */
  ghost predicate ChildAsks(pattern: Ty, actual: Ty, q: (string, Ty)) {
    SameHead(pattern, actual) &&
    exists step :: Child(pattern, step).Some? && Child(actual, step).Some? &&
                   q in Asks(Child(pattern, step).value, Child(actual, step).value)
  }

  lemma AsksAtStep(pattern: Ty, actual: Ty, step: Step, path: seq<Step>, n: string, x: Ty)
    requires SameHead(pattern, actual) && Child(pattern, step).Some? && Child(actual, step).Some?
    ensures AsksAt(pattern, actual, [step] + path, n, x) <==>
            AsksAt(Child(pattern, step).value, Child(actual, step).value, path, n, x)
  {
    hide SameHead, Child;
    var whole := [step] + path;
    assert whole[0] == step && whole[1..] == path;
  }

  lemma AsksBelow(pattern: Ty, actual: Ty, path: seq<Step>, q: (string, Ty))
    requires AsksAt(pattern, actual, path, q.0, q.1) && path != []
    ensures ChildAsks(pattern, actual, q)
  {
    hide SameHead, Child, AsksAt;
    assert Met(pattern, actual, path) by { AsksMet(pattern, actual, path, q); }
    MetStep(pattern, actual, path);
    assert path == [path[0]] + path[1..];
    AsksAtStep(pattern, actual, path[0], path[1..], q.0, q.1);
  }

  lemma AsksMet(pattern: Ty, actual: Ty, path: seq<Step>, q: (string, Ty))
    requires AsksAt(pattern, actual, path, q.0, q.1)
    ensures Met(pattern, actual, path)
  {
  }

  lemma MetStep(pattern: Ty, actual: Ty, path: seq<Step>)
    requires Met(pattern, actual, path) && path != []
    ensures SameHead(pattern, actual) && Child(pattern, path[0]).Some? && Child(actual, path[0]).Some?
  {
  }

  lemma AsksUnfold(pattern: Ty, actual: Ty, q: (string, Ty))
    ensures q in Asks(pattern, actual) <==> (pattern == Var(q.0) && actual == q.1) || ChildAsks(pattern, actual, q)
  {
    hide SameHead, Child, AsksAt;
    assert AsksAt(pattern, actual, [], q.0, q.1) <==> pattern == Var(q.0) && actual == q.1 by { AsksHere(pattern, actual, q); }
    if path :| AsksAt(pattern, actual, path, q.0, q.1) {
      if path != [] { AsksBelow(pattern, actual, path, q); }
    }
    if ChildAsks(pattern, actual, q) {
      var step :| Child(pattern, step).Some? && Child(actual, step).Some? &&
                  q in Asks(Child(pattern, step).value, Child(actual, step).value);
      var path :| AsksAt(Child(pattern, step).value, Child(actual, step).value, path, q.0, q.1);
      AsksAtStep(pattern, actual, step, path, q.0, q.1);
    }
  }

  lemma AsksHere(pattern: Ty, actual: Ty, q: (string, Ty))
    ensures AsksAt(pattern, actual, [], q.0, q.1) <==> pattern == Var(q.0) && actual == q.1
  {
  }

  ghost predicate ChildClash(pattern: Ty, actual: Ty) {
    SameHead(pattern, actual) &&
    exists step :: Child(pattern, step).Some? && Child(actual, step).Some? &&
                   Clash(Child(pattern, step).value, Child(actual, step).value)
  }

  predicate HeadClash(pattern: Ty, actual: Ty) {
    pattern.Fn? && actual.Fn? && |pattern.params| != |actual.params|
  }

  lemma ClashAtStep(pattern: Ty, actual: Ty, step: Step, path: seq<Step>)
    requires SameHead(pattern, actual) && Child(pattern, step).Some? && Child(actual, step).Some?
    ensures ClashAt(pattern, actual, [step] + path) <==>
            ClashAt(Child(pattern, step).value, Child(actual, step).value, path)
  {
    hide SameHead, Child;
    var whole := [step] + path;
    assert whole[0] == step && whole[1..] == path;
  }

  lemma ClashBelow(pattern: Ty, actual: Ty, path: seq<Step>)
    requires ClashAt(pattern, actual, path) && path != []
    ensures ChildClash(pattern, actual)
  {
    hide SameHead, Child, ClashAt;
    assert Met(pattern, actual, path) by { ClashMet(pattern, actual, path); }
    MetStep(pattern, actual, path);
    assert path == [path[0]] + path[1..];
    ClashAtStep(pattern, actual, path[0], path[1..]);
  }

  lemma ClashMet(pattern: Ty, actual: Ty, path: seq<Step>)
    requires ClashAt(pattern, actual, path)
    ensures Met(pattern, actual, path)
  {
  }

  lemma ClashUnfold(pattern: Ty, actual: Ty)
    ensures Clash(pattern, actual) <==> HeadClash(pattern, actual) || ChildClash(pattern, actual)
  {
    hide SameHead, Child, ClashAt;
    assert ClashAt(pattern, actual, []) <==> HeadClash(pattern, actual) by { ClashHere(pattern, actual); }
    if path :| ClashAt(pattern, actual, path) {
      if path != [] { ClashBelow(pattern, actual, path); }
    }
    if ChildClash(pattern, actual) {
      var step :| Child(pattern, step).Some? && Child(actual, step).Some? &&
                  Clash(Child(pattern, step).value, Child(actual, step).value);
      var path :| ClashAt(Child(pattern, step).value, Child(actual, step).value, path);
      ClashAtStep(pattern, actual, step, path);
    }
  }

  lemma ClashHere(pattern: Ty, actual: Ty)
    ensures ClashAt(pattern, actual, []) <==> HeadClash(pattern, actual)
  {
  }

  ghost function AsksAll(patterns: seq<Ty>, actuals: seq<Ty>): Demands
    requires |patterns| == |actuals|
    decreases patterns
  {
    if patterns == [] then iset{} else Asks(patterns[0], actuals[0]) + AsksAll(patterns[1..], actuals[1..])
  }

  ghost predicate ClashAll(patterns: seq<Ty>, actuals: seq<Ty>)
    requires |patterns| == |actuals|
    decreases patterns
  {
    patterns != [] && (Clash(patterns[0], actuals[0]) || ClashAll(patterns[1..], actuals[1..]))
  }

  lemma {:induction false} AsksAllAt(patterns: seq<Ty>, actuals: seq<Ty>, q: (string, Ty))
    requires |patterns| == |actuals|
    ensures q in AsksAll(patterns, actuals) <==> exists i: nat :: i < |patterns| && q in Asks(patterns[i], actuals[i])
    decreases patterns
  {
    hide Asks;
    if patterns != [] {
      AsksAllAt(patterns[1..], actuals[1..], q);
      if i: nat :| i < |patterns| && q in Asks(patterns[i], actuals[i]) {
        if i > 0 { assert patterns[i] == patterns[1..][i - 1] && actuals[i] == actuals[1..][i - 1]; }
      }
    }
  }

  lemma {:induction false} ClashAllAt(patterns: seq<Ty>, actuals: seq<Ty>)
    requires |patterns| == |actuals|
    ensures ClashAll(patterns, actuals) <==> exists i: nat :: i < |patterns| && Clash(patterns[i], actuals[i])
    decreases patterns
  {
    hide Clash;
    if patterns != [] {
      ClashAllAt(patterns[1..], actuals[1..]);
      if i: nat :| i < |patterns| && Clash(patterns[i], actuals[i]) {
        if i > 0 { assert patterns[i] == patterns[1..][i - 1] && actuals[i] == actuals[1..][i - 1]; }
      }
    }
  }

  /** The outcome that the demands and the clashes call for. */
  ghost predicate Decided(u: Unified, s: Subst, r: Demands, clash: bool) {
    (u.ok <==> !clash && Consistent(r, s)) && (u.ok ==> Answers(u.subst, s, r)) &&
    Extends(u.subst, s) && forall n | n in u.subst && n !in s :: (n, u.subst[n]) in r
  }

  lemma DecidedBoth(u: Unified, u': Unified, s: Subst, r: Demands, r': Demands, clash: bool, clash': bool)
    requires Decided(u, s, r, clash) && (u.ok ==> Decided(u', u.subst, r', clash'))
    ensures Decided(if u.ok then u' else u, s, r + r', clash || clash')
  {
    if u.ok {
      ConsistentBoth(r, r', s, u.subst);
      if u'.ok { AnswersBoth(r, r', s, u.subst, u'.subst); }
    }
    if Consistent(r + r', s) {
      assert forall q | q in r :: q in r + r';
      assert Consistent(r, s);
    }
  }

  // ----- what each constructor asks -----

  lemma VarAsks(n: string, actual: Ty)
    ensures Asks(Var(n), actual) == iset{(n, actual)} && !Clash(Var(n), actual)
  {
    hide Asks, Clash;
    forall q ensures q in Asks(Var(n), actual) <==> q == (n, actual) { AsksUnfold(Var(n), actual, q); }
    ClashUnfold(Var(n), actual);
  }

  lemma NothingAsks(pattern: Ty, actual: Ty)
    requires !pattern.Var? && !SameHead(pattern, actual)
    ensures Asks(pattern, actual) == iset{} && (Clash(pattern, actual) <==> HeadClash(pattern, actual))
  {
    hide Asks, Clash, SameHead;
    forall q ensures q !in Asks(pattern, actual) { AsksUnfold(pattern, actual, q); }
    ClashUnfold(pattern, actual);
  }

  lemma WrapAsks(w: Wrapper, a: Ty, b: Ty)
    ensures Asks(Wrap(w, a), Wrap(w, b)) == Asks(a, b) && (Clash(Wrap(w, a), Wrap(w, b)) <==> Clash(a, b))
  {
    hide Asks, Clash;
    var p, q := Wrap(w, a), Wrap(w, b);
    assert Child(p, Inner) == Some(a) && Child(q, Inner) == Some(b);
    assert forall step :: Child(p, step).Some? ==> step == Inner;
    forall d ensures d in Asks(p, q) <==> d in Asks(a, b) { AsksUnfold(p, q, d); }
    ClashUnfold(p, q);
  }

  lemma PairAsks(k: Pairing, a: Ty, b: Ty, a': Ty, b': Ty)
    ensures Asks(Pair(k, a, b), Pair(k, a', b')) == Asks(a, a') + Asks(b, b')
    ensures Clash(Pair(k, a, b), Pair(k, a', b')) <==> Clash(a, a') || Clash(b, b')
  {
    hide Asks, Clash;
    var p, q := Pair(k, a, b), Pair(k, a', b');
    var one, other := if k == ResultOf then First else Key, if k == ResultOf then Second else Entry;
    assert Child(p, one) == Some(a) && Child(q, one) == Some(a') && Child(p, other) == Some(b) && Child(q, other) == Some(b');
    assert forall step :: Child(p, step).Some? ==> step == one || step == other;
    forall d ensures d in Asks(p, q) <==> d in Asks(a, a') + Asks(b, b') { AsksUnfold(p, q, d); }
    ClashUnfold(p, q);
  }

  lemma NamedAsks(p: Ty, q: Ty)
    requires p.Named? && q.Named? && SameHead(p, q)
    ensures Asks(p, q) == AsksAll(p.args, q.args) && (Clash(p, q) <==> ClashAll(p.args, q.args))
  {
    hide Asks, Clash, AsksAll, ClashAll;
    forall i: nat | i < |p.args| ensures Child(p, Argument(i)) == Some(p.args[i]) && Child(q, Argument(i)) == Some(q.args[i]) {}
    assert forall step :: Child(p, step).Some? ==> step.Argument? && step.i < |p.args|;
    forall d ensures d in Asks(p, q) <==> d in AsksAll(p.args, q.args) {
      AsksUnfold(p, q, d);
      AsksAllAt(p.args, q.args, d);
    }
    ClashUnfold(p, q);
    ClashAllAt(p.args, q.args);
  }

  lemma FnAsks(p: Ty, q: Ty)
    requires p.Fn? && q.Fn? && SameHead(p, q)
    ensures Asks(p, q) == AsksAll(p.params, q.params) + Asks(p.ret, q.ret)
    ensures Clash(p, q) <==> ClashAll(p.params, q.params) || Clash(p.ret, q.ret)
  {
    hide Asks, Clash, AsksAll, ClashAll;
    forall i: nat | i < |p.params|
      ensures Child(p, Parameter(i)) == Some(p.params[i]) && Child(q, Parameter(i)) == Some(q.params[i])
    {}
    assert Child(p, Return) == Some(p.ret) && Child(q, Return) == Some(q.ret);
    assert forall step :: Child(p, step).Some? ==> step == Return || (step.Parameter? && step.i < |p.params|);
    forall d ensures d in Asks(p, q) <==> d in AsksAll(p.params, q.params) + Asks(p.ret, q.ret) {
      AsksUnfold(p, q, d);
      AsksAllAt(p.params, q.params, d);
    }
    ClashUnfold(p, q);
    ClashAllAt(p.params, q.params);
  }

  /** What a call does, for all pairs of types. It fails exactly when two functions that are met differ in the number of
      parameters, or two positions that are met, or one and a binding, ask different types of one variable. On success
      the bindings are the old ones and what is asked for; on failure too nothing is bound that is not asked for. */
  lemma {:induction false} UnifyDecides(pattern: Ty, actual: Ty, s: Subst)
    ensures Decided(Unify(pattern, actual, s), s, Asks(pattern, actual), Clash(pattern, actual))
    decreases pattern, 1
  {
    hide Decided, Asks, Clash, AsksAll, ClashAll;
    if pattern.Var? {
      VarAsks(pattern.variable, actual);
      VarDecides(pattern.variable, actual, s);
    } else if !SameHead(pattern, actual) {
      NothingAsks(pattern, actual);
      NothingDecides(pattern, actual, s);
    } else {
      match pattern
      case Wrap(w, a) =>
        WrapAsks(w, a, actual.inner);
        UnifyDecides(a, actual.inner, s);
      case Pair(k, a, b) =>
        var first := Unify(a, actual.first, s);
        PairAsks(k, a, b, actual.first, actual.second);
        UnifyDecides(a, actual.first, s);
        UnifyDecides(b, actual.second, first.subst);
        DecidedBoth(first, Unify(b, actual.second, first.subst), s, Asks(a, actual.first), Asks(b, actual.second),
                    Clash(a, actual.first), Clash(b, actual.second));
      case Named(_, _, ps) =>
        NamedAsks(pattern, actual);
        UnifyAllDecides(ps, actual.args, s);
      case Fn(ps, r) =>
        var params := UnifyAll(ps, actual.params, s);
        FnAsks(pattern, actual);
        UnifyAllDecides(ps, actual.params, s);
        UnifyDecides(r, actual.ret, params.subst);
        DecidedBoth(params, Unify(r, actual.ret, params.subst), s, AsksAll(ps, actual.params), Asks(r, actual.ret),
                    ClashAll(ps, actual.params), Clash(r, actual.ret));
      case _ =>
    }
  }

  lemma VarDecides(n: string, actual: Ty, s: Subst)
    ensures Decided(Unify(Var(n), actual, s), s, iset{(n, actual)}, false)
  {
  }

  lemma NothingDecides(pattern: Ty, actual: Ty, s: Subst)
    requires !pattern.Var? && !SameHead(pattern, actual)
    ensures Decided(Unify(pattern, actual, s), s, iset{}, HeadClash(pattern, actual))
  {
  }

  lemma {:induction false} UnifyAllDecides(patterns: seq<Ty>, actuals: seq<Ty>, s: Subst)
    requires |patterns| == |actuals|
    ensures Decided(UnifyAll(patterns, actuals, s), s, AsksAll(patterns, actuals), ClashAll(patterns, actuals))
    decreases patterns, 0
  {
    hide Asks, Clash, Unify;
    if patterns != [] {
      var head := Unify(patterns[0], actuals[0], s);
      UnifyDecides(patterns[0], actuals[0], s);
      UnifyAllDecides(patterns[1..], actuals[1..], head.subst);
      DecidedBoth(head, UnifyAll(patterns[1..], actuals[1..], head.subst), s, Asks(patterns[0], actuals[0]),
                  AsksAll(patterns[1..], actuals[1..]), Clash(patterns[0], actuals[0]), ClashAll(patterns[1..], actuals[1..]));
    }
  }
}
